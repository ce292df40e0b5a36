/**
 * The data the library works on: the loaded table `csvData_t` (a `rows` by
 * `cols` grid of cells, read row by row as `dataFrame[row][col]`) and the
 * float buffers the library hands out.
 *
 * Cells are `real`: the C `float` is abstracted to exact arithmetic.
 */
module Frame {

  /** The loaded table. The core only ever reads it, so it is a value. */
  datatype CsvData = CsvData(rows: int, cols: int, dataFrame: seq<seq<real>>) {

    /** What the loader guarantees: a non-empty, rectangular `rows` by `cols` grid. */
    predicate Valid() {
      && rows > 0
      && cols > 0
      && |dataFrame| == rows
      && forall row :: 0 <= row < |dataFrame| ==> |dataFrame[row]| == cols
    }
  }

  /** The cells of column `col`, from the first row to the last. */
  function Column(df: CsvData, col: int): (c: seq<real>)
    requires df.Valid() && 0 <= col < df.cols
    ensures |c| == df.rows
    ensures forall row :: 0 <= row < df.rows ==> c[row] == df.dataFrame[row][col]
  {
    seq(df.rows, row requires 0 <= row < df.rows => df.dataFrame[row][col])
  }

  /** `createFloatVector`: a freshly allocated buffer of `len` cells. */
  method CreateFloatVector(len: nat) returns (vector: array<real>)
    ensures fresh(vector) && vector.Length == len
  {
    vector := new real[len];
  }
}
