/**
 * `randomDataStream`: draws cells of the table uniformly, with replacement.
 *
 * The pseudo-random generator is not modelled: the caller supplies the raw
 * `rand()` results, one pair per sample, the first reduced modulo `rows` and
 * the second modulo `cols`. `rand()` never returns a negative number, so C's
 * `%` and Dafny's agree here.
 */
module Sampler {
  import opened Frame

  /** `v` is the value of some cell of the table. */
  ghost predicate IsCell(df: CsvData, v: real)
    requires df.Valid()
  {
    exists row, col :: 0 <= row < df.rows && 0 <= col < df.cols && v == df.dataFrame[row][col]
  }

  /** The cell one pair of raw `rand()` results selects. */
  function CellAt(df: CsvData, draw: (nat, nat)): (v: real)
    requires df.Valid()
    ensures IsCell(df, v)
  {
    var xIndex, yIndex := draw.0 % df.rows, draw.1 % df.cols;
    df.dataFrame[xIndex][yIndex]
  }

  /**
   * `randomDataStream`: a fresh buffer of `numOfData` cells, the `num`-th
   * picked by the `num`-th pair of draws.
   */
  method RandomDataStream(df: CsvData, numOfData: nat, draws: seq<(nat, nat)>) returns (stream: array<real>)
    requires df.Valid()
    requires numOfData <= |draws|
    ensures fresh(stream) && stream.Length == numOfData
    ensures forall num :: 0 <= num < numOfData ==> stream[num] == CellAt(df, draws[num])
  {
    stream := new real[numOfData];
    for num := 0 to numOfData
      invariant forall k :: 0 <= k < num ==> stream[k] == CellAt(df, draws[k])
    {
      var xIndex := draws[num].0 % df.rows;
      var yIndex := draws[num].1 % df.cols;
      stream[num] := df.dataFrame[xIndex][yIndex];
    }
  }

  /**
   * What a caller of `randomDataStream` may rely on: exactly `numOfData`
   * values, each of them a cell of the table, and none for a request of zero.
   */
  method SampleFromTable(df: CsvData, numOfData: nat, draws: seq<(nat, nat)>) returns (stream: seq<real>)
    requires df.Valid()
    requires numOfData <= |draws|
    ensures |stream| == numOfData
    ensures numOfData == 0 ==> stream == []
    ensures forall num :: 0 <= num < numOfData ==> IsCell(df, stream[num])
  {
    var buffer := RandomDataStream(df, numOfData, draws);
    stream := buffer[..];
  }
}
