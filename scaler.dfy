/**
 * Vector rescaling: `scaleToUnity` divides every element by the span of the
 * given bounds, `scaleVector` maps the range of one pair of bounds affinely
 * onto the range of another. Both write a fresh buffer and leave their input
 * alone.
 */
module Scaler {

  /** The element `scaleToUnity` writes for `x`: `x` divided by the span. */
  function Unity(x: real, lowerBound: real, upperBound: real): real
    requires upperBound != lowerBound
  {
    x / (upperBound - lowerBound)
  }

  /** `scale` of `scaleVector`: the ratio of the new span to the old one. */
  function Scale(lowerBound: real, upperBound: real, newLowBound: real, newUpBound: real): real
    requires upperBound != lowerBound
  {
    (newUpBound - newLowBound) / (upperBound - lowerBound)
  }

  /** `offset` of `scaleVector`: what the new range adds after scaling. */
  function Offset(lowerBound: real, upperBound: real, newLowBound: real, newUpBound: real): real
    requires upperBound != lowerBound
  {
    newLowBound - Scale(lowerBound, upperBound, newLowBound, newUpBound) * lowerBound
  }

  /** The element `scaleVector` writes for `x`: `x * scale + offset`. */
  function Rescale(x: real, lowerBound: real, upperBound: real, newLowBound: real, newUpBound: real): real
    requires upperBound != lowerBound
  {
    x * Scale(lowerBound, upperBound, newLowBound, newUpBound)
      + Offset(lowerBound, upperBound, newLowBound, newUpBound)
  }

  lemma DivTimesDivisor(a: real, b: real)
    requires b != 0.0
    ensures (a / b) * b == a
  {
  }

  /**
   * The affine map is the usual min-max formula: the distance from the old
   * lower bound, as a fraction of the old span, laid onto the new span.
   */
  lemma RescaleIsMinMax(x: real, lowerBound: real, upperBound: real, newLowBound: real, newUpBound: real)
    requires upperBound != lowerBound
    ensures Rescale(x, lowerBound, upperBound, newLowBound, newUpBound)
         == newLowBound + (x - lowerBound) / (upperBound - lowerBound) * (newUpBound - newLowBound)
  {
    var scale := Scale(lowerBound, upperBound, newLowBound, newUpBound);
    var span, newSpan := upperBound - lowerBound, newUpBound - newLowBound;
    assert scale == newSpan / span;
    calc {
      (x - lowerBound) / span * newSpan;
      (x - lowerBound) * newSpan / span;
      (x - lowerBound) * (newSpan / span);
      x * scale - lowerBound * scale;
    }
  }

  /** The old bounds land on the new ones. */
  lemma RescaleEndpoints(lowerBound: real, upperBound: real, newLowBound: real, newUpBound: real)
    requires upperBound != lowerBound
    ensures Rescale(lowerBound, lowerBound, upperBound, newLowBound, newUpBound) == newLowBound
    ensures Rescale(upperBound, lowerBound, upperBound, newLowBound, newUpBound) == newUpBound
  {
    RescaleIsMinMax(lowerBound, lowerBound, upperBound, newLowBound, newUpBound);
    RescaleIsMinMax(upperBound, lowerBound, upperBound, newLowBound, newUpBound);
    DivTimesDivisor(upperBound - lowerBound, upperBound - lowerBound);
  }

  /**
   * Rescaling back, with the old and the new bounds swapped, restores every
   * value exactly (over the reals) when neither span is zero.
   */
  lemma RescaleInverse(x: real, lowerBound: real, upperBound: real, newLowBound: real, newUpBound: real)
    requires upperBound != lowerBound && newUpBound != newLowBound
    ensures Rescale(Rescale(x, lowerBound, upperBound, newLowBound, newUpBound),
                    newLowBound, newUpBound, lowerBound, upperBound) == x
  {
    var y := Rescale(x, lowerBound, upperBound, newLowBound, newUpBound);
    var span, newSpan := upperBound - lowerBound, newUpBound - newLowBound;
    RescaleIsMinMax(x, lowerBound, upperBound, newLowBound, newUpBound);
    RescaleIsMinMax(y, newLowBound, newUpBound, lowerBound, upperBound);
    var t := (x - lowerBound) / span;
    assert y - newLowBound == t * newSpan;
    DivTimesDivisor(t * newSpan, newSpan);
    assert (y - newLowBound) / newSpan == t;
    DivTimesDivisor(x - lowerBound, span);
  }

  /** `scaleToUnity` is the rescaling of `[0, upper - lower]` onto `[0, 1]`. */
  lemma UnityIsRescale(x: real, lowerBound: real, upperBound: real)
    requires upperBound != lowerBound
    ensures Unity(x, lowerBound, upperBound) == Rescale(x, 0.0, upperBound - lowerBound, 0.0, 1.0)
  {
    RescaleIsMinMax(x, 0.0, upperBound - lowerBound, 0.0, 1.0);
  }

  /** Multiplying a unity-scaled value by the span restores it. */
  lemma UnityInverse(x: real, lowerBound: real, upperBound: real)
    requires upperBound != lowerBound
    ensures Unity(x, lowerBound, upperBound) * (upperBound - lowerBound) == x
  {
    DivTimesDivisor(x, upperBound - lowerBound);
  }

  /** With bounds `0` and `2x`, the value `x` scales to one half. */
  lemma UnityOfHalfSpan(x: real)
    requires x != 0.0
    ensures Unity(x, 0.0, 2.0 * x) == 0.5
  {
    DivTimesDivisor(0.5, 2.0 * x);
  }

  /**
   * `scaleToUnity`: a fresh buffer of `vectorLen` elements, each the input
   * element divided by `upperBound - lowerBound`.
   */
  method ScaleToUnity(vector: array<real>, vectorLen: nat, lowerBound: real, upperBound: real)
    returns (unity: array<real>)
    requires vectorLen <= vector.Length
    requires upperBound != lowerBound
    ensures fresh(unity) && unity.Length == vectorLen
    ensures forall i :: 0 <= i < vectorLen ==> unity[i] == Unity(vector[i], lowerBound, upperBound)
  {
    unity := new real[vectorLen];
    for loop := 0 to vectorLen
      invariant forall i :: 0 <= i < loop ==> unity[i] == Unity(vector[i], lowerBound, upperBound)
    {
      unity[loop] := vector[loop] / (upperBound - lowerBound);
    }
  }

  /**
   * `scaleVector`: computes `scale` and `offset` once, then writes a fresh
   * buffer of `vectorLen` elements, each `vector[i] * scale + offset`.
   */
  method ScaleVector(vector: array<real>, vectorLen: nat, lowerBound: real, upperBound: real,
                     newLowBound: real, newUpBound: real)
    returns (scaledDownVector: array<real>)
    requires vectorLen <= vector.Length
    requires upperBound != lowerBound
    ensures fresh(scaledDownVector) && scaledDownVector.Length == vectorLen
    ensures forall i :: 0 <= i < vectorLen ==>
      scaledDownVector[i] == Rescale(vector[i], lowerBound, upperBound, newLowBound, newUpBound)
  {
    scaledDownVector := new real[vectorLen];
    var scale := (newUpBound - newLowBound) / (upperBound - lowerBound);
    var offset := newLowBound - (scale * lowerBound);
    for loop := 0 to vectorLen
      invariant forall i :: 0 <= i < loop ==>
        scaledDownVector[i] == Rescale(vector[i], lowerBound, upperBound, newLowBound, newUpBound)
    {
      scaledDownVector[loop] := vector[loop] * scale + offset;
    }
  }

  /**
   * A caller that scales a buffer to new bounds and back, swapping the bounds,
   * gets back the elements it started with.
   */
  method ScaleVectorRoundTrip(vector: array<real>, vectorLen: nat, lowerBound: real, upperBound: real,
                              newLowBound: real, newUpBound: real)
    returns (restored: seq<real>)
    requires vectorLen <= vector.Length
    requires upperBound != lowerBound && newUpBound != newLowBound
    ensures restored == vector[..vectorLen]
  {
    var scaled := ScaleVector(vector, vectorLen, lowerBound, upperBound, newLowBound, newUpBound);
    var back := ScaleVector(scaled, vectorLen, newLowBound, newUpBound, lowerBound, upperBound);
    forall i | 0 <= i < vectorLen
      ensures back[i] == vector[i]
    {
      RescaleInverse(vector[i], lowerBound, upperBound, newLowBound, newUpBound);
    }
    restored := back[..];
  }
}
