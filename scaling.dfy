/** The linear rescaling both decoders apply to a raw unsigned field: the full
    unsigned range of the field's width is mapped onto [scale_minimum,
    scale_maximum]. Computed over exact reals rather than Python floats. */
module Scaling {
  import opened Util

  /** (2 ** (bytes * 8)) - 1: the largest raw value a field of that width holds. */
  function FullScale(bytes: nat): (r: nat)
    ensures bytes > 0 ==> r > 0
  {
    PowAtLeastBase(2, 8 * bytes);
    Pow(2, 8 * bytes) - 1
  }

  lemma PowAtLeastBase(b: nat, k: nat)
    requires b > 0
    ensures Pow(b, k) >= 1 && (k > 0 ==> Pow(b, k) >= b)
  {
    if k > 0 {
      PowAtLeastBase(b, k - 1);
    }
  }

  /** ((raw * (max - min)) / dividend) + min; None where Python raises
      ZeroDivisionError, that is for a zero-byte field whose dividend is 0. */
  function Scale(raw: nat, bytes: nat, lo: real, hi: real): (r: Option<real>)
    ensures r.Some? <==> bytes > 0
  {
    if bytes == 0 then None
    else Some(Rescale(raw as real, FullScale(bytes) as real, lo, hi))
  }

  function Rescale(x: real, d: real, lo: real, hi: real): real
    requires d > 0.0
  {
    (x * (hi - lo)) / d + lo
  }

  /** Raw 0 is scale_minimum. */
  lemma ScaleAtZero(bytes: nat, lo: real, hi: real)
    requires bytes > 0
    ensures Scale(0, bytes, lo, hi) == Some(lo)
  {
  }

  /** The all-ones raw value is scale_maximum. */
  lemma ScaleAtFull(bytes: nat, lo: real, hi: real)
    requires bytes > 0
    ensures Scale(FullScale(bytes), bytes, lo, hi) == Some(hi)
  {
    RescaleAtDivisor(FullScale(bytes) as real, lo, hi);
  }

  lemma RescaleAtDivisor(d: real, lo: real, hi: real)
    requires d > 0.0
    ensures Rescale(d, d, lo, hi) == hi
  {
  }

  /** A raw value within the field's range scales into [scale_minimum,
      scale_maximum] when scale_minimum <= scale_maximum. */
  lemma ScaleWithinLimits(raw: nat, bytes: nat, lo: real, hi: real)
    requires bytes > 0 && raw <= FullScale(bytes) && lo <= hi
    ensures lo <= Scale(raw, bytes, lo, hi).value <= hi
  {
    var d := FullScale(bytes) as real;
    RescaleMonotone(0.0, raw as real, d, lo, hi);
    RescaleMonotone(raw as real, d, d, lo, hi);
    RescaleAtDivisor(d, lo, hi);
  }

  /** The mapping is monotone in the raw value when scale_minimum <= scale_maximum. */
  lemma ScaleMonotone(a: nat, b: nat, bytes: nat, lo: real, hi: real)
    requires bytes > 0 && a <= b && lo <= hi
    ensures Scale(a, bytes, lo, hi).value <= Scale(b, bytes, lo, hi).value
  {
    RescaleMonotone(a as real, b as real, FullScale(bytes) as real, lo, hi);
  }

  lemma RescaleMonotone(x: real, y: real, d: real, lo: real, hi: real)
    requires x <= y && d > 0.0 && lo <= hi
    ensures Rescale(x, d, lo, hi) <= Rescale(y, d, lo, hi)
  {
    assert x * (hi - lo) <= y * (hi - lo);
  }
}
