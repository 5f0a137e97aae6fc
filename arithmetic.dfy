/** Facts about Euclidean division that the calendar and slice proofs share. */
module Arithmetic {

  /** Division with remainder has one answer. */
  lemma RemainderUnique(x: int, d: int, q: int, r: int)
    requires d > 0 && 0 <= r < d && x == q * d + r
    ensures x % d == r
  {
    var q', r' := x / d, x % d;
    assert x == q' * d + r';
    var a := q - q';
    assert a * d == r' - r by {
      assert q * d - q' * d == r' - r;
    }
    assert a >= 1 ==> a * d == (a - 1) * d + d && (a - 1) * d >= 0;
    assert a <= -1 ==> -(a * d) == (-a - 1) * d + d && (-a - 1) * d >= 0;
    assert a == 0;
  }
}
