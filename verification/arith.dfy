/** Integer arithmetic as the numpy code performs it: int32 wrap-around and
    division that truncates toward zero. Dafny's own `/` and `%` are
    Euclidean, which agrees with Python's floor division only for a
    positive divisor. */
module Arith {
  import opened Results

  lemma MulAtLeast(k: int, w: int)
    requires k >= 1 && w > 0
    ensures k * w >= w
  {
  }

  /** Quotient and remainder are unique: any split `x == q * w + r` with
      `0 <= r < w` is the one `/` and `%` compute. */
  lemma DivModUnique(x: int, w: int, q: int, r: int)
    requires w > 0 && 0 <= r < w && x == q * w + r
    ensures x / w == q && x % w == r
  {
    var q0 := x / w;
    var r0 := x % w;
    assert x == q0 * w + r0;
    assert (q0 - q) * w == r - r0;
    if q0 > q {
      MulAtLeast(q0 - q, w);
    } else if q0 < q {
      MulAtLeast(q - q0, w);
    }
  }

  /** Taking one whole `w` off does not change the remainder. */
  lemma ModShift(a: int, w: int)
    requires w > 0
    ensures (a - w) % w == a % w
  {
    var q := a / w;
    var r := a % w;
    assert a == q * w + r;
    assert a - w == (q - 1) * w + r;
    DivModUnique(a - w, w, q - 1, r);
  }

  const TwoTo31: int := 0x8000_0000
  const TwoTo32: int := 0x1_0000_0000

  predicate InI32(x: int) {
    -TwoTo31 <= x < TwoTo31
  }

  /** `astype(np.int32)` of an integer: two's-complement wrap-around. */
  function Wrap32(x: int): (r: int)
    ensures InI32(r)
    ensures (r - x) % TwoTo32 == 0
    ensures InI32(x) ==> r == x
  {
    WrapFacts(x);
    (x + TwoTo31) % TwoTo32 - TwoTo31
  }

  lemma WrapFacts(x: int)
    ensures ((x + TwoTo31) % TwoTo32 - TwoTo31 - x) % TwoTo32 == 0
    ensures InI32(x) ==> (x + TwoTo31) % TwoTo32 == x + TwoTo31
  {
    var q := (x + TwoTo31) / TwoTo32;
    var m := (x + TwoTo31) % TwoTo32;
    assert x + TwoTo31 == q * TwoTo32 + m;
    assert m - TwoTo31 - x == (-q) * TwoTo32;
    DivModUnique(m - TwoTo31 - x, TwoTo32, -q, 0);
    if InI32(x) {
      DivModUnique(x + TwoTo31, TwoTo32, 0, x + TwoTo31);
    }
  }

  /** `q` is `a / b` rounded toward zero: `q * b` lies between 0 and `a`,
      less than one `b` away from `a`. */
  predicate IsTruncQuotient(a: int, b: int, q: int) {
    if a >= 0 then 0 <= a - q * b < b else -b < a - q * b <= 0
  }

  /** `div_ttz`: division by a positive `b`, truncated toward zero. The
      source divides in floating point and casts back, which rounds the
      same way for the values that occur (see the README). */
  function DivTtz(a: int, b: int): (q: int)
    requires b > 0
    ensures a >= 0 ==> q >= 0
    ensures a <= 0 ==> q <= 0
  {
    if a >= 0 then a / b else -((-a) / b)
  }

  /** `DivTtz` yields the truncated quotient, and no other value is one. */
  lemma DivTtzIsTruncQuotient(a: int, b: int, q: int)
    requires b > 0
    ensures IsTruncQuotient(a, b, q) <==> q == DivTtz(a, b)
  {
    if a >= 0 {
      var q0 := a / b;
      assert a == q0 * b + a % b;
      if IsTruncQuotient(a, b, q) {
        DivModUnique(a, b, q, a - q * b);
      }
    } else {
      var q0 := (-a) / b;
      assert -a == q0 * b + (-a) % b;
      assert a - (-q0) * b == -((-a) % b);
      if IsTruncQuotient(a, b, q) {
        assert -a == (-q) * b + (q * b - a);
        DivModUnique(-a, b, -q, q * b - a);
      }
    }
  }

  /** `idiv_trunc_i32`: floor division, moved up by one for a negative
      dividend with a remainder, then cast to int32. */
  function IdivTruncI32(x: int, d: int): (r: Result<int>)
    ensures r.Err? <==> d <= 0
    ensures r.Err? ==> r.error == NonPositiveDivisor(d)
    ensures r.Ok? ==> InI32(r.value)
  {
    if d <= 0 then Err(NonPositiveDivisor(d))
    else
      var q := x / d;
      var q' := if x < 0 && x % d != 0 then q + 1 else q;
      Ok(Wrap32(q'))
  }

  /** The floor-and-correct computation is the truncating division. */
  lemma IdivTruncIsDivTtz(x: int, d: int)
    requires d > 0
    ensures IdivTruncI32(x, d) == Ok(Wrap32(DivTtz(x, d)))
  {
    var q := x / d;
    var q' := if x < 0 && x % d != 0 then q + 1 else q;
    assert x == q * d + x % d;
    if x < 0 {
      if x % d != 0 {
        assert x - q' * d == x % d - d;
      }
      assert IsTruncQuotient(x, d, q');
    } else {
      assert IsTruncQuotient(x, d, q');
    }
    DivTtzIsTruncQuotient(x, d, q');
  }

  /** `idiv_round_i32`: adds half the divisor to the magnitude, divides
      with floor, restores the sign and casts to int32. */
  function IdivRoundI32(x: int, d: int): (r: Result<int>)
    ensures r.Err? <==> d <= 0
    ensures r.Err? ==> r.error == NonPositiveDivisor(d)
    ensures r.Ok? ==> InI32(r.value)
  {
    if d <= 0 then Err(NonPositiveDivisor(d))
    else
      var half := d / 2;
      var q := if x >= 0 then (x + half) / d else -((-x + half) / d);
      Ok(Wrap32(q))
  }

  /** The quotient before the cast of `IdivRoundI32`. */
  function RoundQuotient(x: int, d: int): int
    requires d > 0
  {
    var half := d / 2;
    if x >= 0 then (x + half) / d else -((-x + half) / d)
  }

  /** Rounding to nearest with ties away from zero: `q * d` is within half a
      divisor of `x`, has the sign of `x`, and a tie (possible only for an
      even divisor) lands on the side farther from zero. */
  lemma {:induction false} RoundQuotientNearest(x: int, d: int)
    requires d > 0
    ensures IdivRoundI32(x, d) == Ok(Wrap32(RoundQuotient(x, d)))
    ensures x >= 0 ==> RoundQuotient(x, d) >= 0 && -d <= 2 * (x - RoundQuotient(x, d) * d) < d
    ensures x < 0 ==> RoundQuotient(x, d) <= 0 && -d < 2 * (x - RoundQuotient(x, d) * d) <= d
  {
    var y := if x >= 0 then x else -x;
    var q := (y + d / 2) / d;
    HalfUpRound(y, d);
    if x < 0 {
      assert RoundQuotient(x, d) == -q;
      assert x - (-q) * d == -(y - q * d);
    }
  }

  /** Adding half the divisor before a floor division rounds a
      non-negative `y` to the nearest multiple, ties upward. */
  lemma HalfUpRound(y: nat, d: int)
    requires d > 0
    ensures (y + d / 2) / d >= 0
    ensures -d <= 2 * (y - (y + d / 2) / d * d) < d
  {
    var half := d / 2;
    var q := (y + half) / d;
    var r := (y + half) % d;
    var qd := q * d;
    assert y + half == qd + r;
    assert d == 2 * half + d % 2;
    assert 2 * (y - qd) == 2 * r - 2 * half;
  }
}
