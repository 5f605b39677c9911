/** Rust's `i64` and the checked arithmetic of its standard library. */
module Int64 {
  import opened Wrappers

  const MIN: int := -0x8000_0000_0000_0000
  const MAX: int := 0x7FFF_FFFF_FFFF_FFFF

  predicate InRange(x: int) { MIN <= x <= MAX }

  type i64 = x: int | MIN <= x <= MAX

  function Abs(x: int): nat { if x < 0 then -x else x }

  /** Division rounding toward zero, as Rust's `/` on signed integers does
      (Dafny's own `/` is Euclidean). */
  function TruncDiv(a: int, b: int): (q: int)
    requires b != 0
    ensures q == 0 <==> Abs(a) < Abs(b)
    ensures q != 0 ==> (0 < q <==> (a < 0) == (b < 0))
  {
    NatDivision(Abs(a), Abs(b));
    var d := Abs(a) / Abs(b);
    if (a < 0) == (b < 0) then d else -d
  }

  /** Euclidean division of magnitudes, the building block of `TruncDiv`. */
  lemma NatDivision(m: nat, n: nat)
    requires n > 0
    ensures m == (m / n) * n + m % n && 0 <= m % n < n
    ensures m / n <= m
    ensures n >= 2 ==> 2 * (m / n) <= m
    ensures m / n == 0 <==> m < n
  {
    var q := m / n;
    assert 0 <= q;
    MulMonotone(q, if n >= 2 then 2 else 1, n);
    if q > 0 {
      MulMonotone(n, 1, q);
      assert n <= q * n;
    }
  }

  /** Multiplying by a natural number preserves order. */
  lemma {:induction false} MulMonotone(q: nat, a: nat, b: nat)
    requires a <= b
    ensures q * a <= q * b
  {
    if q > 0 {
      MulMonotone(q - 1, a, b);
      assert q * a == (q - 1) * a + a && q * b == (q - 1) * b + b;
    }
  }

  lemma MulNeg(x: int, y: int)
    ensures (-x) * y == -(x * y) && x * (-y) == -(x * y) && (-x) * (-y) == x * y
  {
  }

  /** `TruncDiv` is division with a remainder that takes the sign of the
      dividend and is smaller in magnitude than the divisor. */
  lemma TruncDivIsTruncating(a: int, b: int)
    requires b != 0
    ensures var rem := a - TruncDiv(a, b) * b;
            (a >= 0 ==> 0 <= rem) && (a <= 0 ==> rem <= 0) && Abs(rem) < Abs(b)
  {
    var m: int, n: int := Abs(a), Abs(b);
    NatDivision(m, n);
    var q: int, r: int := m / n, m % n;
    MulNeg(q, n);
    var p: int := q * n;
    assert m == p + r;
    if a >= 0 && b > 0 {
      assert TruncDiv(a, b) * b == p;
      assert a - TruncDiv(a, b) * b == r;
    } else if a >= 0 {
      assert TruncDiv(a, b) * b == (-q) * (-n) == p;
      assert a - TruncDiv(a, b) * b == r;
    } else if b > 0 {
      assert TruncDiv(a, b) * b == (-q) * n == -p;
      assert a - TruncDiv(a, b) * b == -r;
    } else {
      assert TruncDiv(a, b) * b == q * (-n) == -p;
      assert a - TruncDiv(a, b) * b == -r;
    }
  }

  /** The magnitude of a truncating quotient never exceeds the dividend's;
      it is at most half of it when the divisor is neither 1 nor -1. */
  lemma TruncDivMagnitude(a: int, b: int)
    requires b != 0
    ensures Abs(TruncDiv(a, b)) <= Abs(a)
    ensures Abs(b) >= 2 ==> 2 * Abs(TruncDiv(a, b)) <= Abs(a)
    ensures b == 1 ==> TruncDiv(a, b) == a
    ensures b == -1 ==> TruncDiv(a, b) == -a
  {
    NatDivision(Abs(a), Abs(b));
    assert Abs(TruncDiv(a, b)) == Abs(a) / Abs(b);
  }

  /** `i64::checked_add`, defined by the standard library as the exact
      sum when it fits and `None` otherwise; the contract is that
      definition. */
  function CheckedAdd(a: i64, b: i64): (r: Option<i64>)
    ensures r.Some? <==> InRange(a + b)
    ensures r.Some? ==> r.value == a + b
  {
    if InRange(a + b) then Some(a + b) else None
  }

  /** `i64::checked_sub`, defined as the exact difference when it fits
      and `None` otherwise; the contract is that definition. */
  function CheckedSub(a: i64, b: i64): (r: Option<i64>)
    ensures r.Some? <==> InRange(a - b)
    ensures r.Some? ==> r.value == a - b
  {
    if InRange(a - b) then Some(a - b) else None
  }

  /** `i64::checked_mul`, defined as the exact product when it fits and
      `None` otherwise; the contract is that definition. */
  function CheckedMul(a: i64, b: i64): (r: Option<i64>)
    ensures r.Some? <==> InRange(a * b)
    ensures r.Some? ==> r.value == a * b
  {
    if InRange(a * b) then Some(a * b) else None
  }

  /** `i64::checked_div`: the truncating quotient when the divisor is not
      zero and the quotient fits. */
  function CheckedDiv(a: i64, b: i64): (r: Option<i64>)
    ensures r.Some? ==> b != 0 && r.value == TruncDiv(a, b)
  {
    if b == 0 then None
    else
      var q := TruncDiv(a, b);
      if InRange(q) then Some(q) else None
  }

  /** The only failures of `checked_div` are a zero divisor and
      `i64::MIN / -1`, whose quotient 2^63 does not fit. */
  lemma CheckedDivFails(a: i64, b: i64)
    ensures CheckedDiv(a, b).None? <==> b == 0 || (a == MIN && b == -1)
  {
    if b != 0 {
      TruncDivMagnitude(a, b);
      var q := TruncDiv(a, b);
      assert MIN <= a <= MAX && Abs(a) <= -MIN;
      if b == -1 && a == MIN {
        assert q == -MIN == MAX + 1;
      } else if b == -1 || b == 1 {
        assert InRange(q);
      } else {
        assert Abs(b) >= 2;
        assert 2 * Abs(q) <= Abs(a) <= -MIN;
        assert InRange(q);
      }
    }
  }
}
