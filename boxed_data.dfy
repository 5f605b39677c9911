/** The `boxed-data` exercise: an arithmetic expression tree over `i64`
    and its evaluator with checked arithmetic.

    `Value` is the reference meaning of an expression, written as plain
    recursion; `Eval` is the evaluator as the source writes it, with the
    accumulating loop of `Summation` and the counting loop of `Sigma`, and
    is proved to compute `Value`. */
module BoxedData {
  import opened Wrappers
  import opened Int64

  /** `enum Expr`; the `Box` indirections of the source have no counterpart
      here, and the helpers `add`, `sub`, `mul`, `div` are the constructors. */
  datatype Expr =
    | Const(k: i64)
    | Add(lhs: Expr, rhs: Expr)
    | Sub(lhs: Expr, rhs: Expr)
    | Var
    | Summation(exprs: seq<Expr>)
    | Mul(lhs: Expr, rhs: Expr)
    | Div(lhs: Expr, rhs: Expr)
    | Sigma(from: Expr, to: Expr)

  // ---------------------------------------------------------------------
  // Reference meaning
  // ---------------------------------------------------------------------

  /** The value of `e` when `Var` stands for `x`. */
  ghost function Value(e: Expr, x: i64): Option<i64>
    decreases e
  {
    match e
    case Const(k) => Some(k)
    case Var => Some(x)
    case Add(l, r) =>
      (match (Value(l, x), Value(r, x))
       case (Some(a), Some(b)) => CheckedAdd(a, b)
       case _ => None)
    case Sub(l, r) =>
      (match (Value(l, x), Value(r, x))
       case (Some(a), Some(b)) => CheckedSub(a, b)
       case _ => None)
    case Mul(l, r) =>
      (match (Value(l, x), Value(r, x))
       case (Some(a), Some(b)) => CheckedMul(a, b)
       case _ => None)
    case Div(l, r) =>
      (match (Value(l, x), Value(r, x))
       case (Some(a), Some(b)) => CheckedDiv(a, b)
       case _ => None)
    case Summation(es) => SumFrom(0, es, x)
    case Sigma(a, b) =>
      var lo, hi := Value(a, x), Value(b, x);
      if lo.None? || hi.None? then None
      else if hi.value < lo.value then Some(0)
      else if hi.value == MAX then None   // the counter cannot step past `i64::MAX`
      else
        // Gauss's formula for the lowest running total and for the whole
        // sum (`LowestEnd` and `RangeSum`, written out)
        var l, h := lo.value, hi.value;
        var m := if 0 <= l then l + 1 else if h < 0 then h + 1 else 0;
        var lowest, total := (l + m - 1) * (m - l) / 2, (l + h) * (h - l + 1) / 2;
        if MIN <= lowest && MIN <= total <= MAX then Some(total) else None
  }

  /** Checked left-to-right sum of the values of `es`, starting from `acc`. */
  ghost function SumFrom(acc: i64, es: seq<Expr>, x: i64): Option<i64>
    decreases es
  {
    if es == [] then Some(acc)
    else match Value(es[0], x)
      case None => None
      case Some(v) =>
        match CheckedAdd(acc, v)
        case None => None
        case Some(acc') => SumFrom(acc', es[1..], x)
  }

  // ---------------------------------------------------------------------
  // Arithmetic behind the reference meaning
  // ---------------------------------------------------------------------

  /** Every child of `es` has a value. */
  ghost predicate AllDefined(es: seq<Expr>, x: i64)
  {
    forall i | 0 <= i < |es| :: Value(es[i], x).Some?
  }

  /** The exact (unbounded) sum of the children's values. */
  ghost function Total(es: seq<Expr>, x: i64): int
    requires AllDefined(es, x)
  {
    if es == [] then 0 else Value(es[0], x).value + Total(es[1..], x)
  }

  /** The sum of the integers in `[lo, hi)`, by Gauss's formula. */
  function RangeSum(lo: int, hi: int): int
  {
    if hi <= lo then 0 else (lo + hi - 1) * (hi - lo) / 2
  }

  /** The sum of the integers in `[lo, hi)`, one term at a time. */
  ghost function IntervalSum(lo: int, hi: int): int
    decreases hi - lo
  {
    if hi <= lo then 0 else lo + IntervalSum(lo + 1, hi)
  }

  /** Peeling the first term off Gauss's formula. */
  lemma RangeSumStep(lo: int, hi: int)
    requires lo < hi
    ensures RangeSum(lo, hi) == lo + RangeSum(lo + 1, hi)
  {
    var s, n := lo + hi, hi - lo;
    RangeSumDoubled(lo, hi);
    if lo + 1 < hi {
      RangeSumDoubled(lo + 1, hi);
    }
    assert (s - 1) * n == s * n - n;
    assert s * (n - 1) == s * n - s;
  }

  /** Gauss's formula is exact: the product it halves is even. */
  lemma RangeSumDoubled(lo: int, hi: int)
    requires lo < hi
    ensures 2 * RangeSum(lo, hi) == (lo + hi - 1) * (hi - lo)
  {
    var n := hi - lo;
    if (lo + hi - 1) % 2 == 0 {
      var m := (lo + hi - 1) / 2;
      assert (lo + hi - 1) * n == 2 * (m * n);
    } else {
      var m := n / 2;
      assert n == 2 * m;
      assert (lo + hi - 1) * n == 2 * ((lo + hi - 1) * m);
    }
  }

  /** Gauss's formula is the sum. */
  lemma {:induction false} GaussFormula(lo: int, hi: int)
    ensures RangeSum(lo, hi) == IntervalSum(lo, hi)
    decreases hi - lo
  {
    if lo < hi {
      RangeSumStep(lo, hi);
      GaussFormula(lo + 1, hi);
    }
  }

  /** Every running total of the children of `es`, added to `acc`, is an
      `i64`. */
  ghost predicate PrefixesFit(acc: int, es: seq<Expr>, x: i64)
    requires AllDefined(es, x)
  {
    forall j | 0 < j <= |es| :: InRange(acc + Total(es[..j], x))
  }

  /** Every running total of `lo, lo + 1, ..., hi - 1`, added to `acc`, is
      an `i64`. */
  ghost predicate RangeFits(acc: int, lo: int, hi: int)
  {
    forall j | lo < j <= hi :: InRange(acc + IntervalSum(lo, j))
  }

  /** Where the running totals of `lo, ..., hi` bottom out: they fall while
      the terms are negative and rise afterwards. */
  function LowestEnd(lo: int, hi: int): int
  {
    if 0 <= lo then lo + 1 else if hi < 0 then hi + 1 else 0
  }

  /** The running totals of `lo, ..., hi` all fit in an `i64`, decided by
      the lowest one and the last one. */
  predicate SigmaFits(lo: int, hi: int)
  {
    MIN <= RangeSum(lo, LowestEnd(lo, hi)) && InRange(RangeSum(lo, hi + 1))
  }

  lemma {:induction false} IntervalSumSplit(lo: int, j: int, k: int)
    requires lo <= j <= k
    ensures IntervalSum(lo, k) == IntervalSum(lo, j) + IntervalSum(j, k)
    decreases j - lo
  {
    if lo < j {
      IntervalSumSplit(lo + 1, j, k);
    }
  }

  /** A range of negative terms sums to at most 0, one of non-negative
      terms to at least 0. */
  lemma {:induction false} IntervalSumSign(j: int, k: int)
    requires j <= k
    ensures k <= 0 ==> IntervalSum(j, k) <= 0
    ensures 0 <= j ==> 0 <= IntervalSum(j, k)
    decreases k - j
  {
    if j < k {
      IntervalSumSign(j + 1, k);
    }
  }

  /** The closed-form test agrees with "every running total fits". */
  lemma SigmaFitsMeaning(lo: int, hi: int)
    requires lo <= hi
    ensures SigmaFits(lo, hi) <==> RangeFits(0, lo, hi + 1)
  {
    var m := LowestEnd(lo, hi);
    assert lo < m <= hi + 1;
    GaussFormula(lo, m);
    GaussFormula(lo, hi + 1);
    IntervalSumSplit(lo, m, hi + 1);
    IntervalSumSign(m, hi + 1);
    if SigmaFits(lo, hi) {
      assert IntervalSum(lo, lo + 1) == lo;
      forall j | lo < j <= hi + 1 ensures InRange(0 + IntervalSum(lo, j)) {
        if j <= m {
          IntervalSumSplit(lo, j, m);
          IntervalSumSign(j, m);
          IntervalSumSplit(lo, lo + 1, j);
          IntervalSumSign(lo + 1, j);
        } else {
          IntervalSumSplit(lo, m, j);
          IntervalSumSign(m, j);
          IntervalSumSplit(lo, j, hi + 1);
          IntervalSumSign(j, hi + 1);
        }
      }
    }
    if RangeFits(0, lo, hi + 1) {
      assert InRange(0 + IntervalSum(lo, m));
      assert InRange(0 + IntervalSum(lo, hi + 1));
    }
  }

  lemma AllDefinedStep(es: seq<Expr>, x: i64)
    requires es != []
    ensures AllDefined(es, x) <==> Value(es[0], x).Some? && AllDefined(es[1..], x)
  {
    if Value(es[0], x).Some? && AllDefined(es[1..], x) {
      forall i | 0 <= i < |es| ensures Value(es[i], x).Some? {
        if i > 0 { assert es[i] == es[1..][i - 1]; }
      }
    }
  }

  lemma PrefixesFitStep(acc: int, es: seq<Expr>, x: i64)
    requires es != [] && AllDefined(es, x)
    ensures AllDefined(es[1..], x)
    ensures PrefixesFit(acc, es, x) <==>
              InRange(acc + Value(es[0], x).value) &&
              PrefixesFit(acc + Value(es[0], x).value, es[1..], x)
  {
    AllDefinedStep(es, x);
    var v := Value(es[0], x).value;
    forall j | 0 < j <= |es|
      ensures Total(es[..j], x) == v + Total(es[1..][..j - 1], x)
    {
      assert es[..j][0] == es[0] && es[..j][1..] == es[1..][..j - 1];
    }
    assert Total(es[..1], x) == v;
    if InRange(acc + v) && PrefixesFit(acc + v, es[1..], x) {
      forall j | 0 < j <= |es| ensures InRange(acc + Total(es[..j], x)) {
        if j > 1 { assert InRange(acc + v + Total(es[1..][..j - 1], x)); }
      }
    }
    if PrefixesFit(acc, es, x) {
      forall j | 0 < j <= |es[1..]| ensures InRange(acc + v + Total(es[1..][..j], x)) {
        assert InRange(acc + Total(es[..j + 1], x));
      }
    }
  }

  lemma RangeFitsStep(acc: int, lo: int, hi: int)
    requires lo < hi
    ensures RangeFits(acc, lo, hi) <==> InRange(acc + lo) && RangeFits(acc + lo, lo + 1, hi)
  {
    assert IntervalSum(lo, lo + 1) == lo;
    if InRange(acc + lo) && RangeFits(acc + lo, lo + 1, hi) {
      forall j | lo < j <= hi ensures InRange(acc + IntervalSum(lo, j)) {
        if j > lo + 1 { assert InRange(acc + lo + IntervalSum(lo + 1, j)); }
      }
    }
    if RangeFits(acc, lo, hi) {
      assert InRange(acc + IntervalSum(lo, lo + 1));
      var next := lo + 1;
      forall j | next < j <= hi ensures InRange(acc + lo + IntervalSum(next, j)) {
        assert InRange(acc + IntervalSum(lo, j));
      }
      assert RangeFits(acc + lo, lo + 1, hi);
    }
  }

  /** A checked sum of children succeeds exactly when every child has a
      value and no running total leaves the `i64` range; it then yields the
      exact total. */
  lemma {:induction false} SumFromMeaning(acc: i64, es: seq<Expr>, x: i64)
    ensures SumFrom(acc, es, x).Some? <==> AllDefined(es, x) && PrefixesFit(acc, es, x)
    ensures SumFrom(acc, es, x).Some? ==> SumFrom(acc, es, x).value == acc + Total(es, x)
    decreases es
  {
    if es != [] {
      AllDefinedStep(es, x);
      var v := Value(es[0], x);
      if v.Some? && InRange(acc + v.value) {
        SumFromMeaning(acc + v.value, es[1..], x);
        if AllDefined(es, x) {
          PrefixesFitStep(acc, es, x);
        }
      } else if v.Some? && AllDefined(es, x) {
        PrefixesFitStep(acc, es, x);
      }
    }
  }

  // ---------------------------------------------------------------------
  // What each form evaluates to
  // ---------------------------------------------------------------------

  /** `Const` and `Var`, and the four checked binary operators: `None`
      when an operand has no value or the exact result is not an `i64`;
      division also fails on a zero divisor, and otherwise truncates. */
  lemma OperatorMeaning(l: Expr, r: Expr, k: i64, x: i64)
    ensures Value(Const(k), x) == Some(k) && Value(Var, x) == Some(x)
    ensures var a, b := Value(l, x), Value(r, x);
            && (a.None? || b.None? ==>
                  Value(Add(l, r), x).None? && Value(Sub(l, r), x).None? &&
                  Value(Mul(l, r), x).None? && Value(Div(l, r), x).None?)
            && (a.Some? && b.Some? ==>
                  && Value(Add(l, r), x) == (if InRange(a.value + b.value) then Some(a.value + b.value) else None)
                  && Value(Sub(l, r), x) == (if InRange(a.value - b.value) then Some(a.value - b.value) else None)
                  && Value(Mul(l, r), x) == (if InRange(a.value * b.value) then Some(a.value * b.value) else None)
                  && (Value(Div(l, r), x).None? <==> b.value == 0 || (a.value == MIN && b.value == -1))
                  && (Value(Div(l, r), x).Some? ==> Value(Div(l, r), x).value == TruncDiv(a.value, b.value)))
  {
    var a, b := Value(l, x), Value(r, x);
    if a.Some? && b.Some? {
      AddSubMulArms(l, r, x, a.value, b.value);
      DivArm(l, r, x, a.value, b.value);
    }
  }

  /** The `Add`, `Sub` and `Mul` arms once both operands are known. */
  lemma AddSubMulArms(l: Expr, r: Expr, x: i64, u: i64, v: i64)
    requires Value(l, x) == Some(u) && Value(r, x) == Some(v)
    ensures Value(Add(l, r), x) == (if InRange(u + v) then Some(u + v) else None)
    ensures Value(Sub(l, r), x) == (if InRange(u - v) then Some(u - v) else None)
    ensures Value(Mul(l, r), x) == (if InRange(u * v) then Some(u * v) else None)
  {
  }

  /** The `Div` arm once both operands are known. */
  lemma DivArm(l: Expr, r: Expr, x: i64, u: i64, v: i64)
    requires Value(l, x) == Some(u) && Value(r, x) == Some(v)
    ensures Value(Div(l, r), x).None? <==> v == 0 || (u == MIN && v == -1)
    ensures Value(Div(l, r), x).Some? ==> Value(Div(l, r), x).value == TruncDiv(u, v)
  {
    CheckedDivFails(u, v);
  }

  /** `Summation`: the empty sum is 0; otherwise the checked left-to-right
      sum of the children, `None` on a missing child value or on an
      intermediate overflow. */
  lemma SummationMeaning(es: seq<Expr>, x: i64)
    ensures Value(Summation([]), x) == Some(0)
    ensures Value(Summation(es), x).Some? <==> AllDefined(es, x) && PrefixesFit(0, es, x)
    ensures Value(Summation(es), x).Some? ==> Value(Summation(es), x).value == Total(es, x)
  {
    SumFromMeaning(0, es, x);
  }

  /** The written-out arithmetic of the `Sigma` arm is `SigmaFits` and
      `RangeSum`. */
  lemma SigmaArm(a: Expr, b: Expr, x: i64, lo: i64, hi: i64)
    requires Value(a, x) == Some(lo) && Value(b, x) == Some(hi)
    requires lo <= hi < MAX
    ensures Value(Sigma(a, b), x) == if SigmaFits(lo, hi) then Some(RangeSum(lo, hi + 1)) else None
  {
    SigmaUnfold(a, b, x, lo, hi);
    SigmaClosedForms(lo, hi);
  }

  /** The `Sigma` arm of `Value` once both endpoints are known. */
  lemma SigmaUnfold(a: Expr, b: Expr, x: i64, l: i64, h: i64)
    requires Value(a, x) == Some(l) && Value(b, x) == Some(h)
    requires l <= h < MAX
    ensures var m: int := if 0 <= l then l + 1 else if h < 0 then h + 1 else 0;
            var lowest: int, total: int := (l + m - 1) * (m - l) / 2, (l + h) * (h - l + 1) / 2;
            Value(Sigma(a, b), x) == if MIN <= lowest && MIN <= total <= MAX then Some(total) else None
  {
  }

  /** The closed forms the `Sigma` arm writes out are `SigmaFits` and
      `RangeSum`. */
  lemma SigmaClosedForms(l: int, h: int)
    requires l <= h
    ensures var m := if 0 <= l then l + 1 else if h < 0 then h + 1 else 0;
            var lowest, total := (l + m - 1) * (m - l) / 2, (l + h) * (h - l + 1) / 2;
            && (SigmaFits(l, h) <==> MIN <= lowest && MIN <= total <= MAX)
            && RangeSum(l, h + 1) == total
  {
    var m := if 0 <= l then l + 1 else if h < 0 then h + 1 else 0;
    assert LowestEnd(l, h) == m && l < m;
    assert RangeSum(l, m) == (l + m - 1) * (m - l) / 2;
    assert l + (h + 1) - 1 == l + h && (h + 1) - l == h - l + 1;
  }

  /** With both endpoints defined and `to < i64::MAX`, `Sigma(from, to)`
      is the `Summation` of the constants `from, ..., to` that the loop of
      `eval` collects. */
  lemma SigmaIsSummation(a: Expr, b: Expr, x: i64)
    requires Value(a, x).Some? && Value(b, x).Some? && Value(b, x).value < MAX
    ensures var lo, hi := Value(a, x).value, Value(b, x).value;
            Value(Sigma(a, b), x) ==
              Value(Summation(ConstRange(lo, if hi < lo then lo else hi + 1)), x)
  {
    var lo, hi := Value(a, x).value, Value(b, x).value;
    var end := if hi < lo then lo else hi + 1;
    SumConstRange(0, lo, end, x);
    if lo <= hi {
      SigmaArm(a, b, x, lo, hi);
      SigmaFitsMeaning(lo, hi);
      GaussFormula(lo, hi + 1);
    }
  }

  /** `Sigma(from, to)`: the sum of the integers from `from` to `to`
      inclusive (0 when `to < from`); `None` when an endpoint has no value,
      when a running total overflows, or when the counter would have to
      step past `to == i64::MAX`. */
  lemma SigmaMeaning(a: Expr, b: Expr, x: i64)
    ensures Value(a, x).None? || Value(b, x).None? ==> Value(Sigma(a, b), x).None?
    ensures Value(a, x).Some? && Value(b, x).Some? && Value(b, x).value < Value(a, x).value ==>
              Value(Sigma(a, b), x) == Some(0)
    ensures Value(a, x).Some? && Value(b, x).Some? && Value(a, x).value <= Value(b, x).value ==>
              var lo, hi := Value(a, x).value, Value(b, x).value;
              && (Value(Sigma(a, b), x).Some? <==>
                    hi < MAX && RangeFits(0, lo, hi + 1))
              && (Value(Sigma(a, b), x).Some? ==>
                    && Value(Sigma(a, b), x).value == IntervalSum(lo, hi + 1)
                    && 2 * Value(Sigma(a, b), x).value == (lo + hi) * (hi - lo + 1))
  {
    var va, vb := Value(a, x), Value(b, x);
    if va.Some? && vb.Some? && va.value <= vb.value {
      SigmaInRange(a, b, x, va.value, vb.value);
    }
  }

  /** The third case of `SigmaMeaning`, with the endpoints named. */
  lemma SigmaInRange(a: Expr, b: Expr, x: i64, lo: i64, hi: i64)
    requires Value(a, x) == Some(lo) && Value(b, x) == Some(hi) && lo <= hi
    ensures Value(Sigma(a, b), x).Some? <==> hi < MAX && RangeFits(0, lo, hi + 1)
    ensures Value(Sigma(a, b), x).Some? ==>
              && Value(Sigma(a, b), x).value == IntervalSum(lo, hi + 1)
              && 2 * Value(Sigma(a, b), x).value == (lo + hi) * (hi - lo + 1)
  {
    if hi < MAX {
      SigmaArm(a, b, x, lo, hi);
      SigmaFitsMeaning(lo, hi);
      InclusiveRangeSum(lo, hi);
    }
  }

  /** Gauss's formula for `lo + ... + hi`, both ends included. */
  lemma InclusiveRangeSum(lo: int, hi: int)
    requires lo <= hi
    ensures RangeSum(lo, hi + 1) == IntervalSum(lo, hi + 1)
    ensures 2 * RangeSum(lo, hi + 1) == (lo + hi) * (hi - lo + 1)
  {
    GaussFormula(lo, hi + 1);
    RangeSumDoubled(lo, hi + 1);
    assert (lo + (hi + 1) - 1) * ((hi + 1) - lo) == (lo + hi) * (hi - lo + 1);
  }

  /** The values the source's unit test expects with `Var = 42`: the
      leaves and the binary operators. */
  lemma ExpectedOperatorValues(x: i64)
    requires x == 42
    ensures Value(Const(5), x) == Some(5)
    ensures Value(Var, x) == Some(42)
    ensures Value(Sub(Var, Const(5)), x) == Some(37)
    ensures Value(Sub(Var, Var), x) == Some(0)
    ensures Value(Add(Sub(Var, Const(5)), Const(5)), x) == Some(42)
    ensures Value(Mul(Var, Const(10)), x) == Some(420)
    ensures Value(Div(Var, Const(0)), x) == None
    ensures Value(Div(Const(84), Var), x) == Some(2)
  {
  }

  /** The source's unit test: `Summation([Var, 1])` is 43 with `Var = 42`. */
  lemma ExpectedSummationValue(x: i64)
    requires x == 42
    ensures Value(Summation([Var, Const(1)]), x) == Some(43)
  {
    assert [Var, Const(1)][1..] == [Const(1)];
  }

  /** The source's unit test: `Sigma(1, 5)` is 15. */
  lemma ExpectedSigmaValue(x: i64)
    ensures Value(Sigma(Const(1), Const(5)), x) == Some(15)
  {
    assert RangeSum(1, 6) == 15;
  }

  // ---------------------------------------------------------------------
  // The evaluator
  // ---------------------------------------------------------------------

  function Max(a: nat, b: nat): nat { if a < b then b else a }

  /** Nesting depth, the termination measure of `Eval`: `Sigma` counts for
      two levels because it evaluates a `Summation` of constants. */
  function Height(e: Expr): nat
    decreases e
  {
    match e
    case Const(_) => 0
    case Var => 0
    case Add(l, r) => 1 + Max(Height(l), Height(r))
    case Sub(l, r) => 1 + Max(Height(l), Height(r))
    case Mul(l, r) => 1 + Max(Height(l), Height(r))
    case Div(l, r) => 1 + Max(Height(l), Height(r))
    case Summation(es) => 1 + MaxHeight(es)
    case Sigma(a, b) => 2 + Max(Height(a), Height(b))
  }

  function MaxHeight(es: seq<Expr>): nat
    decreases es
  {
    if es == [] then 0 else Max(Height(es[0]), MaxHeight(es[1..]))
  }

  lemma {:induction false} MaxHeightBounds(es: seq<Expr>, i: nat)
    requires i < |es|
    ensures Height(es[i]) <= MaxHeight(es)
  {
    if i > 0 {
      MaxHeightBounds(es[1..], i - 1);
    }
  }

  /** `[Const(lo), Const(lo + 1), ..., Const(hi - 1)]`, what the `Sigma`
      arm's loop pushes. */
  function ConstRange(lo: int, hi: int): seq<Expr>
    requires MIN <= lo && hi <= MAX + 1
    decreases hi - lo
  {
    if hi <= lo then [] else [Const(lo)] + ConstRange(lo + 1, hi)
  }

  lemma {:induction false} ConstRangeSnoc(lo: int, hi: int)
    requires MIN <= lo <= hi <= MAX
    ensures ConstRange(lo, hi + 1) == ConstRange(lo, hi) + [Const(hi)]
    decreases hi - lo
  {
    if lo < hi {
      ConstRangeSnoc(lo + 1, hi);
    }
  }

  lemma {:induction false} ConstRangeHeight(lo: int, hi: int)
    requires MIN <= lo && hi <= MAX + 1
    ensures MaxHeight(ConstRange(lo, hi)) == 0
    decreases hi - lo
  {
    if lo < hi {
      ConstRangeHeight(lo + 1, hi);
      assert ConstRange(lo, hi)[1..] == ConstRange(lo + 1, hi);
    }
  }

  /** Summing the pushed constants is summing the range: the checked sum
      succeeds exactly when every running total fits, and then it is exact. */
  lemma {:induction false} SumConstRange(acc: i64, lo: int, hi: int, x: i64)
    requires MIN <= lo <= hi <= MAX + 1
    ensures SumFrom(acc, ConstRange(lo, hi), x).Some? <==> RangeFits(acc, lo, hi)
    ensures SumFrom(acc, ConstRange(lo, hi), x).Some? ==>
              SumFrom(acc, ConstRange(lo, hi), x).value == acc + IntervalSum(lo, hi)
    decreases hi - lo
  {
    if lo < hi {
      var cs := ConstRange(lo, hi);
      assert cs[0] == Const(lo) && cs[1..] == ConstRange(lo + 1, hi);
      RangeFitsStep(acc, lo, hi);
      if InRange(acc + lo) {
        SumConstRange(acc + lo, lo + 1, hi, x);
      }
    }
  }

  /** `eval(expr, var)`. */
  method Eval(e: Expr, x: i64) returns (r: Option<i64>)
    ensures r == Value(e, x)
    decreases Height(e), 1
  {
    match e
    case Const(k) =>
      r := Some(k);
    case Var =>
      r := Some(x);
    case Add(lhs, rhs) =>
      var a := Eval(lhs, x);
      if a.None? { return None; }
      var b := Eval(rhs, x);
      if b.None? { return None; }
      r := CheckedAdd(a.value, b.value);
    case Sub(lhs, rhs) =>
      var a := Eval(lhs, x);
      if a.None? { return None; }
      var b := Eval(rhs, x);
      if b.None? { return None; }
      r := CheckedSub(a.value, b.value);
    case Mul(lhs, rhs) =>
      var a := Eval(lhs, x);
      if a.None? { return None; }
      var b := Eval(rhs, x);
      if b.None? { return None; }
      r := CheckedMul(a.value, b.value);
    case Div(lhs, rhs) =>
      var a := Eval(lhs, x);
      if a.None? { return None; }
      var b := Eval(rhs, x);
      if b.None? { return None; }
      r := CheckedDiv(a.value, b.value);
    case Summation(es) =>
      r := EvalSummation(es, x);
    case Sigma(from, to) =>
      r := EvalSigma(from, to, x);
  }

  /** The `Summation` arm of `eval`: a checked running sum of the
      children, returning `None` as soon as a child has no value or the sum
      overflows. */
  method EvalSummation(es: seq<Expr>, x: i64) returns (r: Option<i64>)
    ensures r == Value(Summation(es), x)
    decreases Height(Summation(es)), 0
  {
    var acc: i64 := 0;
    var i := 0;
    while i < |es|
      invariant 0 <= i <= |es|
      invariant SumFrom(acc, es[i..], x) == Value(Summation(es), x)
    {
      assert es[i..][0] == es[i] && es[i..][1..] == es[i + 1..];
      MaxHeightBounds(es, i);
      var v := Eval(es[i], x);
      if v.None? { return None; }
      var s := CheckedAdd(acc, v.value);
      if s.None? { return None; }
      acc := s.value;
      i := i + 1;
    }
    r := Some(acc);
  }

  /** The `Sigma` arm of `eval`: it collects `Const(from), ..., Const(to)`,
      failing if the counter has to step past `i64::MAX`, and evaluates
      their `Summation`. */
  method EvalSigma(from: Expr, to: Expr, x: i64) returns (r: Option<i64>)
    ensures r == Value(Sigma(from, to), x)
    decreases Height(Sigma(from, to)), 0
  {
    var lo := Eval(from, x);
    if lo.None? { return None; }
    var hi := Eval(to, x);
    if hi.None? { return None; }
    var exprs: seq<Expr> := [];
    var val: i64 := lo.value;
    while val <= hi.value
      invariant val == lo.value || lo.value < val <= hi.value + 1
      invariant exprs == ConstRange(lo.value, val)
      decreases hi.value - val
    {
      ConstRangeSnoc(lo.value, val);
      exprs := exprs + [Const(val)];
      var next := CheckedAdd(val, 1);
      if next.None? { return None; }
      val := next.value;
    }
    ConstRangeHeight(lo.value, val);
    SigmaIsSummation(from, to, x);
    r := EvalSummation(exprs, x);
  }
}
