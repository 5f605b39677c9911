/** The `fizzbuzz` exercise: `fizz_buzz(i)` names multiples of 3 "Fizz",
    multiples of 5 "Buzz", multiples of both "FizzBuzz", and spells every
    other number in decimal; its unit test compares line `k` of an expected
    output with `fizz_buzz(k)`, counting from 1. */
module FizzBuzzGame {

  /** Rust's `u32`. */
  type u32 = x: int | 0 <= x < 0x1_0000_0000

  predicate IsDigit(c: char)
  {
    '0' <= c <= '9'
  }

  predicate AllDigits(s: string)
  {
    forall i | 0 <= i < |s| :: IsDigit(s[i])
  }

  function DigitChar(d: nat): (c: char)
    requires d < 10
    ensures IsDigit(c) && c as int - '0' as int == d
  {
    ('0' as int + d) as char
  }

  /** `to_string` on an unsigned integer: its decimal digits, most
      significant first. */
  function DecimalString(n: nat): (s: string)
    ensures |s| > 0 && AllDigits(s)
    decreases n
  {
    if n < 10 then [DigitChar(n)] else DecimalString(n / 10) + [DigitChar(n % 10)]
  }

  /** The number a string of decimal digits denotes. */
  function DecimalValue(s: string): nat
    requires AllDigits(s)
    decreases |s|
  {
    if s == [] then 0
    else 10 * DecimalValue(s[..|s| - 1]) + (s[|s| - 1] as int - '0' as int)
  }

  /** The decimal spelling has no leading zero except for 0 itself, and it
      reads back as the number. */
  lemma {:induction false} DecimalRoundTrip(n: nat)
    ensures DecimalString(n)[0] == '0' <==> n == 0
    ensures DecimalValue(DecimalString(n)) == n
    decreases n
  {
    var s := DecimalString(n);
    if n >= 10 {
      DecimalRoundTrip(n / 10);
      var t := DecimalString(n / 10);
      assert s == t + [DigitChar(n % 10)];
      assert s[..|s| - 1] == t;
      assert s[0] == t[0];
    }
  }

  /** `fizz_buzz`. The source returns a leaked `&'static str` for the
      number case; here it is simply a string. */
  function FizzBuzz(i: u32): (r: string)
    ensures |r| > 0
    ensures AllDigits(r) <==> i % 3 != 0 && i % 5 != 0
  {
    match (i % 3 == 0, i % 5 == 0)
    case (true, true) => assert !IsDigit("FizzBuzz"[0]); "FizzBuzz"
    case (true, false) => assert !IsDigit("Fizz"[0]); "Fizz"
    case (false, true) => assert !IsDigit("Buzz"[0]); "Buzz"
    case (false, false) => DecimalString(i)
  }

  /** Exactly one of the four answers applies to each number, each under
      its own divisibility condition. */
  lemma FizzBuzzCases(i: u32)
    ensures FizzBuzz(i) == "FizzBuzz" <==> i % 3 == 0 && i % 5 == 0
    ensures FizzBuzz(i) == "Fizz" <==> i % 3 == 0 && i % 5 != 0
    ensures FizzBuzz(i) == "Buzz" <==> i % 3 != 0 && i % 5 == 0
    ensures AllDigits(FizzBuzz(i)) <==> i % 3 != 0 && i % 5 != 0
    ensures AllDigits(FizzBuzz(i)) ==> FizzBuzz(i)[0] != '0' && DecimalValue(FizzBuzz(i)) == i
  {
    DecimalRoundTrip(i);
    var s := FizzBuzz(i);
    if i % 3 != 0 && i % 5 != 0 {
      assert IsDigit(s[0]);
      assert s != "FizzBuzz" && s != "Fizz" && s != "Buzz";
    } else {
      assert !IsDigit(s[0]);
    }
  }

  /** The first fifteen answers. */
  lemma FirstAnswers()
    ensures FizzBuzz(1) == "1" && FizzBuzz(2) == "2" && FizzBuzz(3) == "Fizz"
    ensures FizzBuzz(5) == "Buzz" && FizzBuzz(14) == "14" && FizzBuzz(15) == "FizzBuzz"
  {
  }

  /** `char::is_whitespace`: the characters with Unicode's White_Space
      property. */
  predicate IsWhitespace(c: char)
  {
    || '\t' <= c <= '\r' || c == ' ' || c == '\U{0085}' || c == '\U{00A0}'
    || c == '\U{1680}' || '\U{2000}' <= c <= '\U{200A}' || c == '\U{2028}'
    || c == '\U{2029}' || c == '\U{202F}' || c == '\U{205F}' || c == '\U{3000}'
  }

  function TrimStart(s: string): string
    decreases |s|
  {
    if s != [] && IsWhitespace(s[0]) then TrimStart(s[1..]) else s
  }

  function TrimEnd(s: string): string
    decreases |s|
  {
    if s != [] && IsWhitespace(s[|s| - 1]) then TrimEnd(s[..|s| - 1]) else s
  }

  /** `str::trim`: `s` without its leading and trailing whitespace. The
      result is no longer than `s` and neither starts nor ends with
      whitespace. */
  function Trim(s: string): (r: string)
    ensures |r| <= |s|
    ensures r == [] || (!IsWhitespace(r[0]) && !IsWhitespace(r[|r| - 1]))
  {
    var t := TrimStart(s);
    TrimStartMeaning(s);
    TrimEndMeaning(t);
    var r := TrimEnd(t);
    assert r == [] || r[0] == t[0];
    r
  }

  /** `TrimStart` cuts a prefix of whitespace, and what remains does not
      start with whitespace. */
  lemma {:induction false} TrimStartMeaning(s: string)
    ensures |TrimStart(s)| <= |s| && TrimStart(s) == s[|s| - |TrimStart(s)|..]
    ensures forall j | 0 <= j < |s| - |TrimStart(s)| :: IsWhitespace(s[j])
    ensures TrimStart(s) == [] || !IsWhitespace(TrimStart(s)[0])
    decreases |s|
  {
    if s != [] && IsWhitespace(s[0]) {
      TrimStartMeaning(s[1..]);
      assert s[1..][|s[1..]| - |TrimStart(s[1..])|..] == s[|s| - |TrimStart(s)|..];
      forall j | 0 < j < |s| - |TrimStart(s)| ensures IsWhitespace(s[j]) {
        assert s[j] == s[1..][j - 1];
      }
    }
  }

  /** `TrimEnd` cuts a suffix of whitespace, and what remains does not end
      with whitespace. */
  lemma {:induction false} TrimEndMeaning(s: string)
    ensures |TrimEnd(s)| <= |s| && TrimEnd(s) == s[..|TrimEnd(s)|]
    ensures forall j | |TrimEnd(s)| <= j < |s| :: IsWhitespace(s[j])
    ensures TrimEnd(s) == [] || !IsWhitespace(TrimEnd(s)[|TrimEnd(s)| - 1])
    decreases |s|
  {
    if s != [] && IsWhitespace(s[|s| - 1]) {
      var t := s[..|s| - 1];
      TrimEndMeaning(t);
      assert t[..|TrimEnd(t)|] == s[..|TrimEnd(s)|];
      forall j | |TrimEnd(s)| <= j < |s| - 1 ensures IsWhitespace(s[j]) {
        assert s[j] == t[j];
      }
    }
  }

  /** Trimming only cuts whitespace off the ends: the result is a
      contiguous piece of `s` that neither starts nor ends with
      whitespace, and everything cut off is whitespace. */
  lemma TrimMeaning(s: string)
    ensures exists a, b | 0 <= a <= b <= |s| ::
              && Trim(s) == s[a..b]
              && (forall j | 0 <= j < a :: IsWhitespace(s[j]))
              && (forall j | b <= j < |s| :: IsWhitespace(s[j]))
    ensures Trim(s) == [] || (!IsWhitespace(Trim(s)[0]) && !IsWhitespace(Trim(s)[|Trim(s)| - 1]))
  {
    var a := |s| - |TrimStart(s)|;
    TrimPiece(s);
    assert Trim(s) == s[a..a + |Trim(s)|];
  }

  /** The piece `Trim` keeps starts where `TrimStart` starts. */
  lemma TrimPiece(s: string)
    ensures var a := |s| - |TrimStart(s)|;
            && 0 <= a <= a + |Trim(s)| <= |s|
            && Trim(s) == s[a..a + |Trim(s)|]
            && (forall j | 0 <= j < a :: IsWhitespace(s[j]))
            && (forall j | a + |Trim(s)| <= j < |s| :: IsWhitespace(s[j]))
  {
    var t := TrimStart(s);
    TrimStartMeaning(s);
    TrimEndMeaning(t);
    var a := |s| - |t|;
    assert Trim(s) == t[..|Trim(s)|] == s[a..a + |Trim(s)|];
    forall j | a + |Trim(s)| <= j < |s| ensures IsWhitespace(s[j]) {
      assert s[j] == t[j - a];
    }
  }

  /** The unit test `test_fizzbuzz`: line `k` (from 1) of the expected
      output, trimmed, must equal `fizz_buzz(k)`. `assert_eq!` panics on
      the first mismatch, and `index += 1` on a `u32` panics (in the test
      build) once `index` has reached `u32::MAX`; the test passes when
      neither happens. */
  method TestFizzBuzz(lines: seq<string>) returns (passed: bool)
    ensures passed <==>
              |lines| < 0xFFFF_FFFF && forall k | 0 <= k < |lines| :: Trim(lines[k]) == FizzBuzz(k + 1)
  {
    var index: u32 := 1;
    for k := 0 to |lines|
      invariant index == k + 1
      invariant forall j | 0 <= j < k :: Trim(lines[j]) == FizzBuzz(j + 1)
    {
      if FizzBuzz(index) != Trim(lines[k]) {
        return false;
      }
      if index == 0xFFFF_FFFF {
        return false;
      }
      index := index + 1;
    }
    passed := true;
  }
}
