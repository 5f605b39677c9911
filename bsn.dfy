/** The `bsn` exercise: the Dutch citizen service number (burgerservicenummer),
    a string of nine decimal digits whose weighted sum, with weights
    9, 8, 7, 6, 5, 4, 3, 2 and -1, is a multiple of 11.

    A `Bsn` can only be obtained through the check: `TryFromString` and the
    deserialiser's `VisitStr` both run `CheckBsnStr` before wrapping the
    string. */
module BsnNumber {
  import opened Wrappers

  /** `enum Error`. */
  datatype Error = InvalidBsn

  /** `struct Bsn { inner: String }`. The field is private, so the only
      values are those that `TryFromString` and `VisitStr` build, and both
      promise that `inner` passed `CheckBsnStr`. */
  datatype Bsn = Bsn(inner: string)

  /** The weights `[9, 8, 7, 6, 5, 4, 3, 2, -1]` of the checksum. */
  const Weights: seq<int> := [9, 8, 7, 6, 5, 4, 3, 2, -1]

  /** Number of bytes `c` takes in UTF-8. */
  function Utf8Width(c: char): nat
  {
    if c as int < 0x80 then 1
    else if c as int < 0x800 then 2
    else if c as int < 0x1_0000 then 3
    else 4
  }

  /** `str::len`, the length in UTF-8 bytes: from one to four bytes per
      character. */
  function Utf8Len(s: string): (n: nat)
    ensures |s| <= n <= 4 * |s|
  {
    if s == [] then 0 else Utf8Width(s[0]) + Utf8Len(s[1..])
  }

  /** A string is exactly as many bytes long as it has characters when, and
      only when, every character is ASCII. */
  lemma {:induction false} Utf8LenBounds(s: string)
    ensures (forall i | 0 <= i < |s| :: s[i] as int < 0x80) <==> Utf8Len(s) == |s|
  {
    if s != [] {
      Utf8LenBounds(s[1..]);
      if forall i | 0 <= i < |s| :: s[i] as int < 0x80 {
        forall i | 0 <= i < |s[1..]| ensures s[1..][i] as int < 0x80 {
          assert s[1..][i] == s[i + 1];
        }
      }
      if Utf8Len(s) == |s| {
        assert Utf8Width(s[0]) == 1 && Utf8Len(s[1..]) == |s[1..]|;
        forall i | 0 <= i < |s| ensures s[i] as int < 0x80 {
          if i > 0 { assert s[i] == s[1..][i - 1]; }
        }
      }
    }
  }

  /** `char::is_ascii_digit`. */
  predicate IsAsciiDigit(c: char)
  {
    '0' <= c <= '9'
  }

  predicate AllAsciiDigits(s: string)
  {
    forall i | 0 <= i < |s| :: IsAsciiDigit(s[i])
  }

  /** `char::to_digit(10)` on an ASCII digit. */
  function DigitValue(c: char): (d: int)
    requires IsAsciiDigit(c)
    ensures 0 <= d <= 9
  {
    c as int - '0' as int
  }

  /** `chars().map(|c| c.to_digit(10).unwrap())`. */
  function Digits(s: string): (d: seq<int>)
    requires AllAsciiDigits(s)
    ensures |d| == |s| && forall i | 0 <= i < |s| :: 0 <= d[i] <= 9
  {
    seq(|s|, i requires 0 <= i < |s| => DigitValue(s[i]))
  }

  /** The sum of the first `n` products `d[i] * w[i]`. */
  function ZipSum(d: seq<int>, w: seq<int>, n: nat): int
    requires n <= |d| && n <= |w|
  {
    if n == 0 then 0 else ZipSum(d, w, n - 1) + d[n - 1] * w[n - 1]
  }

  /** `.zip(weights).map(|(x, y)| x * y).sum()`: the zip stops at the
      shorter of the two. */
  function WeightedSum(d: seq<int>, w: seq<int>): int
  {
    ZipSum(d, w, if |d| < |w| then |d| else |w|)
  }

  /** `Bsn::check_bsn_str`. Rust's `%` truncates, but whether the
      remainder is zero does not depend on that. */
  predicate CheckBsnStr(s: string)
    ensures CheckBsnStr(s) ==> |s| == 9 && AllAsciiDigits(s)
  {
    Utf8LenBounds(s);
    assert AllAsciiDigits(s) ==> forall i | 0 <= i < |s| :: s[i] as int < 0x80;
    Utf8Len(s) == 9 && AllAsciiDigits(s) && WeightedSum(Digits(s), Weights) % 11 == 0
  }

  /** The weighted sum of nine digits, written out. */
  lemma WeightedSumOfNine(d: seq<int>)
    requires |d| == 9
    ensures WeightedSum(d, Weights) ==
              9 * d[0] + 8 * d[1] + 7 * d[2] + 6 * d[3] + 5 * d[4] + 4 * d[5] + 3 * d[6] + 2 * d[7] - d[8]
  {
    var w := Weights;
    assert w[0] == 9 && w[1] == 8 && w[2] == 7 && w[3] == 6 && w[4] == 5;
    assert w[5] == 4 && w[6] == 3 && w[7] == 2 && w[8] == -1;
    assert ZipSum(d, w, 1) == ZipSum(d, w, 0) + d[0] * w[0];
    assert ZipSum(d, w, 2) == ZipSum(d, w, 1) + d[1] * w[1];
    assert ZipSum(d, w, 3) == ZipSum(d, w, 2) + d[2] * w[2];
    assert ZipSum(d, w, 4) == ZipSum(d, w, 3) + d[3] * w[3];
    assert ZipSum(d, w, 5) == ZipSum(d, w, 4) + d[4] * w[4];
    assert ZipSum(d, w, 6) == ZipSum(d, w, 5) + d[5] * w[5];
    assert ZipSum(d, w, 7) == ZipSum(d, w, 6) + d[6] * w[6];
    assert ZipSum(d, w, 8) == ZipSum(d, w, 7) + d[7] * w[7];
    assert ZipSum(d, w, 9) == ZipSum(d, w, 8) + d[8] * w[8];
  }

  /** The check written out: exactly nine ASCII digits `d0 ... d8` with
      `9*d0 + 8*d1 + ... + 2*d7 - d8` a multiple of 11. */
  lemma CheckBsnStrMeaning(s: string)
    ensures CheckBsnStr(s) <==>
              && |s| == 9 && AllAsciiDigits(s)
              && (9 * DigitValue(s[0]) + 8 * DigitValue(s[1]) + 7 * DigitValue(s[2])
                  + 6 * DigitValue(s[3]) + 5 * DigitValue(s[4]) + 4 * DigitValue(s[5])
                  + 3 * DigitValue(s[6]) + 2 * DigitValue(s[7]) - DigitValue(s[8])) % 11 == 0
  {
    Utf8LenBounds(s);
    if AllAsciiDigits(s) {
      assert forall i | 0 <= i < |s| :: s[i] as int < 0x80;
      if |s| == 9 {
        WeightedSumOfNine(Digits(s));
      }
    }
  }

  /** `Bsn::try_from_string`. */
  function TryFromString(s: string): (r: Result<Bsn, Error>)
    ensures r.Ok? <==> CheckBsnStr(s)
    ensures r.Ok? ==> r.value.inner == s
    ensures r.Err? ==> r.error == InvalidBsn
  {
    if !CheckBsnStr(s) then Err(InvalidBsn) else Ok(Bsn(s))
  }

  /** `Bsn::validate`. */
  function Validate(s: string): (r: Result<(), Error>)
    ensures r.Ok? <==> CheckBsnStr(s)
    ensures r.Err? ==> r.error == InvalidBsn
  {
    if !CheckBsnStr(s) then Err(InvalidBsn) else Ok(())
  }

  /** `Serialize::serialize`: the stored string, unchanged. */
  function Serialize(b: Bsn): (s: string)
    ensures CheckBsnStr(b.inner) ==> CheckBsnStr(s)
  {
    b.inner
  }

  /** `BsnVisitor::visit_str`, the step of deserialisation that sees the
      string. */
  function VisitStr(s: string): (r: Result<Bsn, Error>)
    ensures r.Ok? <==> CheckBsnStr(s)
    ensures r.Ok? ==> r.value.inner == s
  {
    if !CheckBsnStr(s) then Err(InvalidBsn) else Ok(Bsn(s))
  }

  /** Deserialising accepts exactly what `try_from_string` accepts and
      builds the same value. */
  lemma VisitStrIsTryFromString(s: string)
    ensures VisitStr(s) == TryFromString(s)
  {
  }

  /** Deserialising a serialised `Bsn` gives back an equal `Bsn`. */
  lemma SerializeRoundTrip(b: Bsn)
    requires CheckBsnStr(b.inner)
    ensures VisitStr(Serialize(b)) == Ok(b)
  {
  }

  /** The BSN of the source's `test_serde` passes the check. */
  lemma AcceptedExample()
    ensures CheckBsnStr("999998456")
  {
    var s := "999998456";
    assert AllAsciiDigits(s) && forall i | 0 <= i < |s| :: s[i] as int < 0x80;
    Utf8LenBounds(s);
    var d := Digits(s);
    assert d[0] == 9 && d[1] == 9 && d[2] == 9 && d[3] == 9 && d[4] == 9;
    assert d[5] == 8 && d[6] == 4 && d[7] == 5 && d[8] == 6;
    WeightedSumOfNine(d);
    assert WeightedSum(d, Weights) == 363 == 11 * 33;
  }

  /** The source's `test_serde`: `"999998456"` serialises to itself and
      deserialises to the value `try_from_string` builds, while
      `"1112223333"`, ten digits, is refused. */
  lemma SerdeExamples()
    ensures TryFromString("999998456").Ok?
    ensures Serialize(TryFromString("999998456").value) == "999998456"
    ensures VisitStr("999998456") == TryFromString("999998456")
    ensures VisitStr("1112223333").Err?
  {
    AcceptedExample();
    CheckBsnStrMeaning("1112223333");
  }

  /** Nine digits with a bad checksum, and nine characters that are not
      all digits, are rejected. */
  lemma RejectedExamples()
    ensures Validate("999998457").Err?
    ensures Validate("12345678a").Err?
  {
    CheckBsnStrMeaning("999998457");
    CheckBsnStrMeaning("12345678a");
    assert !IsAsciiDigit("12345678a"[8]);
  }
}
