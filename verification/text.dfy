/**
 * String helpers shared by the schedule table, the picture managers and the clock display:
 * ASCII case folding (the model of `StringComparison.OrdinalIgnoreCase`), decimal digits,
 * `String.Split` on one separator, and `int.TryParse` restricted to an optional sign and digits.
 */
module Text {
  import opened Wrappers

  const Int32Min: int := -0x8000_0000
  const Int32Max: int := 0x7FFF_FFFF

  // ---------------------------------------------------------------------------
  // Case folding
  // ---------------------------------------------------------------------------

  function FoldChar(c: char): (d: char)
    ensures 'A' <= c <= 'Z' ==> d as int == c as int + 32
    ensures !('A' <= c <= 'Z') ==> d == c
  {
    if 'A' <= c <= 'Z' then (c as int + 32) as char else c
  }

  /** The key under which an ordinal-ignore-case dictionary files `s`. */
  function Fold(s: string): (f: string)
    ensures |f| == |s|
    ensures forall i :: 0 <= i < |s| ==> f[i] == FoldChar(s[i])
  {
    seq(|s|, i requires 0 <= i < |s| => FoldChar(s[i]))
  }

  /**
   * `string.Equals(a, b, StringComparison.OrdinalIgnoreCase)` for non-null strings: equal strings
   * match, matching strings have the same length, and two strings differing only in the case of
   * one ASCII letter match.
   */
  predicate EqualsIgnoreCase(a: string, b: string): (r: bool)
    ensures a == b ==> r
    ensures r ==> |a| == |b|
    ensures r ==> forall i :: 0 <= i < |a| ==> FoldChar(a[i]) == FoldChar(b[i])
  {
    Fold(a) == Fold(b)
  }

  /** The same comparison when either side may be null (`None`): null equals only null. */
  predicate EqualsIgnoreCaseOpt(a: Option<string>, b: Option<string>) {
    match (a, b)
    case (Some(x), Some(y)) => EqualsIgnoreCase(x, y)
    case (None, None) => true
    case _ => false
  }

  // ---------------------------------------------------------------------------
  // Decimal digits
  // ---------------------------------------------------------------------------

  predicate IsDigit(c: char) { '0' <= c <= '9' }

  predicate AllDigits(s: string) {
    forall i :: 0 <= i < |s| ==> IsDigit(s[i])
  }

  function DigitChar(d: nat): (c: char)
    requires d < 10
    ensures IsDigit(c)
    ensures c as int - '0' as int == d
  {
    ('0' as int + d) as char
  }

  /** The value of a string of decimal digits, most significant first. */
  function DigitsValue(s: string): nat
    requires AllDigits(s)
  {
    if |s| == 0 then 0
    else DigitsValue(s[..|s| - 1]) * 10 + (s[|s| - 1] as int - '0' as int)
  }

  /** The shortest decimal rendering of `n`. */
  function NatToString(n: nat): (s: string)
    ensures |s| >= 1
    ensures AllDigits(s)
    ensures ':' !in s
    decreases n
  {
    if n < 10 then [DigitChar(n)] else NatToString(n / 10) + [DigitChar(n % 10)]
  }

  lemma {:induction false} NatToStringRoundTrip(n: nat)
    ensures DigitsValue(NatToString(n)) == n
    decreases n
  {
    var s := NatToString(n);
    if n >= 10 {
      NatToStringRoundTrip(n / 10);
      assert s[..|s| - 1] == NatToString(n / 10);
    }
  }

  lemma NatToStringLength(n: nat)
    ensures n < 10 <==> |NatToString(n)| == 1
  {
  }

  // ---------------------------------------------------------------------------
  // int.TryParse (optional sign, then one or more digits, 32-bit range)
  // ---------------------------------------------------------------------------

  /**
   * Parses an optionally signed decimal integer; fails on anything else and on values
   * outside the 32-bit range, as `int.TryParse` does.
   */
  function ParseInt32(s: string): (r: Option<int>)
    ensures r.Some? ==> Int32Min <= r.value <= Int32Max
    // only an optional sign followed by one digit or more is ever accepted
    ensures r.Some? ==> (|s| >= 1 && AllDigits(s)) || (|s| >= 2 && s[0] in "+-" && AllDigits(s[1..]))
    // unsigned and '+' forms: accepted exactly when the value fits
    ensures |s| >= 1 && AllDigits(s) ==> r == if DigitsValue(s) <= Int32Max then Some(DigitsValue(s)) else None
    ensures |s| >= 2 && s[0] == '+' && AllDigits(s[1..]) ==>
              r == if DigitsValue(s[1..]) <= Int32Max then Some(DigitsValue(s[1..])) else None
    // '-' form: accepted down to Int32Min, with the negated value
    ensures |s| >= 2 && s[0] == '-' && AllDigits(s[1..]) ==>
              r == if DigitsValue(s[1..]) <= -Int32Min then Some(0 - DigitsValue(s[1..])) else None
  {
    var neg := |s| > 0 && s[0] == '-';
    var signed := |s| > 0 && (s[0] == '-' || s[0] == '+');
    var digits := if signed then s[1..] else s;
    if |digits| == 0 || !AllDigits(digits) then None
    else
      var v: int := if neg then 0 - DigitsValue(digits) as int else DigitsValue(digits);
      if Int32Min <= v <= Int32Max then Some(v) else None
  }

  // ---------------------------------------------------------------------------
  // String.Split(sep)
  // ---------------------------------------------------------------------------

  /** The pieces of `s` between occurrences of `sep`; there is always one more piece than separators. */
  function Split(s: string, sep: char): (parts: seq<string>)
    ensures |parts| >= 1
    ensures forall i :: 0 <= i < |parts| ==> sep !in parts[i]
    decreases |s|
  {
    if sep !in s then [s]
    else
      var k := IndexOf(s, sep);
      [s[..k]] + Split(s[k + 1..], sep)
  }

  /** Position of the first occurrence of `c` in `s`. */
  function IndexOf(s: string, c: char): (k: nat)
    requires c in s
    ensures k < |s| && s[k] == c
    ensures c !in s[..k]
  {
    if s[0] == c then 0 else 1 + IndexOf(s[1..], c)
  }

  /** Joining the pieces back with the separator gives the original string. */
  function Join(parts: seq<string>, sep: char): string
    requires |parts| >= 1
  {
    if |parts| == 1 then parts[0] else parts[0] + [sep] + Join(parts[1..], sep)
  }

  lemma {:induction false} SplitJoin(s: string, sep: char)
    ensures Join(Split(s, sep), sep) == s
    decreases |s|
  {
    if sep in s {
      var k := IndexOf(s, sep);
      var rest := s[k + 1..];
      var parts := [s[..k]] + Split(rest, sep);
      assert Split(s, sep) == parts;
      assert parts[1..] == Split(rest, sep);
      SplitJoin(rest, sep);
      assert Join(parts, sep) == s[..k] + [sep] + rest;
      assert s == s[..k] + [sep] + rest;
    }
  }

  /** A string with exactly one separator splits into the text before it and the text after it. */
  lemma SplitOne(a: string, b: string, sep: char)
    requires sep !in a && sep !in b
    ensures Split(a + [sep] + b, sep) == [a, b]
  {
    var s := a + [sep] + b;
    assert s[|a|] == sep;
    var k := IndexOf(s, sep);
    assert k == |a|;
    assert s[..k] == a;
    assert s[k + 1..] == b;
  }

  /** A string with two separators or more splits into at least three pieces. */
  lemma SplitMany(a: string, b: string, c: string, sep: char)
    requires sep !in a
    ensures |Split(a + [sep] + b + [sep] + c, sep)| >= 3
  {
    var s := a + [sep] + b + [sep] + c;
    var k := IndexOf(s, sep);
    assert s[|a|] == sep;
    assert k == |a|;
    var rest := s[k + 1..];
    assert rest == b + [sep] + c;
    assert rest[|b|] == sep;
    assert sep in rest;
    assert |Split(rest, sep)| >= 2;
  }
}
