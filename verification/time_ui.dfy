/**
 * The status line of the clock display: a fractional hour becomes "hh:mm - state", with hour
 * and minute each zero-padded to two digits at least.
 */
module TimeUI {
  import opened Wrappers
  import Text
  import TimeIdTable

  /**
   * The whole hour and the whole minute shown for the fractional hour `t`:
   * the hour is floor(t) and the minute is the floor of the remaining fraction times 60.
   */
  function ClockParts(t: real): (hm: (int, int))
    ensures hm.0 == t.Floor
    ensures 0 <= hm.1 <= 59
    ensures hm.0 as real + hm.1 as real / 60.0 <= t < hm.0 as real + (hm.1 + 1) as real / 60.0
  {
    var h := t.Floor;
    var frac := t - h as real;
    assert 0.0 <= frac < 1.0;
    var m := (frac * 60.0).Floor;
    assert m as real <= frac * 60.0 < m as real + 1.0;
    assert m as real / 60.0 <= frac < (m + 1) as real / 60.0;
    (h, m)
  }

  /** The custom numeric format "00": at least two digits, a leading minus for negatives. */
  function Pad2(n: int): (s: string)
    ensures ':' !in s
    ensures n >= 0 ==> |s| >= 2 && Text.AllDigits(s)
    ensures n < 0 ==> s == "-" + PadNat(-n) && |s| >= 3
  {
    if n < 0 then "-" + PadNat(-n) else PadNat(n)
  }

  function PadNat(n: nat): (s: string)
    ensures |s| >= 2 && Text.AllDigits(s) && ':' !in s
  {
    if n < 10 then ['0', Text.DigitChar(n)]
    else
      Text.NatToStringLength(n);
      Text.NatToString(n)
  }

  /** The digits of a padded number read back as its value. */
  lemma PadNatValue(n: nat)
    ensures Text.DigitsValue(PadNat(n)) == n
  {
    var s := PadNat(n);
    if n < 10 {
      assert s[..|s| - 1] == ['0'];
      assert ['0'][..0] == [];
    } else {
      Text.NatToStringRoundTrip(n);
    }
  }

  /** A padded 32-bit number, negative ones included, parses back to itself. */
  lemma Pad2Parses(n: int)
    requires Text.Int32Min <= n <= Text.Int32Max
    ensures Text.ParseInt32(Pad2(n)) == Some(n)
  {
    var s := Pad2(n);
    if n < 0 {
      PadNatValue(-n);
      assert s[1..] == PadNat(-n);
      assert s[0] == '-' && Text.AllDigits(s[1..]);
    } else {
      PadNatValue(n);
      assert |s| >= 1 && Text.AllDigits(s);
    }
  }

  /** "hh:mm" for the fractional hour `t`: exactly one colon, between the padded hour and minute. */
  function ClockText(t: real): (s: string)
    ensures |s| >= 5
    ensures Text.Split(s, ':') == [Pad2(t.Floor), Pad2(ClockParts(t).1)]
  {
    var hm := ClockParts(t);
    Text.SplitOne(Pad2(hm.0), Pad2(hm.1), ':');
    assert Pad2(hm.0) + ":" + Pad2(hm.1) == Pad2(hm.0) + [':'] + Pad2(hm.1);
    Pad2(hm.0) + ":" + Pad2(hm.1)
  }

  /** The text shown by the clock display for hour `t` and state name `state`. */
  function UpdateUI(t: real, state: string): (text: string)
    ensures |text| == |ClockText(t)| + 3 + |state| >= 8 + |state|
    ensures text[..|ClockText(t)|] == ClockText(t)
    ensures text[|ClockText(t)|..|ClockText(t)| + 3] == " - "
    ensures text[|text| - |state|..] == state
  {
    ClockText(t) + " - " + state
  }

  /**
   * For any hour whose floor is a 32-bit integer, the "hh:mm" prefix of the display parses back
   * with the schedule's parser to a value at most one minute below `t`.
   */
  lemma ClockTextRoundTrip(t: real, floatParse: TimeIdTable.FloatParser)
    requires -2147483648.0 <= t < 2147483648.0
    ensures var v := TimeIdTable.TryParseHHMM(ClockText(t), floatParse);
      && v.Some?
      && v.value <= t < v.value + 1.0 / 60.0
  {
    var hm := ClockParts(t);
    Pad2Parses(hm.0);
    Pad2Parses(hm.1);
    TimeIdTable.ParseColonForm(Pad2(hm.0), Pad2(hm.1), floatParse);
  }
}
