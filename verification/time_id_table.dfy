/**
 * The time-of-day schedule: configured records ("id", start text, end text) are parsed into
 * slices of the 24-hour clock, and a clock hour resolves to the id of the first slice that
 * covers it. Slices may be half-open (start < end), wrap past midnight (start > end) or be
 * degenerate (start == end, always on).
 */
module TimeIdTable {
  import opened Wrappers
  import Text

  /** `float.TryParse`, which the model does not open up: any partial function from text to hours. */
  type FloatParser = string -> Option<real>

  /** One configured row of the table (its animator settings are not part of the model). */
  datatype Record = Record(id: string, startTime: string, endTime: string)

  /** One active schedule slice, both bounds already normalised into [0, 24). */
  datatype Slice = Slice(id: string, start: real, end: real)

  // ---------------------------------------------------------------------------
  // Mathf.Repeat(t, 24)
  // ---------------------------------------------------------------------------

  /** `t` brought into [0, 24) by adding a whole number of days. */
  function Repeat24(t: real): (r: real)
    ensures 0.0 <= r < 24.0
    ensures (t - r) / 24.0 == ((t - r) / 24.0).Floor as real
  {
    var k := (t / 24.0).Floor;
    t - 24.0 * k as real
  }

  /** Hours already inside the day are left alone. */
  lemma Repeat24InRange(t: real)
    requires 0.0 <= t < 24.0
    ensures Repeat24(t) == t
  {
    assert (t / 24.0).Floor == 0;
  }

  /** Adding whole days does not change the normalised hour. */
  lemma Repeat24Periodic(t: real, k: int)
    ensures Repeat24(t + 24.0 * k as real) == Repeat24(t)
  {
    var u := t + 24.0 * k as real;
    assert u / 24.0 == t / 24.0 + k as real;
    assert (u / 24.0).Floor == (t / 24.0).Floor + k;
  }

  // ---------------------------------------------------------------------------
  // TryParseHHMM
  // ---------------------------------------------------------------------------

  /**
   * Parses "H:M" into `H + M/60` hours; text without a colon goes to `float.TryParse`.
   * No range check is made on either part.
   */
  function TryParseHHMM(s: string, floatParse: FloatParser): (r: Option<real>)
    ensures |s| == 0 ==> r == None
    ensures |s| > 0 && ':' !in s ==> r == floatParse(s)
  {
    if |s| == 0 then None
    else if ':' in s then
      var parts := Text.Split(s, ':');
      if |parts| != 2 then None
      else Hours(Text.ParseInt32(parts[0]), Text.ParseInt32(parts[1]))
    else floatParse(s)
  }

  /** Hours and minutes, both parsed, as fractional hours. */
  function Hours(h: Option<int>, m: Option<int>): (r: Option<real>)
    ensures r.Some? <==> h.Some? && m.Some?
    ensures r.Some? ==> r.value == h.value as real + m.value as real / 60.0
  {
    if h.Some? && m.Some? then Some(h.value as real + m.value as real / 60.0) else None
  }

  /** "H:M" succeeds exactly when both halves are 32-bit integers, and then yields H + M/60. */
  lemma ParseColonForm(a: string, b: string, floatParse: FloatParser)
    requires ':' !in a && ':' !in b
    ensures TryParseHHMM(a + ":" + b, floatParse).Some?
        <==> Text.ParseInt32(a).Some? && Text.ParseInt32(b).Some?
    ensures Text.ParseInt32(a).Some? && Text.ParseInt32(b).Some? ==>
        TryParseHHMM(a + ":" + b, floatParse)
          == Some(Text.ParseInt32(a).value as real + Text.ParseInt32(b).value as real / 60.0)
  {
    var s := a + [':'] + b;
    assert a + ":" + b == s;
    assert s[|a|] == ':';
    Text.SplitOne(a, b, ':');
    assert TryParseHHMM(s, floatParse) == Hours(Text.ParseInt32(a), Text.ParseInt32(b));
  }

  /** A signed hour is accepted with no range check: "-1:30" is half an hour before midnight. */
  lemma NegativeHourExample(floatParse: FloatParser)
    ensures TryParseHHMM("-1:30", floatParse) == Some(-0.5)
  {
    assert "-1"[1..] == "1";
    assert "30"[..1] == "3";
    assert Text.DigitsValue("30") == 30;
    assert Text.ParseInt32("-1") == Some(-1);
    assert Text.ParseInt32("30") == Some(30);
    ParseColonForm("-1", "30", floatParse);
    assert "-1" + ":" + "30" == "-1:30";
  }

  /** Text with two colons or more never parses. */
  lemma ParseManyColons(a: string, b: string, c: string, floatParse: FloatParser)
    requires ':' !in a
    ensures TryParseHHMM(a + ":" + b + ":" + c, floatParse) == None
  {
    Text.SplitMany(a, b, c, ':');
    assert a + ":" + b + ":" + c == a + [':'] + b + [':'] + c;
  }

  // ---------------------------------------------------------------------------
  // RebuildSlices
  // ---------------------------------------------------------------------------

  /** The slice a record contributes, if its id is non-empty and both times parse. */
  function SliceOf(rec: Record, floatParse: FloatParser): (r: Option<Slice>)
    ensures r.Some? <==> (&& rec.id != ""
                          && TryParseHHMM(rec.startTime, floatParse).Some?
                          && TryParseHHMM(rec.endTime, floatParse).Some?)
    ensures r.Some? ==> (&& r.value.id == rec.id
                         && r.value.start == Repeat24(TryParseHHMM(rec.startTime, floatParse).value)
                         && r.value.end == Repeat24(TryParseHHMM(rec.endTime, floatParse).value))
  {
    if rec.id == "" then None
    else
      match (TryParseHHMM(rec.startTime, floatParse), TryParseHHMM(rec.endTime, floatParse))
      case (Some(sh), Some(eh)) => Some(Slice(rec.id, Repeat24(sh), Repeat24(eh)))
      case _ => None
  }

  predicate WellFormed(sl: Slice) {
    sl.id != "" && 0.0 <= sl.start < 24.0 && 0.0 <= sl.end < 24.0
  }

  /** The slice list rebuilt from the records, in record order, dropping unusable records. */
  function RebuildSlices(records: seq<Record>, floatParse: FloatParser): (slices: seq<Slice>)
    ensures |slices| <= |records|
    ensures forall i :: 0 <= i < |slices| ==> WellFormed(slices[i])
    ensures forall i :: 0 <= i < |records| && SliceOf(records[i], floatParse).Some? ==>
              SliceOf(records[i], floatParse).value in slices
    ensures forall sl :: sl in slices ==> exists i :: 0 <= i < |records| && SliceOf(records[i], floatParse) == Some(sl)
  {
    if |records| == 0 then []
    else
      var rest := RebuildSlices(records[1..], floatParse);
      assert forall i :: 1 <= i < |records| ==> records[1..][i - 1] == records[i];
      match SliceOf(records[0], floatParse)
      case Some(sl) => [sl] + rest
      case None => rest
  }

  /** Rebuilding is compositional: the slices of a concatenation are the concatenated slices. */
  lemma {:induction false} RebuildAppend(a: seq<Record>, b: seq<Record>, floatParse: FloatParser)
    ensures RebuildSlices(a + b, floatParse) == RebuildSlices(a, floatParse) + RebuildSlices(b, floatParse)
    decreases |a|
  {
    if |a| == 0 {
      assert a + b == b;
    } else {
      assert (a + b)[0] == a[0];
      assert (a + b)[1..] == a[1..] + b;
      RebuildAppend(a[1..], b, floatParse);
    }
  }

  /** A single record yields its slice, or nothing when it is unusable. */
  lemma RebuildSingle(rec: Record, floatParse: FloatParser)
    ensures RebuildSlices([rec], floatParse)
        == (match SliceOf(rec, floatParse) case Some(sl) => [sl] case None => [])
  {
    assert [rec][1..] == [];
  }

  // ---------------------------------------------------------------------------
  // GetRecordById
  // ---------------------------------------------------------------------------

  /** The first record whose id equals `id` exactly (case-sensitively); nothing for an empty id. */
  function GetRecordById(records: seq<Record>, id: string): (r: Option<nat>)
    ensures r.Some? ==> id != "" && r.value < |records| && records[r.value].id == id
    ensures r.Some? ==> forall j :: 0 <= j < r.value ==> records[j].id != id
    ensures r.None? ==> id == "" || forall j :: 0 <= j < |records| ==> records[j].id != id
  {
    if id == "" then None else FindRecord(records, id, 0)
  }

  function FindRecord(records: seq<Record>, id: string, from: nat): (r: Option<nat>)
    requires from <= |records|
    requires forall j :: 0 <= j < from ==> records[j].id != id
    ensures r.Some? ==> from <= r.value < |records| && records[r.value].id == id
    ensures r.Some? ==> forall j :: 0 <= j < r.value ==> records[j].id != id
    ensures r.None? ==> forall j :: 0 <= j < |records| ==> records[j].id != id
    decreases |records| - from
  {
    if from == |records| then None
    else if records[from].id == id then Some(from)
    else FindRecord(records, id, from + 1)
  }

  // ---------------------------------------------------------------------------
  // TryMapTimeToId
  // ---------------------------------------------------------------------------

  /**
   * Whether a slice covers the (normalised) hour `h`: half-open when start < end, wrapping past
   * midnight when start > end, the whole day when start == end.
   */
  predicate Hits(sl: Slice, h: real) {
    || (sl.start < sl.end && sl.start <= h < sl.end)
    || (sl.start > sl.end && (h >= sl.start || h < sl.end))
    || sl.start == sl.end
  }

  /** A slice that wraps past midnight covers exactly the hours its reversed, non-wrapping slice misses. */
  lemma WrapIsComplement(id: string, a: real, b: real, h: real)
    requires a > b
    ensures Hits(Slice(id, a, b), h) <==> !Hits(Slice(id, b, a), h)
  {
  }

  /** How far `h` lies clockwise past `from` on a 24-hour dial. */
  function DialOffset(from: real, h: real): (d: real)
    requires 0.0 <= from < 24.0 && 0.0 <= h < 24.0
    ensures 0.0 <= d < 24.0
    ensures d == h - from || d == h - from + 24.0
  {
    if h >= from then h - from else h - from + 24.0
  }

  /**
   * On normalised hours a slice is the clockwise arc of the dial from its start up to (not
   * including) its end; a slice whose start equals its end is the whole dial.
   */
  lemma HitsIsClockwiseArc(sl: Slice, h: real)
    requires 0.0 <= sl.start < 24.0 && 0.0 <= sl.end < 24.0 && 0.0 <= h < 24.0
    ensures sl.start != sl.end ==> (Hits(sl, h) <==> DialOffset(sl.start, h) < DialOffset(sl.start, sl.end))
    ensures sl.start == sl.end ==> Hits(sl, h)
  {
  }

  /** The id of the first slice covering `hour`, after bringing `hour` into [0, 24). */
  function TryMapTimeToId(slices: seq<Slice>, hour: real): (r: Option<string>)
    ensures r.Some? ==>
              exists i :: 0 <= i < |slices| && FirstHit(slices, Repeat24(hour), i) && r.value == slices[i].id
    ensures r.None? ==> forall i :: 0 <= i < |slices| ==> !Hits(slices[i], Repeat24(hour))
  {
    if |slices| == 0 then None
    else
      match Scan(slices, Repeat24(hour), 0)
      case Some(i) => Some(slices[i].id)
      case None => None
  }

  /** Slice `i` covers `h` and no earlier slice does. */
  predicate FirstHit(slices: seq<Slice>, h: real, i: nat)
    requires i < |slices|
  {
    Hits(slices[i], h) && forall j :: 0 <= j < i ==> !Hits(slices[j], h)
  }

  function Scan(slices: seq<Slice>, h: real, from: nat): (r: Option<nat>)
    requires from <= |slices|
    requires forall j :: 0 <= j < from ==> !Hits(slices[j], h)
    ensures r.Some? ==> from <= r.value < |slices| && FirstHit(slices, h, r.value)
    ensures r.None? ==> forall j :: 0 <= j < |slices| ==> !Hits(slices[j], h)
    decreases |slices| - from
  {
    if from == |slices| then None
    else if Hits(slices[from], h) then Some(from)
    else Scan(slices, h, from + 1)
  }

  /** The resolved id is unique: at most one index is the first hit. */
  lemma FirstHitUnique(slices: seq<Slice>, h: real, i: nat, j: nat)
    requires i < |slices| && j < |slices|
    requires FirstHit(slices, h, i) && FirstHit(slices, h, j)
    ensures i == j
  {
  }

  /** Resolution depends only on the hour of the day: `hour` and `hour + 24k` agree. */
  lemma MapPeriodic(slices: seq<Slice>, hour: real, k: int)
    ensures TryMapTimeToId(slices, hour + 24.0 * k as real) == TryMapTimeToId(slices, hour)
  {
    Repeat24Periodic(hour, k);
  }

  /** A slice 22:00 to 06:00 covers 23, 0 and 5.99 but not 6 or 12. */
  lemma WrapAroundExample()
    ensures var night := [Slice("night", 22.0, 6.0)];
      && TryMapTimeToId(night, 23.0) == Some("night")
      && TryMapTimeToId(night, 0.0) == Some("night")
      && TryMapTimeToId(night, 5.99) == Some("night")
      && TryMapTimeToId(night, 6.0) == None
      && TryMapTimeToId(night, 12.0) == None
  {
    Repeat24InRange(23.0);
    Repeat24InRange(0.0);
    Repeat24InRange(5.99);
    Repeat24InRange(6.0);
    Repeat24InRange(12.0);
  }

  /** A degenerate slice (start == end) wins at every hour when it comes first. */
  lemma DegenerateAlwaysHits(sl: Slice, rest: seq<Slice>, hour: real)
    requires sl.start == sl.end
    ensures TryMapTimeToId([sl] + rest, hour) == Some(sl.id)
  {
    assert FirstHit([sl] + rest, Repeat24(hour), 0);
  }

  /** With no slices at all, nothing resolves. */
  lemma EmptyTableMisses(hour: real)
    ensures TryMapTimeToId([], hour) == None
  {
  }
}
