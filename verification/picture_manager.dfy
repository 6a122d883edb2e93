/**
 * One image target and the anchor points it carries. Each manager turns the vision system's
 * status reports into a tracked / untracked verdict, keeps a case-insensitive map from spot id
 * to its (start, target) anchor pair while tracked, and names one spot as current.
 *
 * Everything here acts on one manager only; the steps that also touch the shared set of
 * active managers or notify the coordinator are put together in module Scene.
 */
module PictureManager {
  import opened Wrappers
  import Text

  /** Vuforia's tracking status of an image target. */
  datatype Status = NoPose | Limited | Detected | Tracked | ExtendedTracked

  /**
   * An anchor transform spawned for a spot: its manager, the spawn round that made it, the
   * configured entry it belongs to, and whether it is the target end (else the start end).
   */
  datatype Node = Node(owner: nat, generation: nat, entry: nat, isTarget: bool)

  /** The two anchor ends of a spot; an end becomes `None` once its object has been destroyed. */
  datatype Pair = Pair(start: Option<Node>, target: Option<Node>)

  /**
   * Inspector settings of a manager. `id` names the manager's own game object, so that anchors
   * spawned by different managers are different objects; a scene gives each manager its index.
   */
  datatype Config = Config(
    id: nat,
    spotIds: seq<string>,
    defaultSpotId: string,
    lostClearDelaySeconds: real,
    treatLimitedAsTracked: bool,
    treatExtendedAsTracked: bool)

  /**
   * Runtime state. `pairs` is keyed by the case-folded spot id (an ordinal-ignore-case
   * dictionary); `lossDeadline` is the moment the pending loss timer fires, if one is armed.
   */
  datatype Manager = Manager(
    cfg: Config,
    orderedSpotIds: seq<string>,
    tracked: bool,
    currentSpotId: string,
    pairs: map<string, Pair>,
    lossDeadline: Option<real>,
    generation: nat)

  /** The spot id of a manager that shows nothing. */
  const NoSpot: string := "none"

  // ---------------------------------------------------------------------------
  // Verdict
  // ---------------------------------------------------------------------------

  /** Whether a status report counts as tracked under the manager's settings. */
  function IsConsideredTracked(cfg: Config, status: Status): (tracked: bool)
    ensures status == Tracked ==> tracked
    ensures status == ExtendedTracked ==> (tracked <==> cfg.treatExtendedAsTracked)
    ensures status == Limited ==> (tracked <==> cfg.treatLimitedAsTracked)
    ensures status in {NoPose, Detected} ==> !tracked
  {
    match status
    case Tracked => true
    case ExtendedTracked => cfg.treatExtendedAsTracked
    case Limited => cfg.treatLimitedAsTracked
    case _ => false
  }

  // ---------------------------------------------------------------------------
  // Ordered spot ids (built once, on creation)
  // ---------------------------------------------------------------------------

  predicate NoDuplicates<T(==)>(s: seq<T>) {
    forall i, j :: 0 <= i < j < |s| ==> s[i] != s[j]
  }

  /** Position of the first occurrence of `x` in `s`, or -1 (`List.IndexOf`, case-sensitive). */
  function IndexOf<T(==)>(s: seq<T>, x: T): (k: int)
    ensures -1 <= k < |s|
    ensures k >= 0 ==> s[k] == x
    ensures k == -1 <==> x !in s
  {
    if |s| == 0 then -1
    else if s[0] == x then 0
    else
      var k := IndexOf(s[1..], x);
      if k == -1 then -1 else k + 1
  }

  /** `IndexOf` finds the first occurrence. */
  lemma {:induction false} IndexOfFirst<T>(s: seq<T>, x: T, j: nat)
    requires j < IndexOf(s, x)
    ensures s[j] != x
    decreases |s|
  {
    if j > 0 {
      IndexOfFirst(s[1..], x, j - 1);
    }
  }

  /**
   * The non-empty spot ids in order of first occurrence, each once. Duplicates are judged
   * case-sensitively, so "A" and "a" both appear.
   */
  function OrderedSpotIds(ids: seq<string>): (r: seq<string>)
    ensures NoDuplicates(r)
    ensures forall x :: x in r <==> x in ids && x != ""
    ensures forall i, j :: 0 <= i < j < |r| ==> IndexOf(ids, r[i]) < IndexOf(ids, r[j])
  {
    if |ids| == 0 then []
    else
      var prefix := ids[..|ids| - 1];
      var p := OrderedSpotIds(prefix);
      var last := ids[|ids| - 1];
      assert ids == prefix + [last];
      forall x | x in prefix
        ensures IndexOf(ids, x) == IndexOf(prefix, x)
      {
        IndexOfExtend(prefix, last, x);
      }
      if last != "" && last !in p then
        assert IndexOf(ids, last) == |ids| - 1 by {
          IndexOfExtend(prefix, last, last);
        }
        p + [last]
      else p
  }

  lemma {:induction false} IndexOfExtend<T>(s: seq<T>, y: T, x: T)
    ensures x in s ==> IndexOf(s + [y], x) == IndexOf(s, x)
    ensures x !in s && x == y ==> IndexOf(s + [y], x) == |s|
    decreases |s|
  {
    if |s| > 0 {
      assert (s + [y])[1..] == s[1..] + [y];
      IndexOfExtend(s[1..], y, x);
    }
  }

  // ---------------------------------------------------------------------------
  // Anchor pairs
  // ---------------------------------------------------------------------------

  /**
   * The pair map rebuilt from the configured spot ids: one freshly spawned pair per non-empty
   * id, filed under its folded id; a later entry with the same folded id replaces an earlier one.
   */
  function SpawnPairs(ids: seq<string>, owner: nat, generation: nat): (m: map<string, Pair>)
    ensures forall i :: 0 <= i < |ids| && ids[i] != "" ==> Text.Fold(ids[i]) in m
    ensures forall k :: k in m ==> exists i :: 0 <= i < |ids| && ids[i] != "" && Text.Fold(ids[i]) == k
    ensures forall k :: k in m ==> m[k].start.Some? && m[k].target.Some?
    ensures forall k :: k in m ==> m[k].start.value.owner == owner && m[k].target.value.owner == owner
  {
    if |ids| == 0 then map[]
    else
      var n := |ids| - 1;
      var p := SpawnPairs(ids[..n], owner, generation);
      assert forall i :: 0 <= i < n ==> ids[..n][i] == ids[i];
      if ids[n] == "" then p
      else p[Text.Fold(ids[n]) := Pair(Some(Node(owner, generation, n, false)), Some(Node(owner, generation, n, true)))]
  }

  /** The map is empty exactly when no spot id is configured, as is the ordered id list. */
  lemma PairsMatchOrdered(ids: seq<string>, owner: nat, generation: nat)
    ensures |SpawnPairs(ids, owner, generation)| == 0 <==> |OrderedSpotIds(ids)| == 0
    ensures forall x :: x in OrderedSpotIds(ids) ==> Text.Fold(x) in SpawnPairs(ids, owner, generation)
  {
    var m := SpawnPairs(ids, owner, generation);
    var r := OrderedSpotIds(ids);
    if |r| > 0 {
      assert r[0] in ids;
      assert Text.Fold(r[0]) in m;
    }
    if |m| > 0 {
      var k :| k in m;
      var i :| 0 <= i < |ids| && ids[i] != "" && Text.Fold(ids[i]) == k;
      assert ids[i] in r;
    }
  }

  // ---------------------------------------------------------------------------
  // Creation and the tracking handler's manager-local steps
  // ---------------------------------------------------------------------------

  /** A manager as it stands after creation: untracked, no spot, no pairs, no timer. */
  function Create(cfg: Config): (m: Manager)
    ensures !m.tracked && m.currentSpotId == NoSpot && m.pairs == map[] && m.lossDeadline.None?
    ensures forall x :: x in m.orderedSpotIds <==> x in cfg.spotIds && x != ""
  {
    Manager(cfg, OrderedSpotIds(cfg.spotIds), false, NoSpot, map[], None, 0)
  }

  /**
   * The spot chosen on acquisition: the configured default if it has a pair, else the first
   * ordered id, else "none".
   */
  function DefaultSpotId(m: Manager): (id: string)
    ensures m.cfg.defaultSpotId != "" && Text.Fold(m.cfg.defaultSpotId) in m.pairs ==> id == m.cfg.defaultSpotId
    ensures !(m.cfg.defaultSpotId != "" && Text.Fold(m.cfg.defaultSpotId) in m.pairs) ==>
      id == (if |m.orderedSpotIds| > 0 then m.orderedSpotIds[0] else NoSpot)
  {
    if m.cfg.defaultSpotId != "" && Text.Fold(m.cfg.defaultSpotId) in m.pairs then m.cfg.defaultSpotId
    else if |m.orderedSpotIds| > 0 then m.orderedSpotIds[0]
    else NoSpot
  }

  /**
   * Becoming tracked: cancel the pending loss timer, spawn a fresh pair for every spot and
   * select the default spot.
   */
  function Acquire(m: Manager): (m': Manager)
    ensures m'.tracked && m'.lossDeadline.None?
    ensures m'.generation == m.generation + 1
    ensures m'.pairs == SpawnPairs(m.cfg.spotIds, m.cfg.id, m.generation + 1)
    ensures m'.currentSpotId == DefaultSpotId(m.(pairs := m'.pairs))
    ensures m'.cfg == m.cfg && m'.orderedSpotIds == m.orderedSpotIds
  {
    var spawned := m.(tracked := true, lossDeadline := None, generation := m.generation + 1,
                      pairs := SpawnPairs(m.cfg.spotIds, m.cfg.id, m.generation + 1));
    spawned.(currentSpotId := DefaultSpotId(spawned))
  }

  /**
   * Losing tracking: the verdict turns false at once and a single loss timer is (re)armed;
   * spot, pairs and membership stay as they were. A delay of 0 or less fires at `now`.
   */
  function Lose(m: Manager, now: real): (m': Manager)
    ensures !m'.tracked
    ensures m'.lossDeadline == Some(if m.cfg.lostClearDelaySeconds > 0.0 then now + m.cfg.lostClearDelaySeconds else now)
    ensures m'.currentSpotId == m.currentSpotId && m'.pairs == m.pairs && m'.generation == m.generation
    ensures m'.cfg == m.cfg && m'.orderedSpotIds == m.orderedSpotIds
  {
    var delay := if m.cfg.lostClearDelaySeconds > 0.0 then m.cfg.lostClearDelaySeconds else 0.0;
    m.(tracked := false, lossDeadline := Some(now + delay))
  }

  /** Whether the armed loss timer has run out at time `now`. */
  predicate TimerDue(m: Manager, now: real) {
    m.lossDeadline.Some? && now >= m.lossDeadline.value
  }

  /**
   * The first half of the timer's expiry, up to the coordinator's notification: if tracking has
   * not come back, the current spot becomes "none".
   */
  function ExpireSpot(m: Manager): (m': Manager)
    ensures m'.lossDeadline.None?
    ensures m'.tracked == m.tracked && m'.pairs == m.pairs
    ensures m'.currentSpotId == (if m.tracked then m.currentSpotId else NoSpot)
    ensures m'.cfg == m.cfg && m'.orderedSpotIds == m.orderedSpotIds
  {
    if m.tracked then m.(lossDeadline := None) else m.(lossDeadline := None, currentSpotId := NoSpot)
  }

  /** Destroys every spawned anchor: the pair map empties. */
  function DespawnPairs(m: Manager): (m': Manager)
    ensures m'.pairs == map[]
    ensures m'.(pairs := m.pairs) == m
  {
    m.(pairs := map[])
  }

  // ---------------------------------------------------------------------------
  // Pair lookup
  // ---------------------------------------------------------------------------

  /**
   * The (start, target) anchors of spot `id`: only while tracked, only for the current spot
   * (compared ignoring case), and only when both ends are still alive.
   */
  function TryGetPairById(m: Manager, id: string): (r: Option<(Node, Node)>)
    ensures r.Some? <==> (&& m.tracked
                          && id != ""
                          && Text.EqualsIgnoreCase(id, m.currentSpotId)
                          && Text.Fold(m.currentSpotId) in m.pairs
                          && m.pairs[Text.Fold(m.currentSpotId)].start.Some?
                          && m.pairs[Text.Fold(m.currentSpotId)].target.Some?)
    ensures r.Some? ==> r.value == (m.pairs[Text.Fold(m.currentSpotId)].start.value,
                                    m.pairs[Text.Fold(m.currentSpotId)].target.value)
  {
    if !m.tracked then None
    else if id == "" || !Text.EqualsIgnoreCase(id, m.currentSpotId) then None
    else if Text.Fold(m.currentSpotId) in m.pairs then
      var rt := m.pairs[Text.Fold(m.currentSpotId)];
      if rt.start.Some? && rt.target.Some? then Some((rt.start.value, rt.target.value)) else None
    else None
  }

  /** The anchors of the current spot, under the same conditions. */
  function TryGetLivePair(m: Manager): (r: Option<(Node, Node)>)
    ensures r == TryGetPairById(m, m.currentSpotId)
    ensures r.Some? ==> m.tracked && m.currentSpotId != ""
  {
    TryGetPairById(m, m.currentSpotId)
  }

  /**
   * Right after acquisition a manager with at least one configured spot has a live pair for
   * its current spot; with none configured its spot is "none" and it has no pair.
   */
  lemma AcquireSelectsLiveSpot(m: Manager)
    requires m.orderedSpotIds == OrderedSpotIds(m.cfg.spotIds)
    ensures var m' := Acquire(m);
      && (|m'.orderedSpotIds| > 0 ==> TryGetLivePair(m').Some?)
      && (|m'.orderedSpotIds| == 0 ==> m'.currentSpotId == NoSpot && m'.pairs == map[])
  {
    var m' := Acquire(m);
    PairsMatchOrdered(m.cfg.spotIds, m.cfg.id, m.generation + 1);
    if |m'.orderedSpotIds| > 0 {
      assert m'.currentSpotId != "" by {
        assert m.orderedSpotIds[0] in m.orderedSpotIds;
      }
    }
  }

  // ---------------------------------------------------------------------------
  // Choosing the current spot
  // ---------------------------------------------------------------------------

  /**
   * Makes `spotId` current if the manager is tracked and has a pair for it (ignoring case);
   * otherwise nothing happens. The flag says whether the coordinator is asked to re-match.
   */
  function SetActiveSpotId(m: Manager, spotId: string): (r: (Manager, bool))
    ensures r.1 <==> m.tracked && spotId != "" && Text.Fold(spotId) in m.pairs
    ensures r.1 ==> r.0 == m.(currentSpotId := spotId)
    ensures !r.1 ==> r.0 == m
  {
    if !m.tracked || spotId == "" || Text.Fold(spotId) !in m.pairs then (m, false)
    else (m.(currentSpotId := spotId), true)
  }

  /** The index `CycleNextSpot` moves to: one past the current id's position, from 0 when absent. */
  function NextIndex<T(==)>(ordered: seq<T>, current: T): (k: nat)
    requires |ordered| > 0
    ensures current in ordered ==> k == if IndexOf(ordered, current) + 1 < |ordered| then IndexOf(ordered, current) + 1 else 0
    ensures current !in ordered ==> k == if 1 < |ordered| then 1 else 0
  {
    var idx := IndexOf(ordered, current);
    var start := if idx > 0 then idx else 0;
    // (start + 1) % |ordered|, with start < |ordered|
    if start + 1 < |ordered| then start + 1 else 0
  }

  /**
   * Moves to the next ordered spot id, wrapping round; ignored when untracked or when no spot
   * is configured.
   */
  function CycleNextSpot(m: Manager): (r: (Manager, bool))
    ensures r.1 <==> m.tracked && |m.orderedSpotIds| > 0
    ensures r.1 ==> r.0 == m.(currentSpotId := m.orderedSpotIds[NextIndex(m.orderedSpotIds, m.currentSpotId)])
    ensures r.1 ==> r.0.currentSpotId in m.orderedSpotIds
    ensures !r.1 ==> r.0 == m
  {
    if !m.tracked || |m.orderedSpotIds| == 0 then (m, false)
    else (m.(currentSpotId := m.orderedSpotIds[NextIndex(m.orderedSpotIds, m.currentSpotId)]), true)
  }

  /**
   * Selecting a spot under a different letter case is accepted, because the pair lookup ignores
   * case, but cycling looks the current id up case-sensitively: from "b" in ["A", "B", "C"] the
   * next spot is "B" again rather than "C".
   */
  lemma CycleAfterCaseVariant(m: Manager)
    requires m.tracked && m.orderedSpotIds == ["A", "B", "C"] && Text.Fold("B") in m.pairs
    ensures var (m1, accepted) := SetActiveSpotId(m, "b");
      && accepted && m1.currentSpotId == "b"
      && CycleNextSpot(m1).0.currentSpotId == "B"
  {
    assert Text.Fold("b") == Text.Fold("B");
    assert "b" !in m.orderedSpotIds;
  }

  /** `k` successive cycles. */
  function CycleTimes(m: Manager, k: nat): Manager
    decreases k
  {
    if k == 0 then m else CycleTimes(CycleNextSpot(m).0, k - 1)
  }

  lemma IndexOfNoDup<T>(s: seq<T>, i: nat)
    requires NoDuplicates(s) && i < |s|
    ensures IndexOf(s, s[i]) == i
  {
  }

  /** The successor of position i is i + 1, or 0 after the last position. */
  lemma NextIndexAt<T>(ordered: seq<T>, i: nat)
    requires NoDuplicates(ordered) && i < |ordered|
    ensures NextIndex(ordered, ordered[i]) == if i + 1 < |ordered| then i + 1 else 0
  {
    IndexOfNoDup(ordered, i);
    assert ordered[i] in ordered;
  }

  /** The id `k` successive cycles reach from `current` in the list `ordered`. */
  function Iterate<T(==)>(ordered: seq<T>, current: T, k: nat): T
    requires |ordered| > 0
    decreases k
  {
    if k == 0 then current else Iterate(ordered, ordered[NextIndex(ordered, current)], k - 1)
  }

  /** Every position's successor is the next position, wrapping from the last to the first. */
  predicate StepsInOrder<T(==)>(ordered: seq<T>) {
    && |ordered| > 0
    && forall i :: 0 <= i < |ordered| ==>
         NextIndex(ordered, ordered[i]) == if i + 1 < |ordered| then i + 1 else 0
  }

  lemma StepsInOrderOfNoDup<T>(ordered: seq<T>)
    requires NoDuplicates(ordered) && |ordered| > 0
    ensures StepsInOrder(ordered)
  {
    forall i | 0 <= i < |ordered|
      ensures NextIndex(ordered, ordered[i]) == if i + 1 < |ordered| then i + 1 else 0
    {
      NextIndexAt(ordered, i);
    }
  }

  lemma {:induction false} IterateAdd<T>(ordered: seq<T>, x: T, a: nat, b: nat)
    requires |ordered| > 0
    ensures Iterate(ordered, x, a + b) == Iterate(ordered, Iterate(ordered, x, a), b)
    decreases a
  {
    if a > 0 {
      IterateAdd(ordered, ordered[NextIndex(ordered, x)], a - 1, b);
    }
  }

  /** From position i, k cycles that do not pass the end land on position i + k. */
  lemma {:induction false} IterateNoWrap<T>(ordered: seq<T>, i: nat, k: nat)
    requires StepsInOrder(ordered) && i + k < |ordered|
    ensures Iterate(ordered, ordered[i], k) == ordered[i + k]
    decreases k
  {
    if k > 0 {
      assert NextIndex(ordered, ordered[i]) == i + 1;
      IterateNoWrap(ordered, i + 1, k - 1);
    }
  }

  /** From position i, |ordered| - i cycles reach position 0. */
  lemma IterateToFirst<T>(ordered: seq<T>, i: nat)
    requires StepsInOrder(ordered) && i < |ordered|
    ensures Iterate(ordered, ordered[i], |ordered| - i) == ordered[0]
  {
    var n := |ordered|;
    var k: nat := n - 1 - i;
    IterateAdd(ordered, ordered[i], k, 1);
    IterateNoWrap(ordered, i, k);
    assert NextIndex(ordered, ordered[n - 1]) == 0;
    assert Iterate(ordered, ordered[n - 1], 1) == ordered[0];
  }

  /** From position i, |ordered| cycles come back to position i. */
  lemma IterateFullCircle<T>(ordered: seq<T>, i: nat)
    requires StepsInOrder(ordered) && i < |ordered|
    ensures Iterate(ordered, ordered[i], |ordered|) == ordered[i]
  {
    IterateAdd(ordered, ordered[i], |ordered| - i, i);
    IterateToFirst(ordered, i);
    IterateNoWrap(ordered, 0, i);
  }

  /** Cycling a tracked manager k times only moves its current spot, as `Iterate` says. */
  lemma {:induction false} CycleTimesIterate(m: Manager, k: nat)
    requires m.tracked && |m.orderedSpotIds| > 0
    ensures CycleTimes(m, k) == m.(currentSpotId := Iterate(m.orderedSpotIds, m.currentSpotId, k))
    decreases k
  {
    if k > 0 {
      CycleTimesIterate(CycleNextSpot(m).0, k - 1);
    }
  }

  /** Cycling through every ordered spot once comes back to the spot one started from. */
  lemma CycleFullCircle(m: Manager)
    requires m.tracked && NoDuplicates(m.orderedSpotIds) && m.currentSpotId in m.orderedSpotIds
    ensures CycleTimes(m, |m.orderedSpotIds|) == m
  {
    CycleTimesIterate(m, |m.orderedSpotIds|);
    StepsInOrderOfNoDup(m.orderedSpotIds);
    IterateFullCircle(m.orderedSpotIds, IndexOf(m.orderedSpotIds, m.currentSpotId));
  }
}
