/**
 * The match coordinator. On every call of `MatchId` it picks an active picture manager for the
 * current schedule id, decides whether the character is "matched" (a tracked image whose current
 * spot id equals the schedule id, ignoring case, and that has a live anchor pair), and runs the
 * four-way transition policy on (was matched, is matched). Its only outputs are commands to the
 * motion runner and the aim rig, which are not modelled beyond the commands themselves.
 */
module TongTongManager {
  import opened Wrappers
  import Text
  import PM = PictureManager

  /** Commands to the motion runner (the first three) and to the aim rig (`StopRig`). */
  datatype Command =
    | HardCancelToFallback
    | AlignToStart(start: PM.Node)
    | Run(timeId: Option<string>, start: PM.Node, target: PM.Node, forward: bool)
    | StopRig

  /** The remembered last match; every field is null (`None`) after a clear. */
  datatype Snapshot = Snapshot(
    pictureId: Option<string>,
    timeId: Option<string>,
    start: Option<PM.Node>,
    target: Option<PM.Node>)

  const EmptySnapshot := Snapshot(None, None, None, None)

  /**
   * Scene wiring: whether the character can be spawned at all (prefab and fallback point both
   * set) and whether an aim rig controller is attached.
   */
  datatype Config = Config(canSpawn: bool, hasRig: bool)

  /** `spawned` stands for "the character object (and so its motion runner) exists". */
  datatype Coordinator = Coordinator(cfg: Config, spawned: bool, lastWasMatch: bool, snapshot: Snapshot)

  /** The coordinator's new state and the commands it issued, in order. */
  datatype Reaction = Reaction(coordinator: Coordinator, commands: seq<Command>)

  /** The manager chosen by the picker, with its spot id and anchor pair at that moment. */
  datatype Picked = Picked(manager: nat, pictureId: string, start: PM.Node, target: PM.Node)

  /** Between calls: a coordinator that is not matched remembers nothing; a matched one has both ids. */
  predicate Inv(c: Coordinator) {
    && (!c.lastWasMatch ==> c.snapshot == EmptySnapshot)
    && (c.lastWasMatch ==> c.snapshot.pictureId.Some? && c.snapshot.timeId.Some?)
  }

  // ---------------------------------------------------------------------------
  // Spawning
  // ---------------------------------------------------------------------------

  function Initial(cfg: Config): (c: Coordinator)
    ensures Inv(c) && !c.spawned && !c.lastWasMatch
  {
    Coordinator(cfg, false, false, EmptySnapshot)
  }

  /**
   * Spawns the character at the fallback point unless it already exists or cannot be spawned;
   * a fresh spawn switches the aim rig off.
   */
  function EnsureSpawned(c: Coordinator): (r: Reaction)
    ensures r.coordinator == c.(spawned := c.spawned || c.cfg.canSpawn)
    ensures r.commands == (if !c.spawned && c.cfg.canSpawn && c.cfg.hasRig then [StopRig] else [])
  {
    if c.spawned || !c.cfg.canSpawn then Reaction(c, [])
    else Reaction(c.(spawned := true), if c.cfg.hasRig then [StopRig] else [])
  }

  /** Spawning twice is spawning once: the second call changes nothing and issues nothing. */
  lemma EnsureSpawnedIdempotent(c: Coordinator)
    ensures var r := EnsureSpawned(c);
      EnsureSpawned(r.coordinator) == Reaction(r.coordinator, [])
  {
  }

  /** Start-up: spawn at the fallback point, then switch the rig off once more if it exists. */
  function Start(c: Coordinator): (r: Reaction)
    ensures r.coordinator == EnsureSpawned(c).coordinator
    ensures r.coordinator.spawned && c.cfg.hasRig ==> |r.commands| > 0 && r.commands[|r.commands| - 1] == StopRig
  {
    var e := EnsureSpawned(c);
    Reaction(e.coordinator, e.commands + if e.coordinator.spawned && c.cfg.hasRig then [StopRig] else [])
  }

  /** Commands addressed to the motion runner reach it only when the character exists. */
  function ToMotion(c: Coordinator, cmds: seq<Command>): seq<Command> {
    if c.spawned then cmds else []
  }

  /** `StopRigIfAny`: a single `StopRig` exactly when a rig controller is attached; never a motion command. */
  function ToRig(c: Coordinator): (cmds: seq<Command>)
    ensures |cmds| > 0 <==> c.cfg.hasRig
    ensures forall k :: 0 <= k < |cmds| ==> cmds[k] == StopRig
    ensures |cmds| <= 1
  {
    if c.cfg.hasRig then [StopRig] else []
  }

  // ---------------------------------------------------------------------------
  // PickActivePictureForTimeId
  // ---------------------------------------------------------------------------

  /**
   * Manager `i` is eligible in the picker's second pass: it is active and tracked and has a live
   * pair for its current spot.
   */
  function LiveCandidate(ms: seq<PM.Manager>, active: set<nat>, i: nat): (r: Option<Picked>)
    ensures r.Some? <==> i in active && i < |ms| && ms[i].tracked && PM.TryGetLivePair(ms[i]).Some?
    ensures r.Some? ==> (&& r.value.manager == i && r.value.pictureId == ms[i].currentSpotId
                         && (r.value.start, r.value.target) == PM.TryGetLivePair(ms[i]).value)
  {
    if i in active && i < |ms| && ms[i].tracked then
      match PM.TryGetLivePair(ms[i])
      case Some(pair) => Some(Picked(i, ms[i].currentSpotId, pair.0, pair.1))
      case None => None
    else None
  }

  /** Eligible in the first pass: also its current spot id equals the schedule id, ignoring case. */
  predicate ExactCandidate(ms: seq<PM.Manager>, active: set<nat>, i: nat, timeId: string) {
    LiveCandidate(ms, active, i).Some? && Text.EqualsIgnoreCase(ms[i].currentSpotId, timeId)
  }

  /** Position in `order` of the first manager eligible in the first pass; `|order|` when none is. */
  function FirstExactAt(ms: seq<PM.Manager>, active: set<nat>, order: seq<nat>, timeId: string): (k: nat)
    ensures k <= |order|
    ensures k < |order| ==> ExactCandidate(ms, active, order[k], timeId)
    ensures forall j :: 0 <= j < k ==> !ExactCandidate(ms, active, order[j], timeId)
  {
    if |order| == 0 then 0
    else if ExactCandidate(ms, active, order[0], timeId) then 0
    else
      var k := FirstExactAt(ms, active, order[1..], timeId);
      assert forall j :: 1 <= j < 1 + k ==> order[j] == order[1..][j - 1];
      1 + k
  }

  /** Position in `order` of the first manager eligible in the second pass; `|order|` when none is. */
  function FirstLiveAt(ms: seq<PM.Manager>, active: set<nat>, order: seq<nat>): (k: nat)
    ensures k <= |order|
    ensures k < |order| ==> LiveCandidate(ms, active, order[k]).Some?
    ensures forall j :: 0 <= j < k ==> LiveCandidate(ms, active, order[j]).None?
  {
    if |order| == 0 then 0
    else if LiveCandidate(ms, active, order[0]).Some? then 0
    else
      var k := FirstLiveAt(ms, active, order[1..]);
      assert forall j :: 1 <= j < 1 + k ==> order[j] == order[1..][j - 1];
      1 + k
  }

  /** First pass: the first manager in enumeration order whose spot id is the schedule id. */
  function FirstExact(ms: seq<PM.Manager>, active: set<nat>, order: seq<nat>, timeId: string): (r: Option<Picked>)
    ensures r.Some? ==> (&& r.value.manager in order && ExactCandidate(ms, active, r.value.manager, timeId)
                         && LiveCandidate(ms, active, r.value.manager) == r)
    ensures r.None? ==> forall k :: 0 <= k < |order| ==> !ExactCandidate(ms, active, order[k], timeId)
  {
    var k := FirstExactAt(ms, active, order, timeId);
    if k < |order| then LiveCandidate(ms, active, order[k]) else None
  }

  /** Second pass: the first manager in enumeration order with a live pair. */
  function FirstLive(ms: seq<PM.Manager>, active: set<nat>, order: seq<nat>): (r: Option<Picked>)
    ensures r.Some? ==> r.value.manager in order && LiveCandidate(ms, active, r.value.manager) == r
    ensures r.None? ==> forall k :: 0 <= k < |order| ==> LiveCandidate(ms, active, order[k]).None?
  {
    var k := FirstLiveAt(ms, active, order);
    if k < |order| then LiveCandidate(ms, active, order[k]) else None
  }

  /**
   * `PickActivePictureForTimeId`: the first manager, in the enumeration order `order` of the
   * active set, whose spot id is the schedule id; failing that, the first one with a live pair;
   * nothing only when no enumerated manager has a live pair.
   */
  function Pick(ms: seq<PM.Manager>, active: set<nat>, order: seq<nat>, timeId: string): (r: Option<Picked>)
    ensures r.Some? ==> r.value.manager in active && r.value.manager < |ms|
    ensures r.Some? ==> r.value.pictureId == ms[r.value.manager].currentSpotId
    ensures r.Some? ==> LiveCandidate(ms, active, r.value.manager) == r
    ensures r.None? <==> forall k :: 0 <= k < |order| ==> LiveCandidate(ms, active, order[k]).None?
    // first pass: an exact candidate, if any, wins, and it is the first in order
    ensures (exists k :: 0 <= k < |order| && ExactCandidate(ms, active, order[k], timeId)) ==>
      && r.Some?
      && exists k :: (&& 0 <= k < |order| && order[k] == r.value.manager
                      && ExactCandidate(ms, active, order[k], timeId)
                      && forall j :: 0 <= j < k ==> !ExactCandidate(ms, active, order[j], timeId))
    // second pass: otherwise the first live candidate in order
    ensures (forall k :: 0 <= k < |order| ==> !ExactCandidate(ms, active, order[k], timeId)) && r.Some? ==>
      exists k :: (&& 0 <= k < |order| && order[k] == r.value.manager
                   && forall j :: 0 <= j < k ==> LiveCandidate(ms, active, order[j]).None?)
  {
    var e := FirstExactAt(ms, active, order, timeId);
    if e < |order| then LiveCandidate(ms, active, order[e])
    else
      var l := FirstLiveAt(ms, active, order);
      if l < |order| then LiveCandidate(ms, active, order[l]) else None
  }

  /** Whether the pick is a match for the schedule id: the picked manager is a first-pass candidate. */
  predicate NowMatch(ms: seq<PM.Manager>, active: set<nat>, order: seq<nat>, timeId: string): (b: bool)
    ensures b <==> (var pick := Pick(ms, active, order, timeId);
                    pick.Some? && ExactCandidate(ms, active, pick.value.manager, timeId))
  {
    var pick := Pick(ms, active, order, timeId);
    pick.Some? && Text.EqualsIgnoreCase(pick.value.pictureId, timeId)
  }

  /**
   * Matched exactly when some enumerated active, tracked manager has the schedule id as its
   * spot id (ignoring case) and a live pair.
   */
  lemma NowMatchIff(ms: seq<PM.Manager>, active: set<nat>, order: seq<nat>, timeId: string)
    ensures NowMatch(ms, active, order, timeId)
        <==> exists k :: 0 <= k < |order| && ExactCandidate(ms, active, order[k], timeId)
  {
    var pick := Pick(ms, active, order, timeId);
    if NowMatch(ms, active, order, timeId) {
      var k :| 0 <= k < |order| && order[k] == pick.value.manager;
      assert ExactCandidate(ms, active, order[k], timeId);
    }
  }

  /** The enumeration order of the active set does not change whether the character is matched. */
  lemma NowMatchOrderIndependent(ms: seq<PM.Manager>, active: set<nat>, o1: seq<nat>, o2: seq<nat>, timeId: string)
    requires forall i :: i in o1 <==> i in o2
    ensures NowMatch(ms, active, o1, timeId) == NowMatch(ms, active, o2, timeId)
  {
    NowMatchIff(ms, active, o1, timeId);
    NowMatchIff(ms, active, o2, timeId);
    if NowMatch(ms, active, o1, timeId) {
      var k :| 0 <= k < |o1| && ExactCandidate(ms, active, o1[k], timeId);
      assert o1[k] in o2;
      var k2 :| 0 <= k2 < |o2| && o2[k2] == o1[k];
    }
    if NowMatch(ms, active, o2, timeId) {
      var k :| 0 <= k < |o2| && ExactCandidate(ms, active, o2[k], timeId);
      assert o2[k] in o1;
      var k1 :| 0 <= k1 < |o1| && o1[k1] == o2[k];
    }
  }

  /** A manager found only by the second pass never counts as a match. */
  lemma SecondPassNeverMatches(ms: seq<PM.Manager>, active: set<nat>, order: seq<nat>, timeId: string)
    requires FirstExact(ms, active, order, timeId).None?
    ensures !NowMatch(ms, active, order, timeId)
  {
    var p := FirstLive(ms, active, order);
    if p.Some? {
      var k :| 0 <= k < |order| && order[k] == p.value.manager;
      assert !ExactCandidate(ms, active, order[k], timeId);
    }
  }

  // ---------------------------------------------------------------------------
  // MatchId
  // ---------------------------------------------------------------------------

  /** `ClearLastMatchSnapshot` plus `lastWasMatch = false`: unmatched, remembering nothing, all else kept. */
  function Cleared(c: Coordinator): (c': Coordinator)
    ensures Inv(c') && !c'.lastWasMatch
    ensures c'.(lastWasMatch := c.lastWasMatch, snapshot := c.snapshot) == c
  {
    c.(lastWasMatch := false, snapshot := EmptySnapshot)
  }

  /**
   * One evaluation of the match policy. `clock` is the schedule id reported by the time
   * controller, or `None` when no time controller is wired (then nothing happens at all).
   */
  function MatchId(c: Coordinator, ms: seq<PM.Manager>, active: set<nat>, order: seq<nat>, clock: Option<string>): (r: Reaction)
    ensures clock.None? ==> r == Reaction(c, [])
    ensures clock.Some? ==> r.coordinator.lastWasMatch == NowMatch(ms, active, order, clock.value)
    ensures clock.Some? ==> Inv(r.coordinator)
    ensures r.coordinator.cfg == c.cfg
  {
    match clock
    case None => Reaction(c, [])
    case Some(timeId) =>
      var pick := Pick(ms, active, order, timeId);
      var nowMatch := pick.Some? && Text.EqualsIgnoreCase(pick.value.pictureId, timeId);
      var pictureId := if pick.Some? then Some(pick.value.pictureId) else None;
      if c.lastWasMatch && nowMatch then
        // matched -> matched: keep going, only refresh the snapshot
        Reaction(c.(snapshot := Snapshot(pictureId, Some(timeId), Some(pick.value.start), Some(pick.value.target))), [])
      else if c.lastWasMatch then
        // matched -> not matched
        var e := EnsureSpawned(c);
        var c1 := e.coordinator;
        var snap := c.snapshot;
        var pictureChanged := snap.pictureId.Some? && !Text.EqualsIgnoreCaseOpt(snap.pictureId, pictureId);
        if pictureChanged || snap.start.None? || snap.target.None? then
          Reaction(Cleared(c1), e.commands + ToMotion(c1, [HardCancelToFallback]) + ToRig(c1))
        else
          Reaction(Cleared(c1), e.commands + ToRig(c1)
                                + ToMotion(c1, [Run(snap.timeId, snap.start.value, snap.target.value, false)]))
      else if nowMatch then
        // not matched -> matched
        var e := EnsureSpawned(c);
        var c1 := e.coordinator;
        match pick
        case None =>
          Reaction(Cleared(c1), e.commands + ToMotion(c1, [HardCancelToFallback]))
        case Some(p) =>
          Reaction(c1.(lastWasMatch := true, snapshot := Snapshot(pictureId, Some(timeId), Some(p.start), Some(p.target))),
                   e.commands + ToMotion(c1, [AlignToStart(p.start), Run(Some(timeId), p.start, p.target, true)]))
      else
        // not matched -> not matched: make sure the character rests at the fallback point
        var e := EnsureSpawned(c);
        var c1 := e.coordinator;
        Reaction(Cleared(c1), e.commands + ToRig(c1) + ToMotion(c1, [HardCancelToFallback]))
  }

  // ---------------------------------------------------------------------------
  // The transition table
  // ---------------------------------------------------------------------------

  /** matched -> matched: no command; the snapshot follows the live pair. */
  lemma MatchToMatch(c: Coordinator, ms: seq<PM.Manager>, active: set<nat>, order: seq<nat>, timeId: string)
    requires c.lastWasMatch && NowMatch(ms, active, order, timeId)
    ensures var r := MatchId(c, ms, active, order, Some(timeId));
      var p := Pick(ms, active, order, timeId).value;
      && r.commands == []
      && r.coordinator == c.(snapshot := Snapshot(Some(p.pictureId), Some(timeId), Some(p.start), Some(p.target)))
  {
  }

  /**
   * matched -> not matched, with the picture changed (or gone) or the remembered pair incomplete:
   * spawn the character if needed, return it to the fallback point at once and stop the rig;
   * nothing is run.
   */
  lemma MatchToNoMatchAbort(c: Coordinator, ms: seq<PM.Manager>, active: set<nat>, order: seq<nat>, timeId: string)
    requires c.spawned || c.cfg.canSpawn
    requires c.lastWasMatch && !NowMatch(ms, active, order, timeId)
    requires var pick := Pick(ms, active, order, timeId);
      || (c.snapshot.pictureId.Some? && (pick.None? || !Text.EqualsIgnoreCase(c.snapshot.pictureId.value, pick.value.pictureId)))
      || c.snapshot.start.None? || c.snapshot.target.None?
    ensures var r := MatchId(c, ms, active, order, Some(timeId));
      && r.commands == EnsureSpawned(c).commands + [HardCancelToFallback] + (if c.cfg.hasRig then [StopRig] else [])
      && r.coordinator == Cleared(EnsureSpawned(c).coordinator) && r.coordinator.spawned
  {
  }

  /**
   * matched -> not matched with the same picture (only the schedule moved on): spawn the
   * character if needed, stop the rig and run the remembered pair backwards, target to start,
   * with the remembered values.
   */
  lemma MatchToNoMatchReverse(c: Coordinator, ms: seq<PM.Manager>, active: set<nat>, order: seq<nat>, timeId: string)
    requires c.spawned || c.cfg.canSpawn
    requires c.lastWasMatch && !NowMatch(ms, active, order, timeId)
    requires c.snapshot.start.Some? && c.snapshot.target.Some?
    requires var pick := Pick(ms, active, order, timeId);
      c.snapshot.pictureId.None? || (pick.Some? && Text.EqualsIgnoreCase(c.snapshot.pictureId.value, pick.value.pictureId))
    ensures var r := MatchId(c, ms, active, order, Some(timeId));
      && r.commands == EnsureSpawned(c).commands + (if c.cfg.hasRig then [StopRig] else [])
                       + [Run(c.snapshot.timeId, c.snapshot.start.value, c.snapshot.target.value, false)]
      && r.coordinator == Cleared(EnsureSpawned(c).coordinator) && r.coordinator.spawned
  {
  }

  /**
   * not matched -> matched: spawn the character if needed, align it to the live start, then run
   * start to target, and remember that pair.
   */
  lemma NoMatchToMatch(c: Coordinator, ms: seq<PM.Manager>, active: set<nat>, order: seq<nat>, timeId: string)
    requires c.spawned || c.cfg.canSpawn
    requires !c.lastWasMatch && NowMatch(ms, active, order, timeId)
    ensures var r := MatchId(c, ms, active, order, Some(timeId));
      var p := Pick(ms, active, order, timeId).value;
      && r.commands == EnsureSpawned(c).commands + [AlignToStart(p.start), Run(Some(timeId), p.start, p.target, true)]
      && r.coordinator.lastWasMatch && r.coordinator.spawned
      && r.coordinator.snapshot == Snapshot(Some(p.pictureId), Some(timeId), Some(p.start), Some(p.target))
  {
  }

  /**
   * not matched -> not matched: spawn the character if needed, stop the rig and hard-return to
   * the fallback point.
   */
  lemma NoMatchToNoMatch(c: Coordinator, ms: seq<PM.Manager>, active: set<nat>, order: seq<nat>, timeId: string)
    requires c.spawned || c.cfg.canSpawn
    requires !c.lastWasMatch && !NowMatch(ms, active, order, timeId)
    ensures var r := MatchId(c, ms, active, order, Some(timeId));
      && r.commands == EnsureSpawned(c).commands + (if c.cfg.hasRig then [StopRig] else []) + [HardCancelToFallback]
      && r.coordinator == Cleared(c.(spawned := true))
  {
  }

  /**
   * Without a character that can be spawned, the motion runner receives nothing, yet the match
   * state is tracked as usual: the flag follows the verdict.
   */
  lemma NoCharacterNoMotion(c: Coordinator, ms: seq<PM.Manager>, active: set<nat>, order: seq<nat>, timeId: string)
    requires !c.spawned && !c.cfg.canSpawn
    ensures var r := MatchId(c, ms, active, order, Some(timeId));
      && MotionCommands(r.commands) == []
      && !r.coordinator.spawned
      && r.coordinator.lastWasMatch == NowMatch(ms, active, order, timeId)
  {
    var r := MatchId(c, ms, active, order, Some(timeId));
    var rig: seq<Command> := if c.cfg.hasRig then [StopRig] else [];
    assert r.commands == [] || r.commands == rig;
    assert MotionCommands(rig) == [];
  }

  /**
   * Re-evaluating an unchanged world after a no-match is a fixed point: same state, and the
   * same stop-and-return commands every time.
   */
  lemma NoMatchIdempotent(c: Coordinator, ms: seq<PM.Manager>, active: set<nat>, order: seq<nat>, timeId: string)
    requires !NowMatch(ms, active, order, timeId)
    ensures var r1 := MatchId(c, ms, active, order, Some(timeId));
      var r2 := MatchId(r1.coordinator, ms, active, order, Some(timeId));
      && r2.coordinator == r1.coordinator
      && r2.commands == ToRig(r1.coordinator) + ToMotion(r1.coordinator, [HardCancelToFallback])
  {
  }

  /** The commands addressed to the motion runner, in order. */
  function MotionCommands(cmds: seq<Command>): (motion: seq<Command>)
    ensures forall k :: 0 <= k < |motion| ==> motion[k] != StopRig
    ensures |motion| <= |cmds|
  {
    if |cmds| == 0 then []
    else (if cmds[0] == StopRig then [] else [cmds[0]]) + MotionCommands(cmds[1..])
  }

  lemma {:induction false} MotionCommandsAppend(a: seq<Command>, b: seq<Command>)
    ensures MotionCommands(a + b) == MotionCommands(a) + MotionCommands(b)
    decreases |a|
  {
    if |a| == 0 {
      assert a + b == b;
    } else {
      assert (a + b)[1..] == a[1..] + b;
      MotionCommandsAppend(a[1..], b);
    }
  }

  /** The motion command sends the character back: a hard return, or a run towards the start. */
  predicate HeadsHome(cmd: Command) {
    cmd == HardCancelToFallback || (cmd.Run? && !cmd.forward)
  }

  /** A stop-rig command, if any, between two runs of commands is not seen by the motion runner. */
  lemma MotionSkipsRig(hasRig: bool, before: seq<Command>, after: seq<Command>)
    ensures MotionCommands(before + (if hasRig then [StopRig] else []) + after)
         == MotionCommands(before) + MotionCommands(after)
  {
    var rig: seq<Command> := if hasRig then [StopRig] else [];
    assert MotionCommands(rig) == [];
    MotionCommandsAppend(before + rig, after);
    MotionCommandsAppend(before, rig);
  }

  lemma MotionSingle(cmd: Command)
    requires cmd != StopRig
    ensures MotionCommands([cmd]) == [cmd]
  {
    assert [cmd][1..] == [];
  }

  /** Whatever spawning issues is invisible to the motion runner. */
  lemma MotionAfterSpawn(c: Coordinator, cmds: seq<Command>)
    ensures MotionCommands(EnsureSpawned(c).commands + cmds) == MotionCommands(cmds)
  {
    var newSpawn := !c.spawned && c.cfg.canSpawn && c.cfg.hasRig;
    MotionSkipsRig(newSpawn, [], cmds);
    assert [] + (if newSpawn then [StopRig] else []) + cmds == EnsureSpawned(c).commands + cmds;
  }

  /** The motion runner's view of a spawn, a hard return and a rig stop. */
  lemma MotionOfAbort(c: Coordinator, hasRig: bool)
    ensures MotionCommands(EnsureSpawned(c).commands + [HardCancelToFallback] + (if hasRig then [StopRig] else []))
         == [HardCancelToFallback]
  {
    var e := EnsureSpawned(c).commands;
    var rig: seq<Command> := if hasRig then [StopRig] else [];
    assert e + [HardCancelToFallback] + rig == e + ([HardCancelToFallback] + rig + []);
    MotionAfterSpawn(c, [HardCancelToFallback] + rig + []);
    MotionSkipsRig(hasRig, [HardCancelToFallback], []);
    MotionSingle(HardCancelToFallback);
  }

  /** The motion runner's view of a spawn, a rig stop and one more command. */
  lemma MotionOfStopThen(c: Coordinator, hasRig: bool, cmd: Command)
    requires cmd != StopRig
    ensures MotionCommands(EnsureSpawned(c).commands + (if hasRig then [StopRig] else []) + [cmd]) == [cmd]
  {
    var e := EnsureSpawned(c).commands;
    var rig: seq<Command> := if hasRig then [StopRig] else [];
    assert e + rig + [cmd] == e + ([] + rig + [cmd]);
    MotionAfterSpawn(c, [] + rig + [cmd]);
    MotionSkipsRig(hasRig, [], [cmd]);
    MotionSingle(cmd);
  }

  /** A matched -> not matched evaluation ends on a command that heads home. */
  lemma LastMotionAfterLoss(c: Coordinator, ms: seq<PM.Manager>, active: set<nat>, order: seq<nat>, timeId: string)
    requires c.spawned || c.cfg.canSpawn
    requires c.lastWasMatch && !NowMatch(ms, active, order, timeId)
    ensures var motion := MotionCommands(MatchId(c, ms, active, order, Some(timeId)).commands);
      |motion| > 0 && HeadsHome(motion[|motion| - 1])
  {
    var pick := Pick(ms, active, order, timeId);
    if || (c.snapshot.pictureId.Some? && (pick.None? || !Text.EqualsIgnoreCase(c.snapshot.pictureId.value, pick.value.pictureId)))
       || c.snapshot.start.None? || c.snapshot.target.None?
    {
      MatchToNoMatchAbort(c, ms, active, order, timeId);
      MotionOfAbort(c, c.cfg.hasRig);
    } else {
      MatchToNoMatchReverse(c, ms, active, order, timeId);
      MotionOfStopThen(c, c.cfg.hasRig, Run(c.snapshot.timeId, c.snapshot.start.value, c.snapshot.target.value, false));
    }
  }

  /** A not matched -> not matched evaluation ends on a hard return, the only motion command. */
  lemma LastMotionAtRest(c: Coordinator, ms: seq<PM.Manager>, active: set<nat>, order: seq<nat>, timeId: string)
    requires c.spawned || c.cfg.canSpawn
    requires !c.lastWasMatch && !NowMatch(ms, active, order, timeId)
    ensures MotionCommands(MatchId(c, ms, active, order, Some(timeId)).commands) == [HardCancelToFallback]
  {
    NoMatchToNoMatch(c, ms, active, order, timeId);
    MotionOfStopThen(c, c.cfg.hasRig, HardCancelToFallback);
  }

  /** A not matched -> matched evaluation ends on the forward run. */
  lemma LastMotionAfterGain(c: Coordinator, ms: seq<PM.Manager>, active: set<nat>, order: seq<nat>, timeId: string)
    requires c.spawned || c.cfg.canSpawn
    requires !c.lastWasMatch && NowMatch(ms, active, order, timeId)
    ensures var motion := MotionCommands(MatchId(c, ms, active, order, Some(timeId)).commands);
      |motion| > 0 && motion[|motion| - 1].Run? && motion[|motion| - 1].forward
  {
    NoMatchToMatch(c, ms, active, order, timeId);
    var p := Pick(ms, active, order, timeId).value;
    var align := AlignToStart(p.start);
    var run := Run(Some(timeId), p.start, p.target, true);
    MotionAfterSpawn(c, [align, run]);
    assert [align, run] == [align] + [run];
    MotionCommandsAppend([align], [run]);
    MotionSingle(align);
    MotionSingle(run);
  }

  /**
   * Whenever a character exists or can be spawned and ends up not matched, the last command the
   * motion runner receives sends it back towards the fallback point; when it ends up matched
   * after not being matched, the last one is a forward run; a kept match sends nothing.
   */
  lemma LastMotionCommand(c: Coordinator, ms: seq<PM.Manager>, active: set<nat>, order: seq<nat>, timeId: string)
    requires c.spawned || c.cfg.canSpawn
    ensures var r := MatchId(c, ms, active, order, Some(timeId));
      var motion := MotionCommands(r.commands);
      && (!NowMatch(ms, active, order, timeId) ==> |motion| > 0 && HeadsHome(motion[|motion| - 1]))
      && (NowMatch(ms, active, order, timeId) && !c.lastWasMatch ==>
            |motion| > 0 && motion[|motion| - 1].Run? && motion[|motion| - 1].forward)
      && (NowMatch(ms, active, order, timeId) && c.lastWasMatch ==> motion == [])
  {
    if NowMatch(ms, active, order, timeId) {
      if c.lastWasMatch {
        MatchToMatch(c, ms, active, order, timeId);
      } else {
        LastMotionAfterGain(c, ms, active, order, timeId);
      }
    } else if c.lastWasMatch {
      LastMotionAfterLoss(c, ms, active, order, timeId);
    } else {
      LastMotionAtRest(c, ms, active, order, timeId);
    }
  }
}
