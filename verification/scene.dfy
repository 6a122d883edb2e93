/**
 * The picture managers, the shared set of active managers and the match coordinator put
 * together. Each handler of a picture manager is modelled here with its effects on that set and
 * its calls into the coordinator, in the order the handler performs them. The loss timer is a
 * deadline: `Tick(now)` stands for the frame on which the delayed teardown would resume.
 */
module Scene {
  import opened Wrappers
  import Text
  import PM = PictureManager
  import TT = TongTongManager

  datatype Scene = Scene(managers: seq<PM.Manager>, active: set<nat>, coordinator: TT.Coordinator)

  /** The scene after a handler, and every command the coordinator issued during it. */
  datatype Step = Step(scene: Scene, commands: seq<TT.Command>)

  /** Both live ends of a pair belong to manager `i`. */
  predicate Owned(p: PM.Pair, i: nat) {
    && (p.start.Some? ==> p.start.value.owner == i)
    && (p.target.Some? ==> p.target.value.owner == i)
  }

  /** What holds of manager `i` between handler calls. */
  predicate ManagerInv(m: PM.Manager, i: nat, active: set<nat>) {
    // manager i owns its anchors: no two managers share an anchor object
    && m.cfg.id == i
    && (forall k :: k in m.pairs ==> Owned(m.pairs[k], i))
    && m.orderedSpotIds == PM.OrderedSpotIds(m.cfg.spotIds)
    && m.currentSpotId != ""
    // an armed loss timer means the manager is untracked
    && (m.lossDeadline.Some? ==> !m.tracked)
    // a tracked manager is active, and every configured spot has its pair entry
    && (m.tracked ==> i in active)
    && (m.tracked ==> forall x :: x in m.orderedSpotIds ==> Text.Fold(x) in m.pairs)
    && (m.tracked && |m.orderedSpotIds| > 0 ==> Text.Fold(m.currentSpotId) in m.pairs)
    // untracked with no timer pending: fully torn down
    && (!m.tracked && m.lossDeadline.None? ==> i !in active && m.pairs == map[] && m.currentSpotId == PM.NoSpot)
  }

  predicate Inv(s: Scene) {
    && (forall i :: i in s.active ==> i < |s.managers|)
    && (forall i :: 0 <= i < |s.managers| ==> ManagerInv(s.managers[i], i, s.active))
    && TT.Inv(s.coordinator)
  }

  /** `order` enumerates every manager (the active set's enumeration order is its restriction). */
  predicate Covers(order: seq<nat>, s: Scene) {
    forall i :: 0 <= i < |s.managers| ==> i in order
  }

  // ---------------------------------------------------------------------------
  // Start-up
  // ---------------------------------------------------------------------------

  /**
   * Creates the managers, each identified by its index, and starts the coordinator; nothing is
   * tracked yet.
   */
  function Initial(cfgs: seq<PM.Config>, tcfg: TT.Config): (r: Step)
    ensures Inv(r.scene)
    ensures r.scene.active == {} && |r.scene.managers| == |cfgs|
    ensures forall i :: 0 <= i < |cfgs| ==> r.scene.managers[i] == PM.Create(cfgs[i].(id := i))
    ensures r == (var st := TT.Start(TT.Initial(tcfg)); Step(r.scene.(coordinator := st.coordinator), st.commands))
  {
    var ms := seq(|cfgs|, i requires 0 <= i < |cfgs| => PM.Create(cfgs[i].(id := i)));
    var st := TT.Start(TT.Initial(tcfg));
    Step(Scene(ms, {}, st.coordinator), st.commands)
  }

  // ---------------------------------------------------------------------------
  // Handlers
  // ---------------------------------------------------------------------------

  /** A schedule poll or any other direct call of `MatchId`. */
  function Match(s: Scene, order: seq<nat>, clock: Option<string>): (r: Step)
    requires Inv(s) && Covers(order, s)
    ensures Inv(r.scene)
    ensures r.scene.managers == s.managers && r.scene.active == s.active
  {
    var t := TT.MatchId(s.coordinator, s.managers, s.active, order, clock);
    Step(s.(coordinator := t.coordinator), t.commands)
  }

  /**
   * The delayed teardown of manager `i`: if it is still untracked, its spot becomes "none", it
   * leaves the active set, the coordinator re-evaluates, and only then are its pairs destroyed.
   */
  function Expire(s: Scene, i: nat, order: seq<nat>, clock: Option<string>): (r: Step)
    requires i < |s.managers|
    ensures |r.scene.managers| == |s.managers|
    ensures forall j :: 0 <= j < |s.managers| && j != i ==> r.scene.managers[j] == s.managers[j]
    ensures s.managers[i].tracked ==> r == Step(s.(managers := s.managers[i := PM.ExpireSpot(s.managers[i])]), [])
    // still untracked: the coordinator re-evaluates with manager i showing "none" and out of the
    // active set, and only afterwards are its pairs destroyed
    ensures !s.managers[i].tracked ==>
      var m1 := PM.ExpireSpot(s.managers[i]);
      var t := TT.MatchId(s.coordinator, s.managers[i := m1], s.active - {i}, order, clock);
      && m1.currentSpotId == PM.NoSpot && m1.lossDeadline.None?
      && r.scene.active == s.active - {i}
      && r.scene.managers[i] == PM.DespawnPairs(m1)
      && r.scene.coordinator == t.coordinator && r.commands == t.commands
  {
    var m := s.managers[i];
    if m.tracked then Step(s.(managers := s.managers[i := PM.ExpireSpot(m)]), [])
    else
      var m1 := PM.ExpireSpot(m);
      var t := TT.MatchId(s.coordinator, s.managers[i := m1], s.active - {i}, order, clock);
      Step(Scene(s.managers[i := PM.DespawnPairs(m1)], s.active - {i}, t.coordinator), t.commands)
  }

  /**
   * The vision system's status report for manager `i` at time `now`. Reports that do not change
   * the verdict are ignored. Becoming tracked cancels the timer, respawns the pairs, selects the
   * default spot, joins the active set and re-evaluates the match. Losing tracking arms the
   * timer; with a delay of 0 or less the teardown happens within the same call.
   */
  function OnTargetStatusChanged(s: Scene, i: nat, status: PM.Status, now: real,
                                 order: seq<nat>, clock: Option<string>): (r: Step)
    requires Inv(s) && Covers(order, s) && i < |s.managers|
    ensures Inv(r.scene)
    ensures |r.scene.managers| == |s.managers|
    ensures PM.IsConsideredTracked(s.managers[i].cfg, status) == s.managers[i].tracked ==> r == Step(s, [])
    ensures r.scene.managers[i].tracked == PM.IsConsideredTracked(s.managers[i].cfg, status)
    ensures forall j :: 0 <= j < |s.managers| && j != i ==> r.scene.managers[j] == s.managers[j]
  {
    var m := s.managers[i];
    var nowTracked := PM.IsConsideredTracked(m.cfg, status);
    if nowTracked == m.tracked then Step(s, [])
    else if nowTracked then
      var s1 := s.(managers := s.managers[i := PM.Acquire(m)], active := s.active + {i});
      AcquireKeepsInv(s, i);
      var t := TT.MatchId(s1.coordinator, s1.managers, s1.active, order, clock);
      Step(s1.(coordinator := t.coordinator), t.commands)
    else
      var s1 := s.(managers := s.managers[i := PM.Lose(m, now)]);
      if m.cfg.lostClearDelaySeconds > 0.0 then Step(s1, [])
      else
        var r := Expire(s1, i, order, clock);
        ExpireKeepsInv(s1, i, order, clock);
        r
  }

  /** A freshly acquired manager satisfies its invariant once it is in the active set. */
  lemma AcquiredManagerInv(m: PM.Manager, i: nat, active: set<nat>)
    requires m.cfg.id == i
    requires m.orderedSpotIds == PM.OrderedSpotIds(m.cfg.spotIds)
    requires i in active
    ensures ManagerInv(PM.Acquire(m), i, active)
  {
    var m1 := PM.Acquire(m);
    PM.PairsMatchOrdered(m.cfg.spotIds, m.cfg.id, m.generation + 1);
    PM.AcquireSelectsLiveSpot(m);
    if |m1.orderedSpotIds| > 0 {
      assert PM.TryGetLivePair(m1).Some?;
    }
  }

  /** Replacing one manager keeps the scene invariant when the new one keeps its own. */
  lemma UpdateKeepsInv(s: Scene, i: nat, m1: PM.Manager, active: set<nat>)
    requires Inv(s) && i < |s.managers|
    requires ManagerInv(m1, i, active)
    requires forall j :: j in active ==> j < |s.managers|
    requires forall j :: j != i ==> (j in active <==> j in s.active)
    ensures Inv(Scene(s.managers[i := m1], active, s.coordinator))
  {
    var ms := s.managers[i := m1];
    forall j | 0 <= j < |ms|
      ensures ManagerInv(ms[j], j, active)
    {
      if j != i {
        assert ms[j] == s.managers[j];
        assert ManagerInv(s.managers[j], j, s.active);
      }
    }
  }

  lemma AcquireKeepsInv(s: Scene, i: nat)
    requires Inv(s) && i < |s.managers|
    ensures Inv(s.(managers := s.managers[i := PM.Acquire(s.managers[i])], active := s.active + {i}))
  {
    AcquiredManagerInv(s.managers[i], i, s.active + {i});
    UpdateKeepsInv(s, i, PM.Acquire(s.managers[i]), s.active + {i});
  }

  /** Time passes for manager `i`: a due loss timer fires. */
  function Tick(s: Scene, i: nat, now: real, order: seq<nat>, clock: Option<string>): (r: Step)
    requires Inv(s) && Covers(order, s) && i < |s.managers|
    ensures Inv(r.scene)
    ensures |r.scene.managers| == |s.managers|
    ensures !PM.TimerDue(s.managers[i], now) ==> r == Step(s, [])
    // a due timer always finds the manager untracked: it is torn down and the coordinator told
    ensures PM.TimerDue(s.managers[i], now) ==>
      var t := TT.MatchId(s.coordinator, s.managers[i := PM.ExpireSpot(s.managers[i])], s.active - {i}, order, clock);
      && r.scene.coordinator == t.coordinator && r.commands == t.commands
      && i !in r.scene.active && r.scene.managers[i].currentSpotId == PM.NoSpot
      && r.scene.managers[i].pairs == map[]
  {
    if PM.TimerDue(s.managers[i], now) then
      ExpireKeepsInv(s, i, order, clock);
      Expire(s, i, order, clock)
    else Step(s, [])
  }

  lemma ExpireKeepsInv(s: Scene, i: nat, order: seq<nat>, clock: Option<string>)
    requires i < |s.managers| && s.managers[i].lossDeadline.Some?
    requires forall j :: j in s.active ==> j < |s.managers|
    requires forall j :: 0 <= j < |s.managers| && j != i ==> ManagerInv(s.managers[j], j, s.active)
    requires TT.Inv(s.coordinator)
    requires ManagerInv(s.managers[i].(lossDeadline := None, currentSpotId := PM.NoSpot, pairs := map[]), i, s.active - {i})
    requires !s.managers[i].tracked
    ensures var r := Expire(s, i, order, clock);
      && Inv(r.scene)
      && |r.scene.managers| == |s.managers|
      && r.scene.managers[i].currentSpotId == PM.NoSpot
      && r.scene.managers[i].pairs == map[]
      && r.scene.managers[i].lossDeadline.None?
      && !r.scene.managers[i].tracked
      && r.scene.active == s.active - {i}
      && forall j :: 0 <= j < |s.managers| && j != i ==> r.scene.managers[j] == s.managers[j]
    ensures var r := Expire(s, i, order, clock);
      var t := TT.MatchId(s.coordinator, s.managers[i := PM.ExpireSpot(s.managers[i])], s.active - {i}, order, clock);
      r.scene.coordinator == t.coordinator && r.commands == t.commands
  {
    var r := Expire(s, i, order, clock);
    forall j | 0 <= j < |s.managers| && j != i
      ensures ManagerInv(r.scene.managers[j], j, r.scene.active)
    {
      assert ManagerInv(s.managers[j], j, s.active);
    }
  }

  /** The user (or other logic) picks spot `spotId` on manager `i`. */
  function SetActiveSpotId(s: Scene, i: nat, spotId: string, order: seq<nat>, clock: Option<string>): (r: Step)
    requires Inv(s) && Covers(order, s) && i < |s.managers|
    ensures Inv(r.scene)
    ensures var (m1, triggered) := PM.SetActiveSpotId(s.managers[i], spotId);
      && (!triggered ==> r == Step(s, []))
      && (triggered ==>
            var t := TT.MatchId(s.coordinator, s.managers[i := m1], s.active, order, clock);
            r == Step(Scene(s.managers[i := m1], s.active, t.coordinator), t.commands))
  {
    var (m1, triggered) := PM.SetActiveSpotId(s.managers[i], spotId);
    if !triggered then Step(s, [])
    else
      var s1 := s.(managers := s.managers[i := m1]);
      assert ManagerInv(m1, i, s.active);
      UpdateKeepsInv(s, i, m1, s.active);
      Match(s1, order, clock)
  }

  /** The user (or other logic) moves manager `i` to its next spot. */
  function CycleNextSpot(s: Scene, i: nat, order: seq<nat>, clock: Option<string>): (r: Step)
    requires Inv(s) && Covers(order, s) && i < |s.managers|
    ensures Inv(r.scene)
    ensures var (m1, triggered) := PM.CycleNextSpot(s.managers[i]);
      && (!triggered ==> r == Step(s, []))
      && (triggered ==>
            var t := TT.MatchId(s.coordinator, s.managers[i := m1], s.active, order, clock);
            r == Step(Scene(s.managers[i := m1], s.active, t.coordinator), t.commands))
  {
    var (m1, triggered) := PM.CycleNextSpot(s.managers[i]);
    if !triggered then Step(s, [])
    else
      var s1 := s.(managers := s.managers[i := m1]);
      assert ManagerInv(m1, i, s.active);
      UpdateKeepsInv(s, i, m1, s.active);
      Match(s1, order, clock)
  }

  // ---------------------------------------------------------------------------
  // Objects destroyed from outside
  // ---------------------------------------------------------------------------

  function Kill(o: Option<PM.Node>, dead: set<PM.Node>): (r: Option<PM.Node>)
    ensures r.Some? <==> o.Some? && o.value !in dead
    ensures r.Some? ==> r == o
  {
    if o.Some? && o.value in dead then None else o
  }

  function KillPairs(pairs: map<string, PM.Pair>, dead: set<PM.Node>): (r: map<string, PM.Pair>)
    ensures r.Keys == pairs.Keys
  {
    map k | k in pairs :: PM.Pair(Kill(pairs[k].start, dead), Kill(pairs[k].target, dead))
  }

  /**
   * Anchor objects in `dead` are destroyed by something outside the model: every reference to
   * them, in the pair maps and in the coordinator's snapshot, now reads as null.
   */
  function DestroyNodes(s: Scene, dead: set<PM.Node>): (r: Scene)
    requires Inv(s)
    ensures Inv(r)
    ensures r.active == s.active && |r.managers| == |s.managers|
    ensures forall i :: 0 <= i < |s.managers| ==> r.managers[i].pairs.Keys == s.managers[i].pairs.Keys
  {
    var ms := seq(|s.managers|, i requires 0 <= i < |s.managers| =>
      s.managers[i].(pairs := KillPairs(s.managers[i].pairs, dead)));
    var snap := s.coordinator.snapshot;
    var c := s.coordinator.(snapshot := snap.(start := Kill(snap.start, dead), target := Kill(snap.target, dead)));
    var r := Scene(ms, s.active, c);
    assert forall i :: 0 <= i < |s.managers| ==> ManagerInv(s.managers[i], i, s.active);
    r
  }

  // ---------------------------------------------------------------------------
  // Debouncing
  // ---------------------------------------------------------------------------

  /**
   * Losing tracking with a positive delay changes only the verdict and the timer: the spot, the
   * pairs and the active set stay, and the coordinator is not called.
   */
  lemma LossIsDeferred(s: Scene, i: nat, status: PM.Status, now: real, order: seq<nat>, clock: Option<string>)
    requires Inv(s) && Covers(order, s) && i < |s.managers|
    requires s.managers[i].tracked && !PM.IsConsideredTracked(s.managers[i].cfg, status)
    requires s.managers[i].cfg.lostClearDelaySeconds > 0.0
    ensures var r := OnTargetStatusChanged(s, i, status, now, order, clock);
      var m := s.managers[i];
      && r.commands == []
      && r.scene.active == s.active && r.scene.coordinator == s.coordinator
      && r.scene.managers == s.managers[i := m.(tracked := false, lossDeadline := Some(now + m.cfg.lostClearDelaySeconds))]
  {
  }

  /** A timer that is not yet due does nothing: within the grace window nothing is torn down. */
  lemma WithinGraceNothingHappens(s: Scene, i: nat, now: real, order: seq<nat>, clock: Option<string>)
    requires Inv(s) && Covers(order, s) && i < |s.managers|
    requires s.managers[i].lossDeadline.Some? && now < s.managers[i].lossDeadline.value
    ensures Tick(s, i, now, order, clock) == Step(s, [])
  {
  }

  /**
   * Loss at t0 and recovery before t0 + delay: the manager is never torn down; it stays active
   * throughout and ends tracked with its timer cancelled.
   */
  lemma FlickerWithinGrace(s: Scene, i: nat, lost: PM.Status, back: PM.Status, t0: real, t1: real,
                           order: seq<nat>, clock: Option<string>)
    requires Inv(s) && Covers(order, s) && i < |s.managers|
    requires s.managers[i].tracked
    requires !PM.IsConsideredTracked(s.managers[i].cfg, lost) && PM.IsConsideredTracked(s.managers[i].cfg, back)
    requires s.managers[i].cfg.lostClearDelaySeconds > 0.0
    requires t1 < t0 + s.managers[i].cfg.lostClearDelaySeconds
    ensures var r1 := OnTargetStatusChanged(s, i, lost, t0, order, clock);
      var r2 := Tick(r1.scene, i, t1, order, clock);
      var r3 := OnTargetStatusChanged(r2.scene, i, back, t1, order, clock);
      && r1.commands == [] && r2 == Step(r1.scene, [])
      && i in r1.scene.active && i in r3.scene.active
      && r3.scene.managers[i].tracked && r3.scene.managers[i].lossDeadline.None?
  {
    LossIsDeferred(s, i, lost, t0, order, clock);
  }

  /**
   * Loss at t0 and no recovery by t1 >= t0 + delay: the tick tears the manager down — spot
   * "none", out of the active set, no pairs, no timer.
   */
  lemma LossAfterGraceTearsDown(s: Scene, i: nat, lost: PM.Status, t0: real, t1: real,
                                order: seq<nat>, clock: Option<string>)
    requires Inv(s) && Covers(order, s) && i < |s.managers|
    requires s.managers[i].tracked && !PM.IsConsideredTracked(s.managers[i].cfg, lost)
    requires s.managers[i].cfg.lostClearDelaySeconds > 0.0
    requires t1 >= t0 + s.managers[i].cfg.lostClearDelaySeconds
    ensures var r1 := OnTargetStatusChanged(s, i, lost, t0, order, clock);
      var r2 := Tick(r1.scene, i, t1, order, clock);
      var m := r2.scene.managers[i];
      var t := TT.MatchId(s.coordinator, r1.scene.managers[i := PM.ExpireSpot(r1.scene.managers[i])],
                          s.active - {i}, order, clock);
      && !m.tracked && m.currentSpotId == PM.NoSpot && m.pairs == map[] && m.lossDeadline.None?
      && i !in r2.scene.active
      && r2.scene.coordinator == t.coordinator && r2.commands == t.commands
  {
    LossIsDeferred(s, i, lost, t0, order, clock);
    var r1 := OnTargetStatusChanged(s, i, lost, t0, order, clock);
    ExpireKeepsInv(r1.scene, i, order, clock);
  }

  /** With a delay of 0 or less, losing tracking tears the manager down within the same call. */
  lemma ZeroDelayTearsDownAtOnce(s: Scene, i: nat, lost: PM.Status, now: real, order: seq<nat>, clock: Option<string>)
    requires Inv(s) && Covers(order, s) && i < |s.managers|
    requires s.managers[i].tracked && !PM.IsConsideredTracked(s.managers[i].cfg, lost)
    requires s.managers[i].cfg.lostClearDelaySeconds <= 0.0
    ensures var r := OnTargetStatusChanged(s, i, lost, now, order, clock);
      var m := r.scene.managers[i];
      var t := TT.MatchId(s.coordinator, s.managers[i := PM.ExpireSpot(PM.Lose(s.managers[i], now))],
                          s.active - {i}, order, clock);
      && !m.tracked && m.currentSpotId == PM.NoSpot && m.pairs == map[] && m.lossDeadline.None?
      && i !in r.scene.active
      && r.scene.coordinator == t.coordinator && r.commands == t.commands
  {
    var m1 := PM.Lose(s.managers[i], now);
    var s1 := s.(managers := s.managers[i := m1]);
    assert OnTargetStatusChanged(s, i, lost, now, order, clock) == Expire(s1, i, order, clock);
    assert s1.managers[i := PM.ExpireSpot(s1.managers[i])] == s.managers[i := PM.ExpireSpot(m1)];
    ExpireKeepsInv(s1, i, order, clock);
  }

  /**
   * Losing, past the grace window, the only manager that matched the schedule id sends the
   * character home: the re-evaluation made on expiry finds no match, and the last command the
   * motion runner receives is a hard return or the reverse run.
   */
  lemma LosingOnlyMatchSendsHome(s: Scene, i: nat, lost: PM.Status, t0: real, t1: real,
                                 order: seq<nat>, timeId: string)
    requires Inv(s) && Covers(order, s) && i < |s.managers|
    requires s.managers[i].tracked && !PM.IsConsideredTracked(s.managers[i].cfg, lost)
    requires s.managers[i].cfg.lostClearDelaySeconds > 0.0
    requires t1 >= t0 + s.managers[i].cfg.lostClearDelaySeconds
    requires s.coordinator.lastWasMatch && (s.coordinator.spawned || s.coordinator.cfg.canSpawn)
    requires forall j :: 0 <= j < |s.managers| && j != i ==> !TT.ExactCandidate(s.managers, s.active, j, timeId)
    ensures var r1 := OnTargetStatusChanged(s, i, lost, t0, order, Some(timeId));
      var r2 := Tick(r1.scene, i, t1, order, Some(timeId));
      var motion := TT.MotionCommands(r2.commands);
      && !r2.scene.coordinator.lastWasMatch
      && |motion| > 0 && TT.HeadsHome(motion[|motion| - 1])
  {
    LossIsDeferred(s, i, lost, t0, order, Some(timeId));
    var r1 := OnTargetStatusChanged(s, i, lost, t0, order, Some(timeId));
    ExpireKeepsInv(r1.scene, i, order, Some(timeId));
    var ms := r1.scene.managers[i := PM.ExpireSpot(r1.scene.managers[i])];
    var active := s.active - {i};
    forall k | 0 <= k < |order|
      ensures !TT.ExactCandidate(ms, active, order[k], timeId)
    {
      var j := order[k];
      if j != i && j < |ms| {
        assert ms[j] == s.managers[j];
        assert !TT.ExactCandidate(s.managers, s.active, j, timeId);
      }
    }
    TT.NowMatchIff(ms, active, order, timeId);
    TT.LastMotionAfterLoss(s.coordinator, ms, active, order, timeId);
  }

  /** Destroying anchors of manager `i` only leaves every other manager exactly as it was. */
  lemma DestroyOneManagersAnchors(s: Scene, i: nat, dead: set<PM.Node>)
    requires Inv(s)
    requires forall n :: n in dead ==> n.owner == i
    ensures forall j :: 0 <= j < |s.managers| && j != i ==> DestroyNodes(s, dead).managers[j] == s.managers[j]
  {
    var r := DestroyNodes(s, dead);
    forall j | 0 <= j < |s.managers| && j != i
      ensures r.managers[j] == s.managers[j]
    {
      var m := s.managers[j];
      assert ManagerInv(m, j, s.active);
      forall k | k in m.pairs
        ensures KillPairs(m.pairs, dead)[k] == m.pairs[k]
      {
        assert Owned(m.pairs[k], j);
      }
      assert KillPairs(m.pairs, dead) == m.pairs;
    }
  }

  /**
   * Becoming tracked leaves the manager with a live pair for its current spot whenever it has a
   * spot configured, and the coordinator is then re-evaluated with the manager active.
   */
  lemma AcquireMakesLive(s: Scene, i: nat, status: PM.Status, now: real, order: seq<nat>, clock: Option<string>)
    requires Inv(s) && Covers(order, s) && i < |s.managers|
    requires !s.managers[i].tracked && PM.IsConsideredTracked(s.managers[i].cfg, status)
    ensures var r := OnTargetStatusChanged(s, i, status, now, order, clock);
      var m1 := PM.Acquire(s.managers[i]);
      && r.scene.managers == s.managers[i := m1]
      && r.scene.active == s.active + {i}
      && (|m1.orderedSpotIds| > 0 ==> PM.TryGetLivePair(m1).Some?)
      && r == Step(Scene(s.managers[i := m1], s.active + {i},
                         TT.MatchId(s.coordinator, s.managers[i := m1], s.active + {i}, order, clock).coordinator),
                   TT.MatchId(s.coordinator, s.managers[i := m1], s.active + {i}, order, clock).commands)
  {
    PM.AcquireSelectsLiveSpot(s.managers[i]);
  }
}
