/** From PREPARE to the end of a rotation: once every member has completed a PREPARE, every
  * credential is accepted by everyone. */
module RotationSafety {
  import opened Wrappers
  import opened Rotation
  import opened RotationCluster
  import opened RotationOverlap

  // ----- after the PREPARE barrier ---------------------------------------------------

  predicate Moved(s: Creds, j: Journal) {
    j.target in s.accepts && s.pass == s.authPass == j.target
  }

  /** A node whose PREPARE has completed, whatever has happened to it since. */
  predicate Prepared(n: Node, j: Journal) {
    && j.target in n.dataAccepts && n.masterauth == j.target
    && Moved(n.sentinel, j) && Moved(n.conf, j)
    && (n.journal == Some(j) || (n.journal.None? && n.pin == j.target))
  }

  predicate CommandOk(n: Node, j: Journal, c: Command) {
    match c
    case WriteJournal(k) => k == j
    case AclAddData(p) => p == j.target
    case SetMasterauth(p) => p == j.target
    case SetMasterauthAndRequirepass(p) => p == j.target
    case RewriteConfig => n.pin == j.target ==> n.requirepass == j.target
    case AclAddSentinel(_) => true
    case SetSentinelPass(p) => p == j.target
    case SetAuthPass(p) => p == j.target
    case FlushConfig => true
    case RestartSentinelUnlessMoved(k) => k == j && n.pin == j.target
    case FinishVerify(k) => k == j
  }

  ghost predicate Runnable(n: Node, j: Journal, cs: seq<Command>)
    decreases |cs|
  {
    cs == [] || (CommandOk(n, j, cs[0]) && Runnable(Exec(n, cs[0]), j, cs[1..]))
  }

  /** While the servers run, the requirepass in memory never lags behind the pin. */
  ghost predicate PreparedProcess(p: Process, j: Journal) {
    && Prepared(p.node, j)
    && (p.up && p.node.pin == j.target ==> p.node.requirepass == j.target)
    && (p.pending != [] ==> p.up)
    && Runnable(p.node, j, p.pending)
  }

  ghost predicate AllPrepared(c: Cluster, j: Journal) {
    forall x | 0 <= x < |c| :: PreparedProcess(c[x], j)
  }

  /** The only boot that can hurt now: no journal left, a variable that is not the new
    * password, and a live peer and primary that still accept that variable. */
  ghost predicate AdoptsAnotherPassword(c: Cluster, j: Journal, e: Event)
    requires e.i < |c|
  {
    && (e.Restart? || e.Interrupt?) && e.proven
    && c[e.i].node.journal.None? && e.env != j.target
  }

  ghost predicate SafeRun(j: Journal, from: Cluster, events: seq<Event>, to: Cluster)
    decreases |events|
  {
    if events == [] then from == to
    else
      var last := |events| - 1;
      exists mid: Cluster :: SafeRun(j, from, events[..last], mid)
                             && Enabled(mid, events[last]) && !AdoptsAnotherPassword(mid, j, events[last])
                             && to == Apply(j, mid, events[last])
  }

  lemma OperationsAreRunnable(n: Node, j: Journal, op: Operation)
    requires n.pin == j.target ==> n.requirepass == j.target
    ensures Runnable(n, j, Commands(op, j))
  {
    var cs := Commands(op, j);
    if op == Prepare {
      var n4 := Exec(Exec(Exec(Exec(n, cs[0]), cs[1]), cs[2]), cs[3]);
      assert Runnable(Exec(Exec(n4, cs[4]), cs[5]), j, cs[6..]);
      assert Runnable(n4, j, cs[4..]);
      assert Runnable(Exec(Exec(n, cs[0]), cs[1]), j, cs[2..]);
      assert Runnable(Exec(n, cs[0]), j, cs[1..]);
    } else if op == Member {
      var n1 := Exec(n, cs[0]);
      assert Runnable(Exec(n1, cs[1]), j, cs[2..]);
      assert Runnable(n1, j, cs[1..]);
    }
  }

  lemma ReconcileIsRunnable(n: Node, j: Journal, seen: Observed)
    requires Prepared(n, j) && Shows(n, seen) && j.target != ""
    ensures Runnable(n, j, ReconcileCommands(n, seen))
  {
  }

  lemma SafeStepKeepsPrepared(c: Cluster, j: Journal, e: Event)
    requires j.target != "" && Enabled(c, e) && !AdoptsAnotherPassword(c, j, e) && PreparedProcess(c[e.i], j)
    ensures PreparedProcess(Step(j, c[e.i], e), j)
  {
    var p := c[e.i];
    if e.Start? {
      OperationsAreRunnable(p.node, j, e.op);
    } else if e.Tick? {
      ReconcileIsRunnable(p.node, j, e.seen);
    }
  }

  lemma SafeEventKeepsPrepared(c: Cluster, j: Journal, e: Event)
    requires j.target != "" && AllPrepared(c, j) && Enabled(c, e) && !AdoptsAnotherPassword(c, j, e)
    ensures AllPrepared(Apply(j, c, e), j)
  {
    assert PreparedProcess(c[e.i], j);
    SafeStepKeepsPrepared(c, j, e);
  }

  // ----- from PREPARE to the barrier ----------------------------------------------------

  /** How many commands of its current PREPARE member `i` has executed, if it is in one that
    * nothing has interrupted; events of other members fall in between. */
  function Progress(events: seq<Event>, i: nat): Option<nat> {
    if events == [] then None
    else
      var before, e := Progress(events[..|events| - 1], i), events[|events| - 1];
      if e.i != i then before
      else if e.Start? && e.op == Prepare then Some(0)
      else if e.Advance? && before.Some? then Some(before.value + 1)
      else None
  }

  /** Member `i` has executed some PREPARE to its last command. */
  predicate Completed(events: seq<Event>, i: nat) {
    events != [] && (Completed(events[..|events| - 1], i) || Progress(events, i) == Some(8))
  }

  /** What the first `k` commands of PREPARE have made true. */
  predicate Midway(n: Node, j: Journal, k: nat) {
    && (k >= 1 ==> n.journal == Some(j))
    && (k >= 2 ==> j.target in n.dataAccepts)
    && (k >= 3 ==> n.masterauth == j.target)
    && (k >= 5 ==> j.target in n.sentinel.accepts)
    && (k >= 6 ==> n.sentinel.pass == j.target)
    && (k >= 7 ==> n.sentinel.authPass == j.target)
    && (k >= 8 ==> n.conf == n.sentinel)
  }

  lemma CommandMovesMidway(n: Node, j: Journal, k: nat)
    requires k < 8 && Midway(n, j, k)
    ensures Midway(Exec(n, PrepareCommands(j)[k]), j, k + 1)
  {
  }

  predicate AtProgress(p: Process, j: Journal, progress: Option<nat>) {
    progress.Some? ==>
      && progress.value <= 8 && p.up
      && p.pending == PrepareCommands(j)[progress.value..] && Midway(p.node, j, progress.value)
  }

  ghost predicate OnItsWay(p: Process, j: Journal, events: seq<Event>, i: nat) {
    && AtProgress(p, j, Progress(events, i))
    && (Completed(events, i) ==> PreparedProcess(p, j) && p.node.journal == Some(j))
  }

  lemma AdvanceMakesProgress(c: Cluster, j: Journal, e: Event, k: nat)
    requires e.Advance? && Enabled(c, e) && AtProgress(c[e.i], j, Some(k))
    ensures AtProgress(Step(j, c[e.i], e), j, Some(k + 1))
  {
    CommandMovesMidway(c[e.i].node, j, k);
    assert PrepareCommands(j)[k..][1..] == PrepareCommands(j)[k + 1..];
  }

  /** The last command leaves the member prepared. */
  lemma LastCommandPrepares(p: Process, j: Journal)
    requires AtProgress(p, j, Some(8)) && PreparingProcess(p, j)
    ensures PreparedProcess(p, j) && p.node.journal == Some(j)
  {
    assert PrepareCommands(j)[8..] == [];
  }

  lemma JournalStays(c: Cluster, j: Journal, e: Event)
    requires AllPreparing(c, j) && PrepareEvent(c, e) && c[e.i].node.journal == Some(j)
    ensures Step(j, c[e.i], e).node.journal == Some(j)
  {
    assert PreparingProcess(c[e.i], j);
  }

  lemma EventMovesOn(c: Cluster, j: Journal, events: seq<Event>, e: Event, i: nat)
    requires j.target != "" && i < |c| && AllPreparing(c, j) && PrepareEvent(c, e)
    requires OnItsWay(c[i], j, events, i)
    ensures OnItsWay(Apply(j, c, e)[i], j, events + [e], i)
  {
    var progress, all := Progress(events, i), events + [e];
    assert all[..|events|] == events;
    if e.i == i {
      if e.Start? {
        assert PrepareCommands(j)[0..] == PrepareCommands(j);
      } else if e.Advance? && progress.Some? {
        AdvanceMakesProgress(c, j, e, progress.value);
      }
      if Completed(events, i) {
        JournalStays(c, j, e);
        SafeStepKeepsPrepared(c, j, e);
      } else if Progress(all, i) == Some(8) {
        PrepareEventKeeps(c, j, e);
        assert PreparingProcess(Apply(j, c, e)[i], j);
        LastCommandPrepares(Apply(j, c, e)[i], j);
      }
    }
  }

  lemma {:induction false} EveryMemberIsOnItsWay(j: Journal, from: Cluster, events: seq<Event>, to: Cluster, i: nat)
    requires j.target != "" && AllSettled(from, j.current) && i < |from|
    requires PrepareRun(j, from, events, to)
    ensures |to| == |from| && OnItsWay(to[i], j, events, i)
    decreases |events|
  {
    if events != [] {
      var last := |events| - 1;
      var mid: Cluster :| PrepareRun(j, from, events[..last], mid)
                          && PrepareEvent(mid, events[last]) && to == Apply(j, mid, events[last]);
      EveryMemberIsOnItsWay(j, from, events[..last], mid, i);
      PrepareRunKeeps(j, from, events[..last], mid);
      EventMovesOn(mid, j, events[..last], events[last], i);
      assert events[..last] + [events[last]] == events;
    }
  }

  /** The barrier: from a settled cluster, in every run of PREPARE commands, retries, ticks and
    * boots, adopting and dying ones included, once each member has completed a PREPARE at some
    * point, whatever the others were doing meanwhile, every member is prepared, journal and
    * all. */
  lemma PrepareReachesTheBarrier(j: Journal, from: Cluster, events: seq<Event>, to: Cluster)
    requires j.target != "" && AllSettled(from, j.current)
    requires PrepareRun(j, from, events, to) && forall x | 0 <= x < |from| :: Completed(events, x)
    ensures |to| == |from| && AllPrepared(to, j)
    ensures forall x | 0 <= x < |to| :: to[x].node.journal == Some(j)
  {
    PrepareRunKeeps(j, from, events, to);
    forall x | 0 <= x < |from|
      ensures PreparedProcess(to[x], j) && to[x].node.journal == Some(j)
    {
      EveryMemberIsOnItsWay(j, from, events, to, x);
    }
  }

  lemma PreparedMeansAccepted(c: Cluster, j: Journal)
    requires AllPrepared(c, j)
    ensures EveryCredentialAccepted(c)
  {
    assert forall x | 0 <= x < |c| :: PreparedProcess(c[x], j);
  }

  /** Once everyone is prepared, every credential is accepted by everyone in every state
    * reached by any interleaving of operations, retries, ticks and boots. */
  lemma {:induction false} EveryCredentialStaysAccepted(j: Journal, from: Cluster, events: seq<Event>, to: Cluster)
    requires j.target != "" && AllPrepared(from, j) && SafeRun(j, from, events, to)
    ensures AllPrepared(to, j) && EveryCredentialAccepted(to)
    decreases |events|
  {
    if events != [] {
      var last := |events| - 1;
      var mid: Cluster :| SafeRun(j, from, events[..last], mid)
                          && Enabled(mid, events[last]) && !AdoptsAnotherPassword(mid, j, events[last])
                          && to == Apply(j, mid, events[last]);
      EveryCredentialStaysAccepted(j, from, events[..last], mid);
      SafeEventKeepsPrepared(mid, j, events[last]);
    }
    PreparedMeansAccepted(to, j);
  }

  /** And a boot breaks it exactly when it adopts another password; one that dies on the way
    * breaks it by the next boot at the latest. */
  lemma BootKeepsAcceptanceIff(c: Cluster, j: Journal, e: Event)
    requires j.target != "" && |c| >= 2 && AllPrepared(c, j) && Enabled(c, e) && (e.Restart? || e.Interrupt?)
    ensures var after := Apply(j, c, e);
            EveryCredentialAccepted(after) && EveryCredentialAccepted(Reboot(after, e.i))
            <==> !AdoptsAnotherPassword(c, j, e)
    ensures e.Restart? ==> (EveryCredentialAccepted(Apply(j, c, e)) <==> !AdoptsAnotherPassword(c, j, e))
  {
    var after := Apply(j, c, e);
    var later := Reboot(after, e.i);
    if !AdoptsAnotherPassword(c, j, e) {
      SafeEventKeepsPrepared(c, j, e);
      PreparedMeansAccepted(after, j);
      SafeEventKeepsPrepared(after, j, Restart(e.i, "", false));
      assert later == Apply(j, after, Restart(e.i, "", false));
      PreparedMeansAccepted(later, j);
    } else {
      var y := if e.i == 0 then 1 else 0;
      assert PreparedProcess(c[y], j);
      assert after[y] == later[y] == c[y] && later[e.i].node.dataAccepts == {e.env};
      assert e.Restart? ==> after[e.i].node.dataAccepts == {e.env};
    }
  }

  // ----- the protocol's own order: VERIFY after every MEMBER ---------------------------

  /** MEMBER's data half is done here for good. */
  predicate Done(n: Node, j: Journal) {
    n.pin == n.requirepass == j.target && n.dataAccepts == {j.target}
  }

  ghost predicate AllDone(c: Cluster, j: Journal) {
    forall x | 0 <= x < |c| :: Done(c[x].node, j)
  }

  /** An event that would drop a journal comes only once every member is done. */
  ghost predicate AtBarrier(c: Cluster, j: Journal, e: Event)
    requires e.i < |c|
  {
    c[e.i].node.journal.Some? && Step(j, c[e.i], e).node.journal.None? ==> AllDone(c, j)
  }

  ghost predicate BarrierRun(j: Journal, from: Cluster, events: seq<Event>, to: Cluster)
    decreases |events|
  {
    if events == [] then from == to
    else
      var last := |events| - 1;
      exists mid: Cluster :: BarrierRun(j, from, events[..last], mid)
                             && Enabled(mid, events[last]) && AtBarrier(mid, j, events[last])
                             && to == Apply(j, mid, events[last])
  }

  ghost predicate BarrierInv(c: Cluster, j: Journal) {
    && AllPrepared(c, j)
    && forall x | 0 <= x < |c| :: c[x].node.journal.None? ==> AllDone(c, j)
  }

  /** With every member done, no live node accepts anything but the new password. */
  lemma NothingElseIsProven(c: Cluster, j: Journal, e: Event)
    requires BarrierInv(c, j) && Enabled(c, e)
    ensures !AdoptsAnotherPassword(c, j, e)
  {
  }

  lemma DoneStaysDone(c: Cluster, j: Journal, e: Event)
    requires j.target != "" && AllPrepared(c, j) && AllDone(c, j) && Enabled(c, e) && !AdoptsAnotherPassword(c, j, e)
    ensures AllDone(Apply(j, c, e), j)
  {
    assert PreparedProcess(c[e.i], j) && Done(c[e.i].node, j);
    assert Done(Step(j, c[e.i], e).node, j);
  }

  /** In the protocol's order the promise holds unconditionally. */
  lemma {:induction false} BarrierOrderKeepsAcceptance(j: Journal, from: Cluster, events: seq<Event>, to: Cluster)
    requires j.target != "" && BarrierInv(from, j) && BarrierRun(j, from, events, to)
    ensures BarrierInv(to, j) && EveryCredentialAccepted(to)
    decreases |events|
  {
    if events != [] {
      var last := |events| - 1;
      var mid: Cluster :| BarrierRun(j, from, events[..last], mid)
                          && Enabled(mid, events[last]) && AtBarrier(mid, j, events[last])
                          && to == Apply(j, mid, events[last]);
      var e := events[last];
      BarrierOrderKeepsAcceptance(j, from, events[..last], mid);
      NothingElseIsProven(mid, j, e);
      SafeEventKeepsPrepared(mid, j, e);
      if AllDone(mid, j) {
        DoneStaysDone(mid, j, e);
      }
    }
    PreparedMeansAccepted(to, j);
  }

  /** The whole rotation, from a settled cluster: once every member has completed a PREPARE,
    * whatever interleaving of MEMBER, VERIFY, ticks, retries and boots follows, short of a
    * boot that adopts a third password, every credential is accepted by everyone. */
  lemma RotationKeepsAcceptance(j: Journal, from: Cluster, preparing: seq<Event>, mid: Cluster, events: seq<Event>,
                                to: Cluster)
    requires j.target != "" && AllSettled(from, j.current)
    requires PrepareRun(j, from, preparing, mid) && forall x | 0 <= x < |from| :: Completed(preparing, x)
    requires SafeRun(j, mid, events, to)
    ensures EveryCredentialAccepted(mid) && EveryCredentialAccepted(to)
  {
    PrepareReachesTheBarrier(j, from, preparing, mid);
    PreparedMeansAccepted(mid, j);
    EveryCredentialStaysAccepted(j, mid, events, to);
  }

  /** And with VERIFY held back until every MEMBER is done, whatever the variables say. */
  lemma OrderedRotationKeepsAcceptance(j: Journal, from: Cluster, preparing: seq<Event>, mid: Cluster,
                                       events: seq<Event>, to: Cluster)
    requires j.target != "" && AllSettled(from, j.current)
    requires PrepareRun(j, from, preparing, mid) && forall x | 0 <= x < |from| :: Completed(preparing, x)
    requires BarrierRun(j, mid, events, to)
    ensures EveryCredentialAccepted(to)
  {
    PrepareReachesTheBarrier(j, from, preparing, mid);
    BarrierOrderKeepsAcceptance(j, mid, events, to);
  }

  /** The shape a member of an ordinary cluster has after MEMBER. */
  lemma MemberNode(n: Node, j: Journal)
    requires n.journal == Some(j) && j.current in n.sentinel.accepts && j.current != j.target
    ensures var t := j.target;
            ExecAll(n, MemberCommands(j)) == Node({t}, t, t, t, Some(j), RewrittenConf(t), RewrittenConf(t))
  {
    var t := j.target;
    ExecSnoc(n, [SetMasterauthAndRequirepass(t), RewriteConfig], RestartSentinelUnlessMoved(j));
    ExecSnoc(n, [SetMasterauthAndRequirepass(t)], RewriteConfig);
    ExecSnoc(n, [], SetMasterauthAndRequirepass(t));
    assert [] + [SetMasterauthAndRequirepass(t)] == [SetMasterauthAndRequirepass(t)];
    assert [SetMasterauthAndRequirepass(t)] + [RewriteConfig] == [SetMasterauthAndRequirepass(t), RewriteConfig];
    assert [SetMasterauthAndRequirepass(t), RewriteConfig] + [RestartSentinelUnlessMoved(j)] == MemberCommands(j);
  }

  /** Out of that order it can fail: one member verified while the other still accepts the
    * old password, then a restart of the first with a variable that still carries it. */
  lemma VerifyBeforeTheLastMemberCanStrand(j: Journal)
    requires j.current != j.target
    ensures var prepared := ExecAll(Settled(j.current), PrepareCommands(j));
            var verified := Exec(ExecAll(prepared, MemberCommands(j)), FinishVerify(j));
            var c := [Process(verified, [], true), Process(prepared, [], true)];
            && EveryCredentialAccepted(c)
            && Enabled(c, Restart(0, j.current, true))
            && !EveryCredentialAccepted(Apply(j, c, Restart(0, j.current, true)))
  {
    PreparedNode(j);
    var prepared := ExecAll(Settled(j.current), PrepareCommands(j));
    MemberNode(prepared, j);
    var verified := Exec(ExecAll(prepared, MemberCommands(j)), FinishVerify(j));
    assert verified.journal.None? && verified.pin == j.target;
    var c := [Process(verified, [], true), Process(prepared, [], true)];
    assert c[1].up && j.current in c[1].node.sentinel.accepts && j.current in c[1].node.dataAccepts;
    assert ProbeSucceeds(c, 0, j.current);
    var after := Apply(j, c, Restart(0, j.current, true));
    assert after[0].node.dataAccepts == {j.current} && after[1].node.masterauth == j.target;
  }
}
