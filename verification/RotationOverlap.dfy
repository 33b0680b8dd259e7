/** PREPARE over a whole cluster: in which runs every two Sentinels can authenticate in at
  * least one direction, now and after any members restart, and which boots end that. */
module RotationOverlap {
  import opened Wrappers
  import opened Rotation
  import opened RotationCluster

  // ----- what every event keeps of one member ------------------------------------------

  /** A Sentinel that accepts the password it dials with, and none but the two. */
  predicate Known(s: Creds, j: Journal) {
    s.pass in s.accepts && s.accepts <= {j.current, j.target}
  }

  predicate InPrepare(n: Node, j: Journal) {
    && Known(n.sentinel, j) && Known(n.conf, j)
    && n.pin in {j.current, j.target} && (n.journal.Some? ==> n.journal == Some(j))
  }

  /** Commands that keep `InPrepare`, given what has already been executed. */
  predicate PrepareCommandOk(n: Node, j: Journal, c: Command) {
    match c
    case WriteJournal(k) => k == j
    case AclAddData(_) => true
    case SetMasterauth(_) => true
    case RewriteConfig => n.requirepass == n.pin
    case AclAddSentinel(p) => p in {j.current, j.target}
    case SetSentinelPass(p) => p in n.sentinel.accepts
    case SetAuthPass(_) => true
    case FlushConfig => true
    case _ => false
  }

  /** The rest of an operation may run to any point from here. */
  ghost predicate PrepareRunnable(n: Node, j: Journal, cs: seq<Command>)
    decreases |cs|
  {
    cs == [] || (PrepareCommandOk(n, j, cs[0]) && PrepareRunnable(Exec(n, cs[0]), j, cs[1..]))
  }

  ghost predicate PreparingProcess(p: Process, j: Journal) {
    && InPrepare(p.node, j) && PrepareRunnable(p.node, j, p.pending)
    && (p.up ==> p.node.requirepass == p.node.pin) && (p.pending != [] ==> p.up)
  }

  ghost predicate AllPreparing(c: Cluster, j: Journal) {
    forall x | 0 <= x < |c| :: PreparingProcess(c[x], j)
  }

  lemma PrepareIsRunnable(n: Node, j: Journal)
    requires n.requirepass == n.pin
    ensures PrepareRunnable(n, j, PrepareCommands(j))
  {
    var cs := PrepareCommands(j);
    var n4 := Exec(Exec(Exec(Exec(n, cs[0]), cs[1]), cs[2]), cs[3]);
    var n6 := Exec(Exec(n4, cs[4]), cs[5]);
    assert PrepareRunnable(Exec(n6, cs[6]), j, cs[7..]);
    assert PrepareRunnable(n6, j, cs[6..]);
    assert PrepareRunnable(Exec(n4, cs[4]), j, cs[5..]);
    assert PrepareRunnable(n4, j, cs[4..]);
    assert PrepareRunnable(Exec(Exec(n, cs[0]), cs[1]), j, cs[2..]);
    assert PrepareRunnable(Exec(n, cs[0]), j, cs[1..]);
  }

  lemma TickIsRunnable(n: Node, j: Journal, seen: Observed)
    requires InPrepare(n, j) && Shows(n, seen) && j.target != ""
    ensures PrepareRunnable(n, j, ReconcileCommands(n, seen))
  {
    var accept := if seen.acceptsPin == Some(false) then [AclAddSentinel(n.pin)] else [];
    var m := if seen.acceptsPin == Some(false) then Exec(n, AclAddSentinel(n.pin)) else n;
    var cs := ReconcileCommands(n, seen);
    assert n.pin in m.sentinel.accepts;
    var rest := cs[|accept|..];
    if rest != [] && rest[0].SetSentinelPass? {
      assert rest[0].p == n.pin;
      assert PrepareRunnable(Exec(m, rest[0]), j, rest[1..]);
    }
    assert PrepareRunnable(m, j, rest);
  }

  /** PREPARE, reconcile ticks, refusals and boots, whatever they prove and wherever they die. */
  ghost predicate PrepareEvent(c: Cluster, e: Event) {
    Enabled(c, e) && (e.Start? ==> e.op == Prepare)
  }

  /** No boot can prove a third password. */
  lemma BootPasswordIsKnown(c: Cluster, j: Journal, i: nat, env: Password, proven: bool)
    requires AllPreparing(c, j) && i < |c| && BootPossible(c, i, env, proven)
    ensures BootPassword(c[i].node, env, proven) in {j.current, j.target}
  {
    assert PreparingProcess(c[i], j);
    if proven {
      var p := Candidate(c[i].node, env);
      var s, m :| 0 <= s < |c| && 0 <= m < |c| && s != i && m != i && c[s].up && c[m].up
                  && p in c[s].node.sentinel.accepts && p in c[m].node.dataAccepts;
      assert PreparingProcess(c[s], j);
    }
  }

  lemma CommandKeepsPreparing(p: Process, j: Journal)
    requires PreparingProcess(p, j) && p.pending != []
    ensures PreparingProcess(Process(Exec(p.node, p.pending[0]), p.pending[1..], p.up), j)
  {
  }

  lemma BootKeepsPreparing(n: Node, j: Journal, env: Password, proven: bool, rewritten: bool)
    requires InPrepare(n, j) && BootPassword(n, env, proven) in {j.current, j.target}
    ensures InPrepare(Boot(n, env, proven), j) && InPrepare(InterruptedBoot(n, env, proven, rewritten), j)
  {
  }

  lemma PrepareEventKeeps(c: Cluster, j: Journal, e: Event)
    requires j.target != "" && AllPreparing(c, j) && PrepareEvent(c, e)
    ensures AllPreparing(Apply(j, c, e), j)
  {
    var p := c[e.i];
    assert PreparingProcess(p, j);
    match e {
      case Start(_, _) => PrepareIsRunnable(p.node, j);
      case Tick(_, seen) => TickIsRunnable(p.node, j, seen);
      case Advance(_) => CommandKeepsPreparing(p, j);
      case Restart(i, env, proven) =>
        BootPasswordIsKnown(c, j, i, env, proven);
        BootKeepsPreparing(p.node, j, env, proven, true);
      case Interrupt(i, env, proven, rewritten) =>
        BootPasswordIsKnown(c, j, i, env, proven);
        BootKeepsPreparing(p.node, j, env, proven, rewritten);
      case Abort(_) =>
    }
    assert PreparingProcess(Step(j, p, e), j);
  }

  ghost predicate PrepareRun(j: Journal, from: Cluster, events: seq<Event>, to: Cluster)
    decreases |events|
  {
    if events == [] then from == to
    else
      var last := |events| - 1;
      exists mid: Cluster :: PrepareRun(j, from, events[..last], mid)
                             && PrepareEvent(mid, events[last]) && to == Apply(j, mid, events[last])
  }

  /** A cluster that has used one password since its first boot. */
  ghost predicate AllSettled(c: Cluster, p: Password) {
    forall x | 0 <= x < |c| :: c[x] == Process(Settled(p), [], true)
  }

  lemma {:induction false} PrepareRunKeeps(j: Journal, from: Cluster, events: seq<Event>, to: Cluster)
    requires j.target != "" && AllSettled(from, j.current) && PrepareRun(j, from, events, to)
    ensures |to| == |from| && AllPreparing(to, j)
    decreases |events|
  {
    if events != [] {
      var last := |events| - 1;
      var mid: Cluster :| PrepareRun(j, from, events[..last], mid)
                          && PrepareEvent(mid, events[last]) && to == Apply(j, mid, events[last]);
      PrepareRunKeeps(j, from, events[..last], mid);
      PrepareEventKeeps(mid, j, events[last]);
    }
  }

  // ----- overlap that restarts do not end ---------------------------------------------------

  /** The cluster after member `i` restarts and keeps its pin. */
  function Reboot(c: Cluster, i: nat): Cluster
    requires i < |c|
  {
    c[i := Process(Boot(c[i].node, "", false), [], true)]
  }

  ghost predicate InRange(order: seq<nat>, n: nat) {
    forall k | 0 <= k < |order| :: order[k] < n
  }

  ghost function RebootAll(c: Cluster, order: seq<nat>): Cluster
    requires InRange(order, |c|)
    decreases |order|
  {
    if order == [] then c else RebootAll(Reboot(c, order[0]), order[1..])
  }

  /** Every two Sentinels can authenticate in at least one direction, now and whichever members
    * restart with their pins, in any order. */
  ghost predicate LastingOverlap(c: Cluster) {
    forall order | InRange(order, |c|) :: PairwiseOverlap(RebootAll(c, order))
  }

  predicate Fits(a: Node, b: Node) {
    && Meets(a.sentinel, b.sentinel) && Meets(a.sentinel, Stored(b))
    && Meets(Stored(a), b.sentinel) && Meets(Stored(a), Stored(b))
  }

  ghost predicate AllFit(c: Cluster) {
    forall x, y | 0 <= x < |c| && 0 <= y < |c| && x != y :: Fits(c[x].node, c[y].node)
  }

  lemma RebootKeepsFit(c: Cluster, i: nat)
    requires AllFit(c) && i < |c|
    ensures AllFit(Reboot(c, i))
  {
    var after, n := Reboot(c, i), c[i].node;
    assert Boot(n, "", false).sentinel == Stored(n) == Stored(Boot(n, "", false));
    forall x, y | 0 <= x < |c| && 0 <= y < |c| && x != y
      ensures Fits(after[x].node, after[y].node)
    {
      assert Fits(c[x].node, c[y].node);
    }
  }

  lemma {:induction false} FitLasts(c: Cluster, order: seq<nat>)
    requires AllFit(c) && InRange(order, |c|)
    ensures PairwiseOverlap(RebootAll(c, order))
    decreases |order|
  {
    if order == [] {
      forall x, y | 0 <= x < |c| && 0 <= y < |c| && x != y
        ensures Meets(c[x].node.sentinel, c[y].node.sentinel)
      {
        assert Fits(c[x].node, c[y].node);
      }
    } else {
      RebootKeepsFit(c, order[0]);
      FitLasts(Reboot(c, order[0]), order[1..]);
    }
  }

  /** At most two restarts tell whether the overlap lasts. */
  lemma LastingIffAllFit(c: Cluster)
    ensures LastingOverlap(c) <==> AllFit(c)
  {
    if AllFit(c) {
      forall order | InRange(order, |c|)
        ensures PairwiseOverlap(RebootAll(c, order))
      {
        FitLasts(c, order);
      }
    }
    if LastingOverlap(c) {
      forall x, y | 0 <= x < |c| && 0 <= y < |c| && x != y
        ensures Fits(c[x].node, c[y].node)
      {
        LastingPairFits(c, x, y);
      }
    }
  }

  lemma OneReboot(c: Cluster, i: nat)
    requires i < |c|
    ensures InRange([i], |c|) && RebootAll(c, [i]) == Reboot(c, i)
  {
    assert [i][1..] == [];
  }

  lemma LastingPairFits(c: Cluster, x: nat, y: nat)
    requires LastingOverlap(c) && x < |c| && y < |c| && x != y
    ensures Fits(c[x].node, c[y].node)
  {
    OneReboot(c, x);
    OneReboot(c, y);
    OneReboot(Reboot(c, x), y);
    assert [x, y][1..] == [y];
    assert InRange([], |c|) && InRange([x, y], |c|);
    assert Boot(c[x].node, "", false).sentinel == Stored(c[x].node);
    assert Boot(c[y].node, "", false).sentinel == Stored(c[y].node);
    PairMeets(RebootAll(c, []), x, y);
    PairMeets(RebootAll(c, [x]), x, y);
    PairMeets(RebootAll(c, [y]), x, y);
    PairMeets(RebootAll(c, [x, y]), x, y);
  }

  lemma PairMeets(c: Cluster, x: nat, y: nat)
    requires PairwiseOverlap(c) && x < |c| && y < |c| && x != y
    ensures Meets(c[x].node.sentinel, c[y].node.sentinel)
  {
  }

  // ----- the events that end it ------------------------------------------------------------

  /** The one password that this event leaves the member's Sentinel with, running or at its
    * next boot: a proven boot that gets as far as sentinel.conf, a boot on the password its
    * journal stages, or a journal written for the password already pinned. */
  function SettlesOn(p: Process, e: Event): Option<Password> {
    var n := p.node;
    match e
    case Restart(_, env, proven) =>
      var q := BootPassword(n, env, proven);
      if proven || Completes(n, q) then Some(q) else None
    case Interrupt(_, env, proven, rewritten) =>
      var q := BootPassword(n, env, proven);
      if (proven && rewritten) || Completes(n, q) then Some(q) else None
    case Advance(_) =>
      if p.pending != [] && p.pending[0].WriteJournal? && n.pin == p.pending[0].journal.target then Some(n.pin)
      else None
    case _ => None
  }

  /** Every other Sentinel accepts `p`, as it runs and as its next boot starts it. */
  ghost predicate Welcomed(c: Cluster, i: nat, p: Password) {
    forall y | 0 <= y < |c| && y != i :: p in c[y].node.sentinel.accepts && p in Stored(c[y].node).accepts
  }

  ghost predicate Careful(c: Cluster, e: Event)
    requires e.i < |c|
  {
    SettlesOn(c[e.i], e).Some? ==> Welcomed(c, e.i, SettlesOn(c[e.i], e).value)
  }

  /** Of the Sentinel that ran and the one the next boot would have started, one accepted no
    * more than `s` does. */
  predicate Widens(n: Node, s: Creds) {
    n.sentinel.accepts <= s.accepts || Stored(n).accepts <= s.accepts
  }

  lemma WidenedMeets(a: Creds, wider: Creds, b: Creds, j: Journal)
    requires Known(a, j) && Known(wider, j) && Known(b, j)
    requires a.accepts <= wider.accepts && Meets(a, b)
    ensures Meets(wider, b)
  {
  }

  lemma StepWidensOrSettles(c: Cluster, j: Journal, e: Event)
    requires AllPreparing(c, j) && PrepareEvent(c, e)
    ensures var n, after, p := c[e.i].node, Step(j, c[e.i], e).node, SettlesOn(c[e.i], e);
            && (Widens(n, after.sentinel) || (p.Some? && after.sentinel == RewrittenConf(p.value)))
            && if p.None? then Widens(n, Stored(after)) else Stored(after) == RewrittenConf(p.value)
  {
    assert PreparingProcess(c[e.i], j);
  }

  /** What the member's Sentinel is or becomes meets `b`, if it did before or is welcomed. */
  lemma StillMeets(n: Node, s: Creds, b: Creds, p: Option<Password>, j: Journal)
    requires InPrepare(n, j) && Known(s, j) && Known(b, j)
    requires Meets(n.sentinel, b) && Meets(Stored(n), b)
    requires Widens(n, s) || (p.Some? && s == RewrittenConf(p.value) && p.value in b.accepts)
    ensures Meets(s, b)
  {
    if n.sentinel.accepts <= s.accepts {
      WidenedMeets(n.sentinel, s, b, j);
    } else if Stored(n).accepts <= s.accepts {
      WidenedMeets(Stored(n), s, b, j);
    }
  }

  lemma CarefulEventKeepsFit(c: Cluster, j: Journal, e: Event)
    requires j.target != "" && AllPreparing(c, j) && AllFit(c) && PrepareEvent(c, e) && Careful(c, e)
    ensures AllFit(Apply(j, c, e))
  {
    var i, after := e.i, Apply(j, c, e);
    PrepareEventKeeps(c, j, e);
    assert PreparingProcess(c[i], j) && PreparingProcess(after[i], j);
    StepWidensOrSettles(c, j, e);
    forall y | 0 <= y < |c| && y != i
      ensures Fits(after[i].node, c[y].node)
    {
      assert PreparingProcess(c[y], j) && Fits(c[i].node, c[y].node);
      var n, m, b, p := c[i].node, after[i].node, c[y].node, SettlesOn(c[i], e);
      StillMeets(n, m.sentinel, b.sentinel, p, j);
      StillMeets(n, m.sentinel, Stored(b), p, j);
      StillMeets(n, Stored(m), b.sentinel, p, j);
      StillMeets(n, Stored(m), Stored(b), p, j);
    }
    forall x, y | 0 <= x < |c| && 0 <= y < |c| && x != y
      ensures Fits(after[x].node, after[y].node)
    {
      assert Fits(c[x].node, c[y].node);
    }
  }

  /** Where overlap lasts, an event keeps it lasting exactly when every other Sentinel accepts
    * the password that the event settles on, if it settles on one. */
  lemma CarefulIffOverlapLasts(c: Cluster, j: Journal, e: Event)
    requires j.target != "" && AllPreparing(c, j) && LastingOverlap(c) && PrepareEvent(c, e)
    ensures Careful(c, e) <==> LastingOverlap(Apply(j, c, e))
  {
    var i, after := e.i, Apply(j, c, e);
    LastingIffAllFit(c);
    LastingIffAllFit(after);
    if Careful(c, e) {
      CarefulEventKeepsFit(c, j, e);
    } else if AllFit(after) {
      StepWidensOrSettles(c, j, e);
      forall y | 0 <= y < |c| && y != i
        ensures var p := SettlesOn(c[i], e).value;
                p in c[y].node.sentinel.accepts && p in Stored(c[y].node).accepts
      {
        assert PreparingProcess(c[y], j) && Fits(after[i].node, after[y].node);
      }
      assert false;
    }
  }

  /** For a boot, one restart of one other member at most is between it and the loss. */
  lemma CarelessBootLosesAPair(c: Cluster, j: Journal, e: Event) returns (y: nat)
    requires j.target != "" && AllPreparing(c, j) && PrepareEvent(c, e)
    requires (e.Restart? || e.Interrupt?) && !Careful(c, e)
    ensures y < |c| && y != e.i
    ensures !PairwiseOverlap(Apply(j, c, e)) || !PairwiseOverlap(Reboot(Apply(j, c, e), y))
  {
    var p, after := SettlesOn(c[e.i], e).value, Apply(j, c, e);
    y :| 0 <= y < |c| && y != e.i && !(p in c[y].node.sentinel.accepts && p in Stored(c[y].node).accepts);
    assert PreparingProcess(c[y], j) && after[e.i].node.sentinel == RewrittenConf(p);
    var later := Reboot(after, y);
    assert after[y] == c[y] && later[e.i] == after[e.i] && later[y].node.sentinel == Stored(c[y].node);
    if p in c[y].node.sentinel.accepts {
      assert !Meets(later[e.i].node.sentinel, later[y].node.sentinel);
    } else {
      assert !Meets(after[e.i].node.sentinel, after[y].node.sentinel);
    }
  }

  // ----- runs --------------------------------------------------------------------------------

  ghost predicate CarefulRun(j: Journal, from: Cluster, events: seq<Event>, to: Cluster)
    decreases |events|
  {
    if events == [] then from == to
    else
      var last := |events| - 1;
      exists mid: Cluster :: CarefulRun(j, from, events[..last], mid)
                             && PrepareEvent(mid, events[last]) && Careful(mid, events[last])
                             && to == Apply(j, mid, events[last])
  }

  lemma SettledFit(c: Cluster, p: Password)
    requires AllSettled(c, p)
    ensures AllFit(c)
  {
    forall x, y | 0 <= x < |c| && 0 <= y < |c| && x != y
      ensures Fits(c[x].node, c[y].node)
    {
      assert c[x].node == c[y].node == Settled(p);
    }
  }

  /** PREPARE keeps quorum: from a settled cluster, in every state of every run of PREPARE
    * commands, retries, ticks and careful boots, every two Sentinels can authenticate in at
    * least one direction, and still can after any restarts. */
  lemma {:induction false} PrepareKeepsOneDirection(j: Journal, from: Cluster, events: seq<Event>, to: Cluster)
    requires j.target != "" && AllSettled(from, j.current) && CarefulRun(j, from, events, to)
    ensures AllPreparing(to, j) && PairwiseOverlap(to) && LastingOverlap(to)
    decreases |events|
  {
    if events == [] {
      SettledFit(from, j.current);
    } else {
      var last := |events| - 1;
      var mid: Cluster :| CarefulRun(j, from, events[..last], mid)
                          && PrepareEvent(mid, events[last]) && Careful(mid, events[last])
                          && to == Apply(j, mid, events[last]);
      PrepareKeepsOneDirection(j, from, events[..last], mid);
      PrepareEventKeeps(mid, j, events[last]);
      LastingIffAllFit(mid);
      CarefulEventKeepsFit(mid, j, events[last]);
    }
    LastingIffAllFit(to);
    FitLasts(to, []);
  }

  /** And it keeps no more than that: what can happen next in such a run ends the lasting
    * overlap exactly when it is not careful. */
  lemma RunStaysLastingIffCareful(j: Journal, from: Cluster, events: seq<Event>, mid: Cluster, e: Event)
    requires j.target != "" && AllSettled(from, j.current) && CarefulRun(j, from, events, mid) && PrepareEvent(mid, e)
    ensures LastingOverlap(Apply(j, mid, e)) <==> Careful(mid, e)
  {
    PrepareKeepsOneDirection(j, from, events, mid);
    CarefulIffOverlapLasts(mid, j, e);
  }

  /** For the boots that adopt the new password: one that reaches Sentinel, or dies after it has
    * rewritten sentinel.conf, needs every other Sentinel to accept it; one that dies with only
    * redis.conf written needs that if there is a journal to complete. */
  lemma AdoptionLastsIff(c: Cluster, j: Journal, i: nat, env: Password)
    requires j.target != "" && AllPreparing(c, j) && LastingOverlap(c)
    requires i < |c| && Candidate(c[i].node, env) == j.target && BootPossible(c, i, env, true)
    ensures LastingOverlap(Apply(j, c, Restart(i, env, true))) <==> Welcomed(c, i, j.target)
    ensures LastingOverlap(Apply(j, c, Interrupt(i, env, true, true))) <==> Welcomed(c, i, j.target)
    ensures LastingOverlap(Apply(j, c, Interrupt(i, env, true, false)))
            <==> c[i].node.journal.None? || Welcomed(c, i, j.target)
  {
    assert PreparingProcess(c[i], j);
    CarefulIffOverlapLasts(c, j, Restart(i, env, true));
    CarefulIffOverlapLasts(c, j, Interrupt(i, env, true, true));
    CarefulIffOverlapLasts(c, j, Interrupt(i, env, true, false));
  }

  predicate NothingProven(events: seq<Event>) {
    forall k | 0 <= k < |events| ::
      !(events[k].Restart? && events[k].proven) && !(events[k].Interrupt? && events[k].proven)
  }

  lemma PinKeepingEventIsCareful(c: Cluster, j: Journal, e: Event)
    requires j.current != j.target && PrepareEvent(c, e) && NothingProven([e])
    requires PreparingProcess(c[e.i], j) && c[e.i].node.pin == j.current
    ensures Careful(c, e) && Step(j, c[e.i], e).node.pin == j.current
  {
    assert [e][0] == e;
  }

  /** Boots that keep their pins are always careful, wherever they die. */
  lemma {:induction false} PinKeepingRunIsCareful(j: Journal, from: Cluster, events: seq<Event>, to: Cluster)
    requires j.current != j.target && j.target != "" && AllSettled(from, j.current)
    requires PrepareRun(j, from, events, to) && NothingProven(events)
    ensures CarefulRun(j, from, events, to)
    ensures forall x | 0 <= x < |to| :: to[x].node.pin == j.current
    decreases |events|
  {
    if events != [] {
      var last := |events| - 1;
      var mid: Cluster :| PrepareRun(j, from, events[..last], mid)
                          && PrepareEvent(mid, events[last]) && to == Apply(j, mid, events[last]);
      PinKeepingRunIsCareful(j, from, events[..last], mid);
      PrepareRunKeeps(j, from, events[..last], mid);
      assert PreparingProcess(mid[events[last].i], j) && NothingProven([events[last]]);
      PinKeepingEventIsCareful(mid, j, events[last]);
    }
  }

  // ----- the careless boots are reached ---------------------------------------------------------

  lemma PrepareRunSnoc(j: Journal, from: Cluster, events: seq<Event>, mid: Cluster, e: Event)
    requires PrepareRun(j, from, events, mid) && PrepareEvent(mid, e)
    ensures PrepareRun(j, from, events + [e], Apply(j, mid, e))
  {
    assert (events + [e])[..|events|] == events;
  }

  /** Member `i` of `c`, `k` commands into an operation that began on node `n`. */
  function Into(c: Cluster, i: nat, n: Node, cs: seq<Command>, k: nat): Cluster
    requires i < |c| && k <= |cs|
  {
    c[i := Process(ExecAll(n, cs[..k]), cs[k..], true)]
  }

  lemma AdvanceOne(j: Journal, from: Cluster, events: seq<Event>, c: Cluster, i: nat, n: Node, cs: seq<Command>, k: nat)
    requires i < |c| && k < |cs| && PrepareRun(j, from, events, Into(c, i, n, cs, k))
    ensures PrepareRun(j, from, events + [Advance(i)], Into(c, i, n, cs, k + 1))
  {
    var mid := Into(c, i, n, cs, k);
    ExecNext(n, cs, k);
    PrepareRunSnoc(j, from, events, mid, Advance(i));
    assert cs[k..][1..] == cs[k + 1..];
    assert Apply(j, mid, Advance(i)) == Into(c, i, n, cs, k + 1);
  }

  /** An idle member can run PREPARE to any point, at any point of a run. */
  lemma PrepareOn(j: Journal, from: Cluster, events: seq<Event>, c: Cluster, i: nat, stop: nat)
    returns (all: seq<Event>)
    requires PrepareRun(j, from, events, c) && i < |c| && c[i].up && c[i].pending == [] && stop <= 8
    ensures PrepareRun(j, from, all, Into(c, i, c[i].node, PrepareCommands(j), stop))
  {
    var n, cs := c[i].node, PrepareCommands(j);
    PrepareRunSnoc(j, from, events, c, Start(i, Prepare));
    all := events + [Start(i, Prepare)];
    assert cs[..0] == [] && cs[0..] == cs;
    assert Apply(j, c, Start(i, Prepare)) == Into(c, i, n, cs, 0);
    for k := 0 to stop
      invariant PrepareRun(j, from, all, Into(c, i, n, cs, k))
    {
      AdvanceOne(j, from, all, c, i, n, cs, k);
      all := all + [Advance(i)];
    }
  }

  /** One member prepared, a second one whose variable has already been changed restarts, and a
    * third one knows nothing yet: the pair of these two is lost at once. */
  lemma EarlyAdoptionCanLoseAPair(j: Journal) returns (events: seq<Event>, c: Cluster)
    requires j.current != j.target
    ensures var member := Process(Settled(j.current), [], true); PrepareRun(j, [member, member, member], events, c)
    ensures Enabled(c, Restart(0, j.target, true)) && !PairwiseOverlap(Apply(j, c, Restart(0, j.target, true)))
  {
    var member := Process(Settled(j.current), [], true);
    var from := [member, member, member];
    events := PrepareOn(j, from, [], from, 1, 8);
    c := Into(from, 1, Settled(j.current), PrepareCommands(j), 8);
    assert PrepareCommands(j)[..8] == PrepareCommands(j) by {
      assert |PrepareCommands(j)| == 8;
    }
    PreparedNode(j);
    assert c[1].node.sentinel.accepts == c[1].node.dataAccepts == {j.current, j.target};
    assert ProbeSucceeds(c, 0, j.target);
    var after := Apply(j, c, Restart(0, j.target, true));
    assert after[2] == member && after[0].node.sentinel == RewrittenConf(j.target);
    assert !Meets(after[0].node.sentinel, after[2].node.sentinel);
  }

  /** A member five commands into PREPARE: its Sentinel accepts the new password and its
    * sentinel.conf does not. The boot that adopts it keeps the overlap, and the next restart
    * of that member, pin kept, ends it. */
  lemma EarlyAdoptionCanLoseAPairLater(j: Journal) returns (events: seq<Event>, c: Cluster)
    requires j.current != j.target
    ensures var member := Process(Settled(j.current), [], true); PrepareRun(j, [member, member], events, c)
    ensures var after := Apply(j, c, Restart(0, j.target, true));
            && Enabled(c, Restart(0, j.target, true)) && PairwiseOverlap(after)
            && !PairwiseOverlap(Apply(j, after, Restart(1, j.current, false)))
  {
    var member := Process(Settled(j.current), [], true);
    var from := [member, member];
    events := PrepareOn(j, from, [], from, 1, 5);
    c := Into(from, 1, Settled(j.current), PrepareCommands(j), 5);
    FiveCommands(j);
    assert c[1].up && j.target in c[1].node.sentinel.accepts && j.target in c[1].node.dataAccepts;
    assert ProbeSucceeds(c, 0, j.target);
    var after := Apply(j, c, Restart(0, j.target, true));
    assert after[1] == c[1] && after[0].node.sentinel == RewrittenConf(j.target);
    var later := Apply(j, after, Restart(1, j.current, false));
    assert later[0] == after[0] && later[1].node.sentinel == RewrittenConf(j.current);
    assert !Meets(later[0].node.sentinel, later[1].node.sentinel);
  }

  lemma FiveCommands(j: Journal)
    ensures var n := ExecAll(Settled(j.current), PrepareCommands(j)[..5]);
            && n.pin == j.current && n.dataAccepts == {j.current, j.target} && n.journal == Some(j)
            && n.sentinel == Creds({j.current, j.target}, j.current, j.current) && n.conf == RewrittenConf(j.current)
  {
    var n, t := Settled(j.current), j.target;
    assert PrepareCommands(j)[..4] == PrepareDataCommands(j);
    ExecNext(n, PrepareCommands(j), 4);
    ExecFour(n, WriteJournal(j), AclAddData(t), SetMasterauth(t), RewriteConfig);
  }
}
