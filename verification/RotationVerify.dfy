/** What VERIFY and the reconcile pass are for: no journal is dropped while the old password
  * is still accepted, MEMBER leaves nothing for VERIFY to refuse, and one pass repairs exactly
  * what differs. */
module RotationVerify {
  import opened Wrappers
  import opened Rotation
  import opened RotationCluster

  /** The node runs on the new password, and both its servers refuse the old one. */
  predicate OnlyTarget(n: Node, j: Journal) {
    && n.pin == j.target && j.target in n.dataAccepts && j.target in n.sentinel.accepts
    && (j.current != j.target ==> j.current !in n.dataAccepts && j.current !in n.sentinel.accepts)
  }

  // ----- VERIFY over runs ------------------------------------------------------------------

  ghost predicate AnyRun(j: Journal, from: Cluster, events: seq<Event>, to: Cluster)
    decreases |events|
  {
    if events == [] then from == to
    else
      var last := |events| - 1;
      exists mid: Cluster :: AnyRun(j, from, events[..last], mid)
                             && Enabled(mid, events[last]) && to == Apply(j, mid, events[last])
  }

  /** Whatever is left to verify is this rotation. */
  ghost predicate OwnCommands(cs: seq<Command>, j: Journal) {
    forall k | 0 <= k < |cs| && cs[k].FinishVerify? :: cs[k].journal == j
  }

  ghost predicate AllOwn(c: Cluster, j: Journal) {
    forall x | 0 <= x < |c| :: OwnCommands(c[x].pending, j)
  }

  lemma EventKeepsOwn(c: Cluster, j: Journal, e: Event)
    requires AllOwn(c, j) && Enabled(c, e)
    ensures AllOwn(Apply(j, c, e), j)
  {
    assert OwnCommands(c[e.i].pending, j);
    assert OwnCommands(Step(j, c[e.i], e).pending, j);
  }

  lemma {:induction false} RunKeepsOwn(j: Journal, from: Cluster, events: seq<Event>, to: Cluster)
    requires AnyRun(j, from, events, to) && forall x | 0 <= x < |from| :: from[x].pending == []
    ensures AllOwn(to, j)
    decreases |events|
  {
    if events != [] {
      var last := |events| - 1;
      var mid: Cluster :| AnyRun(j, from, events[..last], mid)
                          && Enabled(mid, events[last]) && to == Apply(j, mid, events[last]);
      RunKeepsOwn(j, from, events[..last], mid);
      EventKeepsOwn(mid, j, events[last]);
    }
  }

  lemma JournalDrop(p: Process, j: Journal, e: Event)
    requires OwnCommands(p.pending, j) && p.node.journal.Some? && Step(j, p, e).node.journal.None?
    ensures e.Advance? && OnlyTarget(p.node, j) && Step(j, p, e).node == p.node.(journal := None)
  {
  }

  /** In every run of a rotation, whatever boots, ticks, refusals and operations it interleaves:
    * an event that drops a member's journal is a command of an operation, and finds that member
    * on the new password with the old one refused on both servers. */
  lemma NoJournalDropsOverTheOldPassword(j: Journal, from: Cluster, events: seq<Event>, mid: Cluster, e: Event)
    requires AnyRun(j, from, events, mid) && forall x | 0 <= x < |from| :: from[x].pending == []
    requires Enabled(mid, e) && mid[e.i].node.journal.Some? && Apply(j, mid, e)[e.i].node.journal.None?
    ensures e.Advance? && OnlyTarget(mid[e.i].node, j)
    ensures Apply(j, mid, e)[e.i].node == mid[e.i].node.(journal := None)
  {
    RunKeepsOwn(j, from, events, mid);
    JournalDrop(mid[e.i], j, e);
  }

  /** And it withholds no success: on a member MEMBER has run to its end on, with the reconcile
    * pass after it stopped anywhere, VERIFY's command drops the journal. */
  lemma VerifySucceedsAfterMember(n: Node, j: Journal, seen: Observed, k: nat)
    requires n.journal == Some(j) && j.target != ""
    requires Shows(ExecAll(n, MemberCommands(j)), seen)
    requires k <= |ReconcileCommands(ExecAll(n, MemberCommands(j)), seen)|
    ensures var member := ExecAll(n, MemberCommands(j));
            var ready := ExecAll(member, ReconcileCommands(member, seen)[..k]);
            OnlyTarget(ready, j) && ExecAll(ready, VerifyCommands(j)) == ready.(journal := None)
  {
    MemberLeavesOnlyTarget(n, j);
    var member := ExecAll(n, MemberCommands(j));
    var cs := ReconcileCommands(member, seen);
    PassKeepsOnlyTarget(member, j, cs[..k]);
    var ready := ExecAll(member, cs[..k]);
    assert ExecAll(ready, VerifyCommands(j)) == Exec(ready, FinishVerify(j));
  }

  /** MEMBER run to its end: the new password, and no other, on the data side; Sentinel restarted on
    * it alone, unless it accepts it and refuses the old one already; the journal as it was. */
  lemma MemberLeavesOnlyTarget(n: Node, j: Journal)
    ensures var t, member := j.target, ExecAll(n, MemberCommands(j));
            var moved := t in n.sentinel.accepts && (j.current != t ==> j.current !in n.sentinel.accepts);
            && OnlyTarget(member, j)
            && member == Node({t}, t, t, t, n.journal, if moved then n.sentinel else Creds({t}, t, t),
                              if moved then n.conf else Creds({t}, t, t))
  {
    var t := j.target;
    ExecSnoc(n, [SetMasterauthAndRequirepass(t), RewriteConfig], RestartSentinelUnlessMoved(j));
    ExecSnoc(n, [SetMasterauthAndRequirepass(t)], RewriteConfig);
    ExecOne(n, SetMasterauthAndRequirepass(t));
    assert [SetMasterauthAndRequirepass(t)] + [RewriteConfig] == [SetMasterauthAndRequirepass(t), RewriteConfig];
    assert [SetMasterauthAndRequirepass(t), RewriteConfig] + [RestartSentinelUnlessMoved(j)] == MemberCommands(j);
  }

  /** Commands of a reconcile pass on a node pinned to the new password. */
  predicate PassCommand(c: Command, j: Journal) {
    || (c.AclAddSentinel? && c.p == j.target)
    || (c.SetSentinelPass? && c.p == j.target)
    || (c.SetAuthPass? && c.p == j.target)
    || c.FlushConfig?
  }

  lemma {:induction false} PassKeepsOnlyTarget(n: Node, j: Journal, cs: seq<Command>)
    requires OnlyTarget(n, j) && forall k | 0 <= k < |cs| :: PassCommand(cs[k], j)
    ensures OnlyTarget(ExecAll(n, cs), j) && ExecAll(n, cs).journal == n.journal
    decreases |cs|
  {
    if cs != [] {
      assert PassCommand(cs[0], j);
      PassKeepsOnlyTarget(Exec(n, cs[0]), j, cs[1..]);
    }
  }

  // ----- the reconcile pass ------------------------------------------------------------------

  /** The pin, and during a rotation the staged password, may stand in Sentinel. */
  predicate Acceptable(n: Node, p: Password) {
    p == n.pin || (n.journal.Some? && p == n.journal.value.target && p != "")
  }

  /** What a repair writes: the staged password of a rotation in flight, else the pin. */
  function Wanted(n: Node): Password {
    if n.journal.Some? && n.journal.value.target != "" then n.journal.value.target else n.pin
  }

  predicate NothingDiffers(n: Node, seen: Observed) {
    && seen.acceptsPin == Some(true)
    && (seen.sentinelPass.Some? ==> Acceptable(n, n.sentinel.pass))
    && (seen.authPass.Some? ==> Acceptable(n, n.conf.authPass))
  }

  function Accepting(n: Node, seen: Observed): seq<Command> {
    if seen.acceptsPin == Some(false) then [AclAddSentinel(n.pin)] else []
  }

  function Dialling(n: Node, seen: Observed): seq<Command> {
    if seen.sentinelPass.None? || Acceptable(n, n.sentinel.pass) then [] else [SetSentinelPass(Wanted(n))]
  }

  function Authenticating(n: Node, seen: Observed): seq<Command> {
    if seen.authPass.None? || Acceptable(n, n.conf.authPass) then [] else [SetAuthPass(Wanted(n))]
  }

  lemma RepairsAre(n: Node, seen: Observed)
    requires Shows(n, seen)
    ensures var repairs := Accepting(n, seen) + Dialling(n, seen) + Authenticating(n, seen);
            && (repairs == [] <==> NothingDiffers(n, seen))
            && ReconcileCommands(n, seen) == if repairs == [] then [] else repairs + [FlushConfig]
  {
    var staged := if n.journal.Some? then Some(n.journal.value.target) else None;
    assert Plan(seen, n.pin, staged) == Accepting(n, seen) + Dialling(n, seen) + Authenticating(n, seen);
  }

  /** A pass sends nothing exactly when nothing it could read differs. Run to its end it leaves
    * Sentinel accepting the pin, each value it read acceptable, or as wanted if it was not, every
    * other part of the node as it was, and sentinel.conf as Sentinel runs. */
  lemma PassRepairsWhatDiffers(n: Node, seen: Observed)
    requires Shows(n, seen)
    ensures ReconcileCommands(n, seen) == [] <==> NothingDiffers(n, seen)
    ensures var m, s := ExecAll(n, ReconcileCommands(n, seen)), n.sentinel;
            && m == n.(sentinel := m.sentinel, conf := m.conf)
            && m.sentinel.accepts == s.accepts + {n.pin}
            && m.sentinel.pass == (if seen.sentinelPass.None? || Acceptable(n, s.pass) then s.pass else Wanted(n))
            && m.sentinel.authPass
               == (if seen.authPass.None? || Acceptable(n, n.conf.authPass) then s.authPass else Wanted(n))
            && m.conf == if NothingDiffers(n, seen) then n.conf else m.sentinel
  {
    RepairsAre(n, seen);
    if !NothingDiffers(n, seen) {
      var accept, dial, auth := Accepting(n, seen), Dialling(n, seen), Authenticating(n, seen);
      ExecConcat(n, accept + dial + auth, [FlushConfig]);
      ExecConcat(n, accept + dial, auth);
      ExecConcat(n, accept, dial);
      ExecOne(n, AclAddSentinel(n.pin));
      ExecOne(ExecAll(n, accept), SetSentinelPass(Wanted(n)));
      ExecOne(ExecAll(n, accept + dial), SetAuthPass(Wanted(n)));
      ExecOne(ExecAll(n, accept + dial + auth), FlushConfig);
    }
  }

  lemma ExecOne(n: Node, c: Command)
    ensures ExecAll(n, [c]) == Exec(n, c)
  {
  }
}
