/** A cluster of quorum-sync watchers cut by a network partition: at most one side of
  * the partition can ever accept writes.
  *
  * Each node runs `Quorum.Poll` on what its own Sentinel shows it. The partition is
  * fixed for the run: a peer reads `s_down` exactly when it is on another side, and no
  * live name answers NXDOMAIN. Everything else is arbitrary: poll order, clocks,
  * window contents at the cut, failed reads, failed commands, gossip, and restarts with
  * any quorum stamp but the ones shown here to reopen the two-writer window. */
module Partition {
  import opened Wrappers
  import opened Quorum

  type Sides = map<PeerId, int>

  /** `known` is what the local Sentinel lists besides itself; `fence` is the local
    * Redis's min-replicas-to-write. */
  datatype Node = Node(known: set<PeerId>, watch: Watch, fence: nat)

  type Cluster = map<PeerId, Node>

  datatype Event =
    | Poll(id: PeerId, now: int, obs: Obs)
    | Gossip(id: PeerId, learned: set<PeerId>)
    | Restart(id: PeerId, quorumStamp: nat)

  function SideOf(sides: Sides, id: PeerId): set<PeerId>
    requires id in sides
  {
    set j | j in sides && sides[j] == sides[id]
  }

  function Majority(sides: Sides): nat {
    |sides.Keys| / 2 + 1
  }

  predicate Distinct(peers: seq<Peer>) {
    forall i, j | 0 <= i < j < |peers| :: peers[i].id != peers[j].id
  }

  function Ids(peers: seq<Peer>): set<PeerId> {
    set p | p in peers :: p.id
  }

  /** What node `id` can read while the partition lasts. */
  ghost predicate Reflects(sides: Sides, id: PeerId, node: Node, obs: Obs)
    requires id in sides
  {
    obs.Observed? ==>
      && Distinct(obs.peers) && Ids(obs.peers) == node.known
      && (obs.fence.Some? ==> obs.fence.value == node.fence)
      && forall p | p in obs.peers ::
           && (p.id in sides ==> (p.sDown <==> sides[p.id] != sides[id]))
           && !p.gone
  }

  function PollNode(cfg: Config, node: Node, now: int, obs: Obs): Node {
    var (watch, acts) := Quorum.Poll(node.watch, cfg, now, obs);
    Node(if obs.Observed? && acts.reset && obs.resetOk then {} else node.known,
         watch,
         if obs.Observed? && acts.setFence.Some? && obs.setFenceOk then acts.setFence.value else node.fence)
  }

  predicate OnMajoritySide(sides: Sides, id: PeerId)
    requires id in sides
  {
    2 * |SideOf(sides, id)| > |sides|
  }

  /** A stamp low enough for the replicas on the node's own side. */
  predicate StampFits(sides: Sides, id: PeerId, stamp: nat)
    requires id in sides
  {
    |SideOf(sides, id)| >= 2 && stamp <= |SideOf(sides, id)|
  }

  /** What can happen while the partition lasts, short of a restart that makes a node off
    * the majority side writable. */
  ghost predicate Enabled(sides: Sides, c: Cluster, e: Event) {
    && e.id in sides && e.id in c
    && match e
       case Poll(id, _, obs) => Reflects(sides, id, c[id], obs)
       case Gossip(id, learned) => learned <= SideOf(sides, id) - {id}
       case Restart(id, stamp) => !OnMajoritySide(sides, id) ==> !StampFits(sides, id, stamp)
  }

  /** No node of the majority side restarts with a stamp above its side's size. */
  predicate MajorityStampFits(sides: Sides, e: Event) {
    e.Restart? && e.id in sides && OnMajoritySide(sides, e.id) ==> StampFits(sides, e.id, e.quorumStamp)
  }

  predicate MajorityStampsFit(sides: Sides, events: seq<Event>) {
    forall i | 0 <= i < |events| :: MajorityStampFits(sides, events[i])
  }

  function Step(cfg: Config, node: Node, e: Event): Node {
    match e
    case Poll(_, now, obs) => PollNode(cfg, node, now, obs)
    case Gossip(_, learned) => node.(known := node.known + learned)
    case Restart(_, stamp) => Node(node.known, FRESH, MinReplicasToWrite(stamp))
  }

  function Apply(cfg: Config, c: Cluster, e: Event): Cluster
    requires e.id in c
  {
    c[e.id := Step(cfg, c[e.id], e)]
  }

  /** The state after a run, for runs whose every event is possible under the partition. */
  ghost predicate Run(cfg: Config, sides: Sides, from: Cluster, events: seq<Event>, to: Cluster) {
    if events == [] then from == to
    else
      var last := |events| - 1;
      exists mid: Cluster :: Run(cfg, sides, from, events[..last], mid)
                             && Enabled(sides, mid, events[last]) && to == Apply(cfg, mid, events[last])
  }

  /** The cut: everyone knew everyone and every fence had converged. */
  ghost predicate Converged(sides: Sides, c: Cluster) {
    && c.Keys == sides.Keys && |sides| >= 2
    && forall id | id in c :: c[id].known == sides.Keys - {id}
                              && c[id].fence == MinReplicasToWrite(Majority(sides))
  }

  /** The most acknowledging replicas a master on `id` can have is its whole side. */
  ghost predicate CanAdmitWrites(sides: Sides, c: Cluster, id: PeerId)
    requires id in sides && id in c
  {
    |SideOf(sides, id)| - 1 >= c[id].fence
  }

  // ----- counting --------------------------------------------------------------

  lemma {:induction false} LiveOthersOnOneSide(peers: seq<Peer>, live: set<PeerId>)
    requires Distinct(peers)
    requires forall p | p in peers && !p.sDown :: p.id in live
    ensures LiveOthers(peers) <= |live|
  {
    if peers != [] {
      var last, rest := peers[|peers| - 1], peers[..|peers| - 1];
      if last.sDown {
        LiveOthersOnOneSide(rest, live);
      } else {
        LiveOthersOnOneSide(rest, live - {last.id});
      }
    }
  }

  lemma {:induction false} IdsAreCounted(peers: seq<Peer>)
    requires Distinct(peers)
    ensures |Ids(peers)| == |peers|
  {
    if peers != [] {
      var last, rest := peers[|peers| - 1], peers[..|peers| - 1];
      IdsAreCounted(rest);
      assert Ids(peers) == Ids(rest) + {last.id};
      assert last.id !in Ids(rest);
    }
  }

  lemma SidesDoNotOverlap(sides: Sides, i: PeerId, j: PeerId)
    requires i in sides && j in sides && sides[i] != sides[j]
    ensures |SideOf(sides, i)| + |SideOf(sides, j)| <= |sides|
  {
    var a, b := SideOf(sides, i), SideOf(sides, j);
    assert a !! b && a + b <= sides.Keys;
    SubsetSize(a + b, sides.Keys);
  }

  lemma SubsetSize<T>(a: set<T>, b: set<T>)
    requires a <= b
    ensures |a| <= |b|
  {
    assert b == a + (b - a);
  }

  // ----- the invariant -----------------------------------------------------------

  /** A node off the majority side still knows every member, and its fence is above any
    * replica count its side can reach. */
  ghost predicate NodeInv(sides: Sides, id: PeerId, node: Node)
    requires id in sides
  {
    && node.known <= sides.Keys - {id}
    && (!OnMajoritySide(sides, id) ==> node.known == sides.Keys - {id} && node.fence > |SideOf(sides, id)| - 1)
  }

  ghost predicate Inv(sides: Sides, c: Cluster) {
    && c.Keys == sides.Keys && |sides| >= 2
    && forall id | id in c :: NodeInv(sides, id, c[id])
  }

  /** A node on the majority side never asks for more replicas than its side has. */
  ghost predicate Served(sides: Sides, id: PeerId, node: Node)
    requires id in sides
  {
    OnMajoritySide(sides, id) ==> node.fence <= |SideOf(sides, id)| - 1
  }

  ghost predicate AllServed(sides: Sides, c: Cluster) {
    forall id | id in c && id in sides :: Served(sides, id, c[id])
  }

  lemma ConvergedHoldsInv(sides: Sides, c: Cluster)
    requires Converged(sides, c)
    ensures Inv(sides, c) && AllServed(sides, c)
  {
  }

  /** The heart of it: a node that is not in a live majority never RESETs. */
  lemma MinorityNeverResets(cfg: Config, sides: Sides, id: PeerId, node: Node, now: int, obs: Obs)
    requires id in sides && node.known == sides.Keys - {id}
    requires 2 * |SideOf(sides, id)| <= |sides| && Reflects(sides, id, node, obs)
    ensures !Quorum.Poll(node.watch, cfg, now, obs).1.reset
  {
    if obs.Observed? {
      var mine := SideOf(sides, id) - {id};
      IdsAreCounted(obs.peers);
      forall p | p in obs.peers && !p.sDown
        ensures p.id in mine
      {
        assert p.id in Ids(obs.peers);
      }
      LiveOthersOnOneSide(obs.peers, mine);
      assert !LiveIsMajorityOfKnown(obs.peers);
      assert GoneIds(obs.peers) == {};
    }
  }

  lemma FenceFollowsKnown(w: Watch, cfg: Config, now: int, obs: Obs)
    requires obs.Observed?
    ensures var set_ := Quorum.Poll(w, cfg, now, obs).1.setFence;
            set_.Some? ==> && set_ == DesiredFence(|obs.peers|)
                           && obs.fence.Some? && obs.fence.value != set_.value
  {
  }

  lemma PollKeepsNodeInv(cfg: Config, sides: Sides, id: PeerId, node: Node, now: int, obs: Obs)
    requires id in sides && |sides| >= 2 && NodeInv(sides, id, node) && Reflects(sides, id, node, obs)
    ensures NodeInv(sides, id, PollNode(cfg, node, now, obs))
    ensures Served(sides, id, node) ==> Served(sides, id, PollNode(cfg, node, now, obs))
  {
    if obs.Observed? {
      FenceFollowsKnown(node.watch, cfg, now, obs);
      IdsAreCounted(obs.peers);
      SubsetSize(node.known, sides.Keys - {id});
      if !OnMajoritySide(sides, id) {
        MinorityNeverResets(cfg, sides, id, node, now, obs);
      }
    }
  }

  lemma StepKeepsNodeInv(cfg: Config, sides: Sides, c: Cluster, e: Event)
    requires |sides| >= 2 && Enabled(sides, c, e) && NodeInv(sides, e.id, c[e.id])
    ensures NodeInv(sides, e.id, Step(cfg, c[e.id], e))
    ensures Served(sides, e.id, c[e.id]) && MajorityStampFits(sides, e) ==> Served(sides, e.id, Step(cfg, c[e.id], e))
  {
    match e
    case Poll(id, now, obs) => PollKeepsNodeInv(cfg, sides, id, c[id], now, obs);
    case Gossip(id, learned) => assert SideOf(sides, id) <= sides.Keys;
    case Restart(_, _) =>
  }

  lemma NodeKeepsInv(sides: Sides, c: Cluster, id: PeerId, node: Node)
    requires Inv(sides, c) && id in sides && NodeInv(sides, id, node)
    ensures Inv(sides, c[id := node])
    ensures AllServed(sides, c) && Served(sides, id, node) ==> AllServed(sides, c[id := node])
  {
  }

  lemma EventKeepsInv(cfg: Config, sides: Sides, c: Cluster, e: Event)
    requires Inv(sides, c) && Enabled(sides, c, e)
    ensures Inv(sides, Apply(cfg, c, e))
    ensures AllServed(sides, c) && MajorityStampFits(sides, e) ==> AllServed(sides, Apply(cfg, c, e))
  {
    StepKeepsNodeInv(cfg, sides, c, e);
    NodeKeepsInv(sides, c, e.id, Step(cfg, c[e.id], e));
  }

  lemma {:induction false} RunKeepsInv(cfg: Config, sides: Sides, from: Cluster, events: seq<Event>, to: Cluster)
    requires Converged(sides, from) && Run(cfg, sides, from, events, to)
    ensures Inv(sides, to)
    ensures MajorityStampsFit(sides, events) ==> AllServed(sides, to)
    decreases |events|
  {
    if events == [] {
      ConvergedHoldsInv(sides, from);
    } else {
      var last := |events| - 1;
      var mid: Cluster :| Run(cfg, sides, from, events[..last], mid)
                          && Enabled(sides, mid, events[last]) && to == Apply(cfg, mid, events[last]);
      RunKeepsInv(cfg, sides, from, events[..last], mid);
      EventKeepsInv(cfg, sides, mid, events[last]);
    }
  }

  // ----- the theorems --------------------------------------------------------------

  /** In every reachable state only nodes on a strict majority side can admit writes, and
    * they all can unless one of them restarted with a stamp above its side's size. */
  lemma WritableExactlyOnMajoritySide(cfg: Config, sides: Sides, from: Cluster, events: seq<Event>, to: Cluster,
                                      id: PeerId)
    requires Converged(sides, from) && Run(cfg, sides, from, events, to) && id in sides
    ensures id in to
    ensures CanAdmitWrites(sides, to, id) ==> OnMajoritySide(sides, id)
    ensures MajorityStampsFit(sides, events) ==> (CanAdmitWrites(sides, to, id) <==> OnMajoritySide(sides, id))
  {
    RunKeepsInv(cfg, sides, from, events, to);
    assert NodeInv(sides, id, to[id]);
    if MajorityStampsFit(sides, events) {
      assert Served(sides, id, to[id]);
    }
  }

  /** Every membership of two or more, however it is cut, has such a converged start. */
  lemma EveryCutCanBeConverged(cfg: Config, sides: Sides) returns (from: Cluster)
    requires |sides| >= 2
    ensures Converged(sides, from) && Run(cfg, sides, from, [], from)
  {
    var fence := MinReplicasToWrite(Majority(sides));
    from := map id | id in sides :: Node(sides.Keys - {id}, FRESH, fence);
  }

  ghost predicate TwoWritableSides(sides: Sides, c: Cluster) {
    exists i, j :: i in sides && j in sides && i in c && j in c && sides[i] != sides[j]
                   && CanAdmitWrites(sides, c, i) && CanAdmitWrites(sides, c, j)
  }

  lemma TwoMajoritiesOverlap(sides: Sides, i: PeerId, j: PeerId)
    requires i in sides && j in sides && OnMajoritySide(sides, i) && OnMajoritySide(sides, j)
    ensures sides[i] == sides[j]
  {
    if sides[i] != sides[j] {
      SidesDoNotOverlap(sides, i, j);
    }
  }

  lemma InvHasOneWritableSide(sides: Sides, c: Cluster)
    requires Inv(sides, c)
    ensures !TwoWritableSides(sides, c)
  {
    if TwoWritableSides(sides, c) {
      var i, j :| i in sides && j in sides && i in c && j in c && sides[i] != sides[j]
                  && CanAdmitWrites(sides, c, i) && CanAdmitWrites(sides, c, j);
      assert NodeInv(sides, i, c[i]) && NodeInv(sides, j, c[j]);
      TwoMajoritiesOverlap(sides, i, j);
    }
  }

  /** Never two writable sides. */
  lemma NoTwoWritableSides(cfg: Config, sides: Sides, from: Cluster, events: seq<Event>, to: Cluster)
    requires Converged(sides, from) && Run(cfg, sides, from, events, to)
    ensures !TwoWritableSides(sides, to)
  {
    RunKeepsInv(cfg, sides, from, events, to);
    InvHasOneWritableSide(sides, to);
  }

  /** The fence is the least one that works: for every odd membership of five or more,
    * one lower leaves both sides of an even-as-possible cut writable at once. */
  lemma OneLowerIsUnsafe(sides: Sides, c: Cluster, i: PeerId, j: PeerId)
    requires |sides| >= 5 && |sides| % 2 == 1 && c.Keys == sides.Keys
    requires i in sides && j in sides && sides[i] != sides[j]
    requires |SideOf(sides, i)| == |sides| / 2 && |SideOf(sides, j)| == |sides| - |sides| / 2
    requires c[i].fence == c[j].fence == MinReplicasToWrite(Majority(sides)) - 1
    ensures CanAdmitWrites(sides, c, i) && CanAdmitWrites(sides, c, j)
  {
  }

  // ----- which stamps a restart may carry -------------------------------------------

  /** A node restarted with a stamp can admit writes exactly when the stamp fits its side. */
  lemma RestartIsWritableIffStampFits(cfg: Config, sides: Sides, c: Cluster, id: PeerId, stamp: nat)
    requires id in sides && id in c
    ensures CanAdmitWrites(sides, Apply(cfg, c, Restart(id, stamp)), id) <==> StampFits(sides, id, stamp)
  {
  }

  /** Some node of another side than `id`'s can admit writes. */
  ghost predicate WritableBeside(sides: Sides, c: Cluster, id: PeerId)
    requires id in sides
  {
    exists j :: j in sides && j in c && sides[j] != sides[id] && CanAdmitWrites(sides, c, j)
  }

  /** Where there are not two writable sides already, in any state whatever, a restart makes
    * them if and only if its stamp fits the node's own side and another side is writable. */
  lemma RestartReopensTheWindowIff(cfg: Config, sides: Sides, c: Cluster, id: PeerId, stamp: nat)
    requires c.Keys == sides.Keys && id in sides && !TwoWritableSides(sides, c)
    ensures TwoWritableSides(sides, Apply(cfg, c, Restart(id, stamp)))
            <==> StampFits(sides, id, stamp) && WritableBeside(sides, c, id)
  {
    var after := Apply(cfg, c, Restart(id, stamp));
    RestartIsWritableIffStampFits(cfg, sides, c, id, stamp);
    if StampFits(sides, id, stamp) && WritableBeside(sides, c, id) {
      var j :| j in sides && j in c && sides[j] != sides[id] && CanAdmitWrites(sides, c, j);
      assert CanAdmitWrites(sides, after, j);
    }
    if TwoWritableSides(sides, after) {
      var x, y :| x in sides && y in sides && x in after && y in after && sides[x] != sides[y]
                  && CanAdmitWrites(sides, after, x) && CanAdmitWrites(sides, after, y);
      if x != id && y != id {
        assert CanAdmitWrites(sides, c, x) && CanAdmitWrites(sides, c, y);
        assert false;
      }
      var other := if x == id then y else x;
      assert CanAdmitWrites(sides, c, other);
    }
  }

  ghost predicate MajorityWritable(sides: Sides, c: Cluster) {
    exists j :: j in sides && j in c && OnMajoritySide(sides, j) && CanAdmitWrites(sides, c, j)
  }

  /** In the states of the runs above that condition reads: the restart is off the majority
    * side, its stamp fits, and the majority is writable. Those restarts are what the runs
    * leave out, with the ones that fit a side while no majority is writable. */
  lemma RestartBesideTheMajorityIff(cfg: Config, sides: Sides, c: Cluster, id: PeerId, stamp: nat)
    requires Inv(sides, c) && id in sides
    ensures !TwoWritableSides(sides, c)
    ensures TwoWritableSides(sides, Apply(cfg, c, Restart(id, stamp)))
            <==> !OnMajoritySide(sides, id) && StampFits(sides, id, stamp) && MajorityWritable(sides, c)
  {
    InvHasOneWritableSide(sides, c);
    RestartReopensTheWindowIff(cfg, sides, c, id, stamp);
    if WritableBeside(sides, c, id) {
      var j :| j in sides && j in c && sides[j] != sides[id] && CanAdmitWrites(sides, c, j);
      assert NodeInv(sides, j, c[j]) && OnMajoritySide(sides, j);
      if OnMajoritySide(sides, id) {
        TwoMajoritiesOverlap(sides, id, j);
      }
    }
    if !OnMajoritySide(sides, id) && MajorityWritable(sides, c) {
      var j :| j in sides && j in c && OnMajoritySide(sides, j) && CanAdmitWrites(sides, c, j);
      assert SideOf(sides, id) != SideOf(sides, j);
    }
  }

  /** For example a founding node of a cluster scaled from three to five that still boots
    * with quorum 2: its side of two takes writes beside the majority until its watcher has
    * dwelt. */
  lemma StaleStampReopensTheWindow(cfg: Config, sides: Sides, c: Cluster, i: PeerId, j: PeerId)
    requires |sides| == 5 && Converged(sides, c)
    requires i in sides && j in sides && sides[i] != sides[j] && |SideOf(sides, i)| == 2 && |SideOf(sides, j)| == 3
    ensures TwoWritableSides(sides, Apply(cfg, c, Restart(i, 2)))
  {
    ConvergedHoldsInv(sides, c);
    assert Served(sides, j, c[j]) && CanAdmitWrites(sides, c, j);
    RestartBesideTheMajorityIff(cfg, sides, c, i, 2);
  }
}
