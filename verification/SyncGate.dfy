/** The sync gate: a replica that never completed a full sync is not a failover
  * candidate, across restarts and crashes between any two boot or watcher steps. */
module SyncGate {
  import opened Wrappers

  const GATED := 0
  const UNGATED := 100
  const PROMOTE := 1

  /** What a data dir holds, as far as the gate looks. */
  datatype Volume = Volume(rdb: bool, manifest: bool, legacyAof: bool, marker: bool) {
    predicate HoldsDataset() {
      rdb || manifest || legacyAof
    }
  }

  function DecideGated(sentinelEnabled: bool, replicatesFromPeer: bool, holdsDataset: bool,
                       gateEnabled: bool, pending: bool): bool
  {
    gateEnabled && sentinelEnabled && replicatesFromPeer && (!holdsDataset || pending)
  }

  predicate BlocksSwitchover(priority: nat) {
    priority == GATED
  }

  datatype GateStep = Wait | Lift | Stop

  datatype Role = Master | Slave | Other

  function DecideStep(role: Role, linkUp: bool, priority: nat): GateStep {
    match role
    case Slave => if priority != GATED then Stop else if linkUp then Lift else Wait
    case Master => Stop
    case Other => Wait
  }

  class DataDir {
    var rdb: bool
    var manifest: bool
    var legacyAof: bool
    var marker: bool

    function Abs(): Volume
      reads this
    {
      Volume(rdb, manifest, legacyAof, marker)
    }

    constructor (v: Volume)
      ensures Abs() == v
    {
      rdb, manifest, legacyAof, marker := v.rdb, v.manifest, v.legacyAof, v.marker;
    }

    method ClearPendingMarker() returns (removed: bool)
      modifies this`marker
      ensures removed == old(marker) && !marker
    {
      removed := marker;
      marker := false;
    }

    /** Decide this boot's gate and persist it for the boots that may follow. */
    method Arm(sentinelEnabled: bool, replicatesFromPeer: bool, gateEnabled: bool) returns (gated: bool)
      modifies this`marker
      ensures gated == DecideGated(sentinelEnabled, replicatesFromPeer, old(Abs()).HoldsDataset(), gateEnabled,
                                   old(marker))
      ensures Abs() == old(Abs()).(marker := gated)
    {
      gated := gateEnabled && sentinelEnabled && replicatesFromPeer && (!(rdb || manifest || legacyAof) || marker);
      if gated {
        if !marker {
          marker := true;
        }
      } else {
        var _ := ClearPendingMarker();
      }
    }
  }

  // ----- one node over many boots ----------------------------------------------------

  datatype Phase =
    | Down
    | ConfWritten(gated: bool, replica: bool)
    | Armed(gated: bool, replica: bool)
    | Running

  datatype Watcher =
    | Absent
    | Idle
    | SawInfo(role: Role, linkUp: bool)
    | SawPriority(role: Role, linkUp: bool, priority: nat)
    | Clearing

  datatype Switchover = NoSwitchover | Allowed(previous: nat) | Biased(previous: nat)

  /** `isMaster`, `linkUp` and `priority` are the running server's. The last four fields
    * record what has ever happened: a completed sync, a boot armed as master, a server
    * run as master, a first boot over a dataset no gate was pending for. */
  datatype Node = Node(vol: Volume, phase: Phase, isMaster: bool, linkUp: bool, priority: nat,
                       watcher: Watcher, switchover: Switchover,
                       synced: bool, armedAsMaster: bool, ranAsMaster: bool, realDataset: bool)

  function NewNode(vol: Volume): Node {
    Node(vol, Down, false, false, UNGATED, Absent, NoSwitchover,
         false, false, false, vol.HoldsDataset() && !vol.marker)
  }

  datatype Event =
    | WriteConf(replicatesFromPeer: bool)
    | Arm
    | StartServer(createsManifest: bool)
    | WriteFiles(rdb: bool, manifest: bool)
    | CompleteSync
    | DropLink
    | Promote
    | Demote
    | ReadInfo
    | ReadPriority
    | ActOnPoll
    | LoseConnection
    | ClearMarker
    | SwitchoverReads
    | SwitchoverBiases
    | SwitchoverRestores
    | Crash

  predicate Enabled(n: Node, e: Event) {
    match e
    case WriteConf(_) => n.phase == Down
    case Arm => n.phase.ConfWritten?
    case StartServer(_) => n.phase.Armed?
    case WriteFiles(_, _) => n.phase == Running
    case CompleteSync => n.phase == Running && !n.isMaster
    case DropLink => n.phase == Running && !n.isMaster
    case Promote => n.phase == Running && !n.isMaster && n.priority != GATED
    case Demote => n.phase == Running && n.isMaster
    case ReadInfo => n.phase == Running && n.watcher == Idle
    case ReadPriority => n.phase == Running && n.watcher.SawInfo?
    case ActOnPoll => n.phase == Running && n.watcher.SawPriority?
    case LoseConnection => n.phase == Running && (n.watcher.SawInfo? || n.watcher.SawPriority?)
    case ClearMarker => n.phase == Running && n.watcher == Clearing
    case SwitchoverReads => n.phase == Running && n.switchover == NoSwitchover
    case SwitchoverBiases => n.phase == Running && n.switchover.Allowed?
    case SwitchoverRestores => n.phase == Running && n.switchover.Biased?
    case Crash => true
  }

  function BootGated(n: Node, replicatesFromPeer: bool): bool {
    DecideGated(true, replicatesFromPeer, n.vol.HoldsDataset(), true, n.vol.marker)
  }

  function RoleOf(n: Node): Role {
    if n.isMaster then Master else Slave
  }

  function Apply(n: Node, e: Event): (after: Node)
    requires Enabled(n, e)
    ensures after.realDataset == n.realDataset
  {
    match e
    case WriteConf(r) => n.(phase := ConfWritten(BootGated(n, r), r))
    case Arm =>
      var gated := BootGated(n, n.phase.replica);
      n.(vol := n.vol.(marker := gated), phase := Armed(gated, n.phase.replica),
         armedAsMaster := n.armedAsMaster || !n.phase.replica)
    case StartServer(createsManifest) =>
      n.(vol := n.vol.(manifest := n.vol.manifest || createsManifest), phase := Running,
         isMaster := !n.phase.replica, linkUp := false,
         priority := if n.phase.gated then GATED else UNGATED,
         watcher := if n.phase.gated then Idle else Absent,
         ranAsMaster := n.ranAsMaster || !n.phase.replica)
    case WriteFiles(rdb, manifest) =>
      n.(vol := n.vol.(rdb := n.vol.rdb || rdb, manifest := n.vol.manifest || manifest))
    case CompleteSync => n.(linkUp := true, synced := true)
    case DropLink => n.(linkUp := false)
    case Promote => n.(isMaster := true, ranAsMaster := true)
    case Demote => n.(isMaster := false, linkUp := false)
    case ReadInfo => n.(watcher := SawInfo(RoleOf(n), n.linkUp))
    case ReadPriority => n.(watcher := SawPriority(n.watcher.role, n.watcher.linkUp, n.priority))
    case ActOnPoll =>
      (match DecideStep(n.watcher.role, n.watcher.linkUp, n.watcher.priority)
       case Wait => n.(watcher := Idle)
       case Lift => n.(priority := UNGATED, watcher := Clearing)
       case Stop => n.(watcher := if n.watcher.role == Master then Clearing else Absent))
    case LoseConnection => n.(watcher := Idle)
    case ClearMarker => n.(vol := n.vol.(marker := false), watcher := Absent)
    case SwitchoverReads => if BlocksSwitchover(n.priority) then n else n.(switchover := Allowed(n.priority))
    case SwitchoverBiases => n.(priority := PROMOTE, switchover := Biased(n.switchover.previous))
    case SwitchoverRestores => n.(priority := n.switchover.previous, switchover := NoSwitchover)
    case Crash => n.(phase := Down, watcher := Absent, switchover := NoSwitchover)
  }

  /** The state after a run, None as soon as an event is not possible. */
  function Run(n: Node, events: seq<Event>): Option<Node>
    decreases |events|
  {
    if events == [] then Some(n)
    else if !Enabled(n, events[0]) then None
    else Run(Apply(n, events[0]), events[1..])
  }

  // ----- the invariant ---------------------------------------------------------------

  /** Never completed a sync, never a master, never started from a real dataset. */
  predicate Empty(n: Node) {
    !n.synced && !n.armedAsMaster && !n.ranAsMaster && !n.realDataset
  }

  predicate Guarded(n: Node) {
    && (n.vol.HoldsDataset() ==> n.vol.marker) && n.switchover == NoSwitchover
    && match n.phase
       case Down => true
       case ConfWritten(gated, replica) => replica ==> gated
       case Armed(gated, replica) => gated && replica && n.vol.marker
       case Running =>
         && !n.isMaster && !n.linkUp && n.priority == GATED && n.vol.marker
         && (match n.watcher
             case SawInfo(role, linkUp) => role == Slave && !linkUp
             case SawPriority(role, linkUp, priority) => role == Slave && !linkUp && priority == GATED
             case Clearing => false
             case _ => true)
  }

  lemma EventKeepsGuard(n: Node, e: Event)
    requires Enabled(n, e) && (Empty(n) ==> Guarded(n))
    ensures Empty(Apply(n, e)) ==> Guarded(Apply(n, e))
  {
  }

  lemma {:induction false} RunKeepsGuard(n: Node, events: seq<Event>)
    requires Empty(n) ==> Guarded(n)
    requires Run(n, events).Some?
    ensures var last := Run(n, events).value; Empty(last) ==> Guarded(last)
    decreases |events|
  {
    if events != [] {
      EventKeepsGuard(n, events[0]);
      RunKeepsGuard(Apply(n, events[0]), events[1..]);
    }
  }

  /** The gate, over every run of boots and crashes from any volume: while the node is
    * empty it runs only as a replica at priority 0, and a volume that looks loadable
    * carries the pending marker. */
  lemma EmptyNodeIsNeverACandidate(vol: Volume, events: seq<Event>)
    requires Run(NewNode(vol), events).Some? && Empty(Run(NewNode(vol), events).value)
    ensures var n := Run(NewNode(vol), events).value;
            && (n.vol.HoldsDataset() ==> n.vol.marker)
            && (n.phase == Running ==> !n.isMaster && n.priority == GATED && BlocksSwitchover(n.priority))
  {
    RunKeepsGuard(NewNode(vol), events);
  }

  /** Once gated, the only way off priority 0 is the end of a sync: whatever happens next,
    * the node is still a gated replica, or it synced, or a boot was armed as master. */
  lemma OnlyASyncOrAMasterBootLiftsTheGate(n: Node, events: seq<Event>)
    requires Empty(n) && Guarded(n) && Run(n, events).Some?
    requires var last := Run(n, events).value; last.phase == Running && (last.priority != GATED || last.isMaster)
    ensures var last := Run(n, events).value; last.synced || last.armedAsMaster || last.ranAsMaster
  {
    RunKeepsGuard(n, events);
    RealDatasetIsFixed(n, events);
  }

  lemma {:induction false} RealDatasetIsFixed(n: Node, events: seq<Event>)
    requires Run(n, events).Some?
    ensures Run(n, events).value.realDataset == n.realDataset
    decreases |events|
  {
    if events != [] {
      RealDatasetIsFixed(Apply(n, events[0]), events[1..]);
    }
  }

  /** And the end of a sync does lift it: one poll of the watcher on a gated replica whose
    * link is up restores the default priority, and its last step removes the marker. */
  lemma OnePollLiftsASyncedReplica(n: Node)
    requires n.phase == Running && !n.isMaster && n.linkUp && n.priority == GATED && n.watcher == Idle
    ensures Run(n, [ReadInfo, ReadPriority, ActOnPoll, ClearMarker])
            == Some(n.(priority := UNGATED, vol := n.vol.(marker := false), watcher := Absent))
  {
    RunFour(n, [ReadInfo, ReadPriority, ActOnPoll, ClearMarker]);
  }

  /** How a poll of the watcher on any other node ends: on a replica still at priority 0 it goes
    * on watching; on a replica somebody else has given a priority it leaves for good and lets
    * priority and marker be; and on a master it leaves and removes the marker. */
  lemma PollEnds(n: Node)
    requires n.phase == Running && n.watcher == Idle
    ensures var end := Run(n, [ReadInfo, ReadPriority, ActOnPoll]);
            end == Some(if n.isMaster then n.(watcher := Clearing)
                        else if n.priority != 0 then n.(watcher := Absent)
                        else if n.linkUp then n.(priority := 100, watcher := Clearing)
                        else n)
  {
    var events := [ReadInfo, ReadPriority, ActOnPoll];
    assert events[1..] == [ReadPriority, ActOnPoll] && events[1..][1..] == [ActOnPoll] && [ActOnPoll][1..] == [];
    var n1 := Apply(n, ReadInfo);
    var n2 := Apply(n1, ReadPriority);
    assert Run(n2, [ActOnPoll]) == Run(Apply(n2, ActOnPoll), []);
    assert Run(n1, [ReadPriority, ActOnPoll]) == Run(n2, [ActOnPoll]);
  }

  /** Steps of the watcher and of the server beside it; nobody sets the priority. */
  predicate LeavesPriorityAlone(e: Event) {
    || e.ReadInfo? || e.ReadPriority? || e.ActOnPoll? || e.LoseConnection? || e.ClearMarker?
    || e.WriteFiles? || e.CompleteSync? || e.DropLink? || e.Promote? || e.Demote?
  }

  predicate SawOnly(n: Node, p: nat) {
    n.phase == Running && n.priority == p && (n.watcher.SawPriority? ==> n.watcher.priority == p)
  }

  lemma WatcherStepKeepsPriority(n: Node, e: Event)
    requires Enabled(n, e) && LeavesPriorityAlone(e) && SawOnly(n, n.priority) && n.priority != GATED
    ensures SawOnly(Apply(n, e), n.priority)
  {
  }

  /** The watcher gives back the default priority only in place of 0: a priority somebody else
    * has set survives every run of its polls, whatever the link does meanwhile. */
  lemma {:induction false} SetPrioritySurvivesTheWatcher(n: Node, events: seq<Event>)
    requires SawOnly(n, n.priority) && n.priority != GATED
    requires Run(n, events).Some? && forall i | 0 <= i < |events| :: LeavesPriorityAlone(events[i])
    ensures Run(n, events).value.priority == n.priority
    decreases |events|
  {
    if events != [] {
      WatcherStepKeepsPriority(n, events[0]);
      SetPrioritySurvivesTheWatcher(Apply(n, events[0]), events[1..]);
    }
  }

  /** A server at priority 0 is a replica that its watcher is still watching, and that no
    * switchover has touched. */
  predicate Watched(n: Node) {
    && (n.phase != Running ==> n.switchover == NoSwitchover)
    && (n.phase.ConfWritten? || n.phase.Armed? ==> (n.phase.gated ==> n.phase.replica))
    && (n.switchover.Allowed? ==> n.switchover.previous != GATED)
    && (n.switchover.Biased? ==> n.switchover.previous != GATED)
    && (n.phase == Running && n.priority == GATED ==>
          && !n.isMaster && n.switchover == NoSwitchover
          && match n.watcher
             case Idle => true
             case SawInfo(role, _) => role == Slave
             case SawPriority(role, _, priority) => role == Slave && priority == GATED
             case _ => false)
  }

  lemma EventKeepsWatched(n: Node, e: Event)
    requires Enabled(n, e) && Watched(n)
    ensures Watched(Apply(n, e))
  {
  }

  /** No gate is forgotten: in every run, a server at priority 0 has its watcher, which a sync and
    * one poll away gives the default priority back. */
  lemma {:induction false} GatedServerIsWatched(n: Node, events: seq<Event>)
    requires Watched(n) && Run(n, events).Some?
    ensures Watched(Run(n, events).value)
    decreases |events|
  {
    if events != [] {
      EventKeepsWatched(n, events[0]);
      GatedServerIsWatched(Apply(n, events[0]), events[1..]);
    }
  }

  lemma NewNodeIsWatched(vol: Volume)
    ensures Watched(NewNode(vol))
  {
  }

  // ----- a master boot that dies before its server starts --------------------------------

  /** Never completed a sync, never ran as a master, never started from a real dataset. */
  predicate Bare(n: Node) {
    !n.synced && !n.ranAsMaster && !n.realDataset
  }

  predicate ArmedAsMaster(n: Node) {
    n.phase.Armed? && !n.phase.replica
  }

  /** The crash that matters: arming a boot as master has removed the marker, its server has
    * not started, and the volume looks loadable. */
  predicate HarmfulCrash(n: Node, e: Event) {
    e.Crash? && ArmedAsMaster(n) && n.vol.HoldsDataset()
  }

  predicate Spared(n: Node, events: seq<Event>)
    requires Run(n, events).Some?
    decreases |events|
  {
    events != [] ==> !HarmfulCrash(n, events[0]) && Spared(Apply(n, events[0]), events[1..])
  }

  /** `Guarded`, but for a boot armed as master, which has given its marker up. */
  predicate GuardedOrArmed(n: Node) {
    if ArmedAsMaster(n) then n.switchover == NoSwitchover else Guarded(n)
  }

  lemma EventKeepsBareGuard(n: Node, e: Event)
    requires Enabled(n, e) && !HarmfulCrash(n, e) && (Bare(n) ==> GuardedOrArmed(n))
    ensures Bare(Apply(n, e)) ==> GuardedOrArmed(Apply(n, e))
  {
  }

  lemma {:induction false} SparedRunKeepsBareGuard(n: Node, events: seq<Event>)
    requires Run(n, events).Some? && Spared(n, events) && (Bare(n) ==> GuardedOrArmed(n))
    ensures var last := Run(n, events).value; Bare(last) ==> GuardedOrArmed(last)
    decreases |events|
  {
    if events != [] {
      EventKeepsBareGuard(n, events[0]);
      SparedRunKeepsBareGuard(Apply(n, events[0]), events[1..]);
    }
  }

  /** On every run spared that crash, "never a master" may mean that no server ever ran as
    * one: a running node that never synced, never ran as master and did not start from a
    * real dataset is a replica at priority 0. */
  lemma SparedEmptyNodeIsNeverACandidate(vol: Volume, events: seq<Event>)
    requires Run(NewNode(vol), events).Some? && Spared(NewNode(vol), events)
    requires var n := Run(NewNode(vol), events).value; n.phase == Running && Bare(n)
    ensures var n := Run(NewNode(vol), events).value; !n.isMaster && n.priority == GATED && n.vol.marker
  {
    SparedRunKeepsBareGuard(NewNode(vol), events);
  }

  const UNGATED_BOOT: seq<Event> := [Crash, WriteConf(true), Arm, StartServer(false)]

  lemma EventGivesTheMarkerUp(n: Node, e: Event)
    requires Enabled(n, e) && (ArmedAsMaster(n) ==> !n.vol.marker)
    ensures ArmedAsMaster(Apply(n, e)) ==> !Apply(n, e).vol.marker
  {
  }

  lemma {:induction false} ArmedMastersGaveTheMarkerUp(n: Node, events: seq<Event>)
    requires Run(n, events).Some? && (ArmedAsMaster(n) ==> !n.vol.marker)
    ensures var last := Run(n, events).value; ArmedAsMaster(last) ==> !last.vol.marker
    decreases |events|
  {
    if events != [] {
      EventGivesTheMarkerUp(n, events[0]);
      ArmedMastersGaveTheMarkerUp(Apply(n, events[0]), events[1..]);
    }
  }

  /** And that crash is never harmless: wherever a run reaches it with a bare node, one more
    * boot as replica serves the empty volume at priority 100, a candidate for promotion. */
  lemma HarmfulCrashUngatesABareNode(vol: Volume, events: seq<Event>)
    requires Run(NewNode(vol), events).Some?
    requires var n := Run(NewNode(vol), events).value; Bare(n) && HarmfulCrash(n, Crash)
    ensures var end := Run(NewNode(vol), events + UNGATED_BOOT);
            && end.Some? && end.value.phase == Running && !end.value.isMaster && end.value.priority == UNGATED
            && Bare(end.value)
  {
    var n := Run(NewNode(vol), events).value;
    ArmedMastersGaveTheMarkerUp(NewNode(vol), events);
    RunFour(n, UNGATED_BOOT);
    RunConcat(NewNode(vol), events, UNGATED_BOOT);
  }

  const GATED_BOOT_THEN_CRASH: seq<Event> := [WriteConf(true), Arm, StartServer(true), Crash]
  const MASTER_ARM: seq<Event> := [WriteConf(false), Arm]

  /** It is reached from a blank volume: a gated boot whose server writes an empty manifest,
    * killed, and then a boot as master, killed before its server starts. */
  lemma HarmfulCrashIsReachable()
    ensures var blank := NewNode(Volume(false, false, false, false));
            var end := Run(blank, GATED_BOOT_THEN_CRASH + MASTER_ARM);
            end.Some? && Bare(end.value) && HarmfulCrash(end.value, Crash)
  {
    var blank := NewNode(Volume(false, false, false, false));
    var empty := blank.(vol := Volume(false, true, false, true), priority := GATED);
    RunFour(blank, GATED_BOOT_THEN_CRASH);
    assert Run(blank, GATED_BOOT_THEN_CRASH) == Some(empty);
    assert MASTER_ARM[1..] == [Arm] && [Arm][1..] == [];
    var written := Apply(empty, WriteConf(false));
    assert Run(written, [Arm]) == Run(Apply(written, Arm), []);
    assert Run(empty, MASTER_ARM) == Run(written, [Arm]);
    RunConcat(blank, GATED_BOOT_THEN_CRASH, MASTER_ARM);
  }

  lemma RunFour(n: Node, es: seq<Event>)
    requires |es| == 4 && Enabled(n, es[0])
    requires var n1 := Apply(n, es[0]); Enabled(n1, es[1])
    requires var n2 := Apply(Apply(n, es[0]), es[1]); Enabled(n2, es[2])
    requires var n3 := Apply(Apply(Apply(n, es[0]), es[1]), es[2]); Enabled(n3, es[3])
    ensures Run(n, es) == Some(Apply(Apply(Apply(Apply(n, es[0]), es[1]), es[2]), es[3]))
  {
    assert es[1..][1..] == es[2..] && es[2..][1..] == es[3..] && es[3..][1..] == [];
    var n1 := Apply(n, es[0]);
    var n2 := Apply(n1, es[1]);
    var n3 := Apply(n2, es[2]);
    assert Run(n3, es[3..]) == Run(Apply(n3, es[3]), []);
    assert Run(n2, es[2..]) == Run(n3, es[3..]);
    assert Run(n1, es[1..]) == Run(n2, es[2..]);
  }

  lemma {:induction false} RunConcat(n: Node, a: seq<Event>, b: seq<Event>)
    requires Run(n, a).Some?
    ensures Run(n, a + b) == Run(Run(n, a).value, b)
    decreases |a|
  {
    if a == [] {
      assert a + b == b;
    } else {
      assert (a + b)[1..] == a[1..] + b;
      RunConcat(Apply(n, a[0]), a[1..], b);
    }
  }
}
