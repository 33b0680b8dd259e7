/** Boot-time role resolution and the empty-primary guard: from the volume, the peers'
  * answers and the membership probe to how this boot ends. */
module BootRole {
  import opened Wrappers
  import opened Text
  import opened Tally
  import opened Decimal
  import SyncGate

  datatype Config = Config(sentinelEnabled: bool, replicaOf: string, privateDomain: string,
                           redisPort: nat, sentinelHosts: string)

  /** The kill switches; `true` leaves the behaviour on. */
  datatype Switches = Switches(bootRole: bool, peerBoot: bool, memberProbe: bool,
                               selfCheck: bool, emptyGuard: bool, syncGate: bool)

  const ALL_ON := Switches(true, true, true, true, true, true)

  /** sentinel.conf as this boot finds it. `Torn` reads but has no usable monitor line. */
  datatype Conf = Missing | Unreadable | Torn | Monitors(host: string, port: int)

  /** Everything outside the configuration: the volume, who answers what, and which
    * addresses authenticate as live members. */
  datatype World = World(conf: Conf, holdsDataset: bool, gatePending: bool,
                         answers: seq<Address>, live: set<Address>)

  datatype BootMaster = SelfIsMaster | ReplicaOf(host: string, port: int) | NoLocalState

  datatype Resolution = Resolution(master: BootMaster, peersNamedSelf: bool, confNamesSelf: bool)

  datatype EmptyPrimaryBoot = Proceed | ProceedAlone | Refuse

  // ----- the declared topology ---------------------------------------------------------

  predicate IsPrimary(cfg: Config) {
    cfg.replicaOf == ""
  }

  function InitialMasterHost(cfg: Config): string {
    if IsPrimary(cfg) then cfg.privateDomain else SplitOn(cfg.replicaOf, ':')[0]
  }

  predicate AddrIsSelf(cfg: Config, a: Address) {
    a.1 == cfg.redisPort && NormalizeHost(a.0) == NormalizeHost(cfg.privateDomain)
  }

  function HostCandidates(cfg: Config): seq<string> {
    var peers := SplitOn(cfg.sentinelHosts, ',');
    seq(|peers|, i requires 0 <= i < |peers| => SplitOn(Trim(peers[i]), ':')[0])
    + [cfg.privateDomain, InitialMasterHost(cfg)]
  }

  predicate MasterIsDeclared(cfg: Config, host: string) {
    && NormalizeHost(host) != ""
    && exists c | c in HostCandidates(cfg) :: NormalizeHost(c) == NormalizeHost(host)
  }

  /** One of the first `n` candidates normalises to `h`. */
  ghost predicate NamedBy(candidates: seq<string>, n: nat, h: string) {
    exists k :: 0 <= k < n <= |candidates| && NormalizeHost(candidates[k]) == h
  }

  /** Every declared member host once, in the order the variables name them. */
  method DeclaredHosts(cfg: Config) returns (hosts: seq<string>)
    ensures forall h :: h in hosts <==> h != "" && NamedBy(HostCandidates(cfg), |HostCandidates(cfg)|, h)
    ensures forall i, j | 0 <= i < j < |hosts| :: hosts[i] != hosts[j]
  {
    var candidates := HostCandidates(cfg);
    hosts := [];
    for n := 0 to |candidates|
      invariant forall h :: h in hosts <==> h != "" && NamedBy(candidates, n, h)
      invariant forall i, j | 0 <= i < j < |hosts| :: hosts[i] != hosts[j]
    {
      var normalized := NormalizeHost(candidates[n]);
      forall h
        ensures NamedBy(candidates, n + 1, h) <==> NamedBy(candidates, n, h) || normalized == h
      {
      }
      if normalized != "" && normalized !in hosts {
        hosts := hosts + [normalized];
      }
    }
  }

  /** The list and the membership test agree on every host, however it is spelled. */
  lemma DeclaredIsListed(cfg: Config, host: string)
    ensures MasterIsDeclared(cfg, host)
            <==> NormalizeHost(host) != "" && NamedBy(HostCandidates(cfg), |HostCandidates(cfg)|, NormalizeHost(host))
  {
    var candidates := HostCandidates(cfg);
    if k :| 0 <= k < |candidates| && NormalizeHost(candidates[k]) == NormalizeHost(host) {
      assert candidates[k] in candidates;
    }
  }

  /** `host:port` split at the first colon, with a parsable port. */
  function HostPort(entry: string): Option<Address> {
    var n := IndexOf(entry, ':');
    if n == |entry| then None
    else
      var port := ParseUnsigned(entry[n + 1..], U16_MAX);
      if port.Some? && n > 0 then Some((entry[..n], port.value)) else None
  }

  function PeerSentinels(cfg: Config, entries: seq<string>): seq<Address> {
    if entries == [] then []
    else
      var a := HostPort(Trim(entries[0]));
      (if a.Some? && NormalizeHost(a.value.0) != NormalizeHost(cfg.privateDomain) then [a.value] else [])
      + PeerSentinels(cfg, entries[1..])
  }

  function PeerSentinelAddrs(cfg: Config): seq<Address> {
    PeerSentinels(cfg, SplitOn(cfg.sentinelHosts, ','))
  }

  // ----- resolution ----------------------------------------------------------------------

  predicate IsMember(cfg: Config, sw: Switches, w: World, a: Address) {
    MasterIsDeclared(cfg, a.0) || (sw.memberProbe && a in w.live)
  }

  /** The majority of the peers' answers; without peers nobody is asked. */
  function QueryPeers(cfg: Config, w: World): Option<Address> {
    if PeerSentinelAddrs(cfg) == [] then None else MajorityOf(w.answers)
  }

  /** What sentinel.conf alone says, after a condemned one has been moved aside. */
  function LocalState(cfg: Config, sw: Switches, w: World): BootMaster {
    if !w.conf.Monitors? then NoLocalState
    else
      var a := (w.conf.host, w.conf.port);
      if AddrIsSelf(cfg, a) then SelfIsMaster
      else if IsMember(cfg, sw, w, a) then ReplicaOf(a.0, a.1)
      else NoLocalState
  }

  predicate ConfNamesSelf(cfg: Config, w: World) {
    w.conf.Monitors? && AddrIsSelf(cfg, (w.conf.host, w.conf.port))
  }

  /** A vetted peer majority contradicting a conf that names this node. */
  function PeerCheckSelfMaster(cfg: Config, sw: Switches, w: World): Option<BootMaster> {
    var answer := if sw.selfCheck then QueryPeers(cfg, w) else None;
    if answer.Some? && !AddrIsSelf(cfg, answer.value) && IsMember(cfg, sw, w, answer.value)
    then Some(ReplicaOf(answer.value.0, answer.value.1)) else None
  }

  function ResolveFromPeers(cfg: Config, sw: Switches, w: World): Resolution {
    var answer := if sw.peerBoot then QueryPeers(cfg, w) else None;
    if answer.None? || !IsMember(cfg, sw, w, answer.value) then Resolution(NoLocalState, false, false)
    else if AddrIsSelf(cfg, answer.value) then Resolution(NoLocalState, true, false)
    else Resolution(ReplicaOf(answer.value.0, answer.value.1), false, false)
  }

  function Resolve(cfg: Config, sw: Switches, w: World): Resolution {
    if !cfg.sentinelEnabled then Resolution(NoLocalState, false, false)
    else if !sw.bootRole then Resolution(NoLocalState, false, ConfNamesSelf(cfg, w))
    else
      match LocalState(cfg, sw, w)
      case SelfIsMaster =>
        var demoted := PeerCheckSelfMaster(cfg, sw, w);
        if demoted.Some? then Resolution(demoted.value, false, false)
        else Resolution(SelfIsMaster, false, true)
      case ReplicaOf(host, port) => Resolution(ReplicaOf(host, port), false, false)
      case NoLocalState => ResolveFromPeers(cfg, sw, w)
  }

  /** The resolution as the wrapper runs it: local state, then the peer cross-check, then
    * the peer query, with the evidence flags set on the way. */
  method BootMasterForThisBoot(cfg: Config, sw: Switches, w: World) returns (r: Resolution)
    ensures r == Resolve(cfg, sw, w)
  {
    if !cfg.sentinelEnabled {
      return Resolution(NoLocalState, false, false);
    }
    if !sw.bootRole {
      return Resolution(NoLocalState, false, ConfNamesSelf(cfg, w));
    }
    var resolved := LocalState(cfg, sw, w);
    if resolved.SelfIsMaster? {
      var demoted := PeerCheckSelfMaster(cfg, sw, w);
      if demoted.Some? {
        return Resolution(demoted.value, false, false);
      }
    }
    if !resolved.NoLocalState? {
      return Resolution(resolved, false, resolved.SelfIsMaster?);
    }
    var peersNamedSelf := false;
    if sw.peerBoot && PeerSentinelAddrs(cfg) != [] {
      var answer := MajorityAnswer(w.answers);
      if answer.Some? && IsMember(cfg, sw, w, answer.value) {
        if !AddrIsSelf(cfg, answer.value) {
          return Resolution(ReplicaOf(answer.value.0, answer.value.1), false, false);
        }
        peersNamedSelf := true;
      }
    }
    return Resolution(NoLocalState, peersNamedSelf, false);
  }

  function DecideEmptyPrimaryBoot(peersNamedSelf: bool, confNamesSelf: bool, isPrimary: bool,
                                  holdsDataset: bool, hasPeers: bool, guardEnabled: bool): EmptyPrimaryBoot
  {
    if guardEnabled && ((peersNamedSelf && isPrimary) || (confNamesSelf && hasPeers)) && !holdsDataset then Refuse
    else if guardEnabled && confNamesSelf && !hasPeers && !holdsDataset then ProceedAlone
    else Proceed
  }

  function ReplicateFrom(cfg: Config, master: BootMaster): Option<Address> {
    match master
    case NoLocalState => if IsPrimary(cfg) then None else HostPort(cfg.replicaOf)
    case SelfIsMaster => None
    case ReplicaOf(host, port) => Some((host, port))
  }

  // ----- how the boot ends ------------------------------------------------------------------

  datatype Ending = Refused | Replica(source: Address, priority: nat) | MasterBoot

  function EndFrom(cfg: Config, sw: Switches, w: World, r: Resolution): Ending {
    var guard := DecideEmptyPrimaryBoot(r.peersNamedSelf, r.confNamesSelf, IsPrimary(cfg), w.holdsDataset,
                                        PeerSentinelAddrs(cfg) != [], sw.emptyGuard);
    if guard == Refuse then Refused
    else
      var source := ReplicateFrom(cfg, r.master);
      if source.None? then MasterBoot
      else Replica(source.value,
                   if SyncGate.DecideGated(cfg.sentinelEnabled, true, w.holdsDataset, sw.syncGate, w.gatePending)
                   then SyncGate.GATED else SyncGate.UNGATED)
  }

  function End(cfg: Config, sw: Switches, w: World): Ending {
    EndFrom(cfg, sw, w, Resolve(cfg, sw, w))
  }

  /** A majority of the peers names this node, and the answer passes the membership bar. */
  predicate VettedPeersNameSelf(cfg: Config, w: World) {
    var answer := QueryPeers(cfg, w);
    answer.Some? && AddrIsSelf(cfg, answer.value) && IsMember(cfg, ALL_ON, w, answer.value)
  }

  /** The wipe: an empty master that its own conf or its vetted peers still name, with
    * peers there to copy the emptiness. */
  predicate StagesWipe(cfg: Config, w: World) {
    && !w.holdsDataset && End(cfg, ALL_ON, w).MasterBoot?
    && (ConfNamesSelf(cfg, w) || VettedPeersNameSelf(cfg, w))
    && PeerSentinelAddrs(cfg) != []
  }

  predicate WellFormedReplicaOf(cfg: Config) {
    IsPrimary(cfg) || HostPort(cfg.replicaOf).Some?
  }

  /** What the evidence flags of a resolution must mean. */
  ghost predicate Evidence(cfg: Config, w: World, r: Resolution) {
    match r.master
    case SelfIsMaster => r.confNamesSelf && !r.peersNamedSelf && ConfNamesSelf(cfg, w)
    case ReplicaOf(_, _) => !r.confNamesSelf && !r.peersNamedSelf
    case NoLocalState => && !r.confNamesSelf && !ConfNamesSelf(cfg, w)
                         && LocalState(cfg, ALL_ON, w).NoLocalState?
                         && (r.peersNamedSelf <==> VettedPeersNameSelf(cfg, w))
  }

  lemma EvidenceFromConf(cfg: Config, w: World)
    requires cfg.sentinelEnabled && !LocalState(cfg, ALL_ON, w).NoLocalState?
    ensures Evidence(cfg, w, Resolve(cfg, ALL_ON, w))
  {
    assert LocalState(cfg, ALL_ON, w).SelfIsMaster? ==> ConfNamesSelf(cfg, w);
  }

  lemma EvidenceFromPeers(cfg: Config, w: World)
    requires cfg.sentinelEnabled && LocalState(cfg, ALL_ON, w).NoLocalState?
    ensures var r := ResolveFromPeers(cfg, ALL_ON, w);
            && (r.master.NoLocalState? ==>
                  !ConfNamesSelf(cfg, w) && (r.peersNamedSelf <==> VettedPeersNameSelf(cfg, w)))
            && (VettedPeersNameSelf(cfg, w) ==> r.master.NoLocalState?)
            && !r.confNamesSelf && !r.master.SelfIsMaster? && (r.master.ReplicaOf? ==> !r.peersNamedSelf)
  {
  }

  /** What the evidence flags mean, for each way the role can be resolved. */
  lemma ResolutionEvidence(cfg: Config, w: World)
    requires cfg.sentinelEnabled
    ensures Evidence(cfg, w, Resolve(cfg, ALL_ON, w))
    ensures LocalState(cfg, ALL_ON, w).NoLocalState? && VettedPeersNameSelf(cfg, w)
            ==> Resolve(cfg, ALL_ON, w).master.NoLocalState?
  {
    if LocalState(cfg, ALL_ON, w).NoLocalState? {
      EvidenceFromPeers(cfg, w);
    } else {
      EvidenceFromConf(cfg, w);
    }
  }

  /** Every Sentinel boot over nothing, with the switches on, is refused, or a replica no
    * election picks, or a master that nobody named, or alone. */
  lemma EmptyBootEndsSafely(cfg: Config, w: World)
    requires cfg.sentinelEnabled && WellFormedReplicaOf(cfg) && !w.holdsDataset
    ensures match End(cfg, ALL_ON, w)
            case Refused => ConfNamesSelf(cfg, w) || VettedPeersNameSelf(cfg, w)
            case Replica(_, priority) => priority == SyncGate.GATED
            case MasterBoot =>
              || (!ConfNamesSelf(cfg, w) && !VettedPeersNameSelf(cfg, w))
              || (ConfNamesSelf(cfg, w) && PeerSentinelAddrs(cfg) == [])
  {
    ResolutionEvidence(cfg, w);
    EmptyEndIsSafe(cfg, w, Resolve(cfg, ALL_ON, w));
  }

  lemma EmptyEndIsSafe(cfg: Config, w: World, r: Resolution)
    requires cfg.sentinelEnabled && WellFormedReplicaOf(cfg) && !w.holdsDataset
    requires r.confNamesSelf <==> r.master.SelfIsMaster?
    requires r.peersNamedSelf ==> r.master.NoLocalState?
    ensures match EndFrom(cfg, ALL_ON, w, r)
            case Refused => r.confNamesSelf || r.peersNamedSelf
            case Replica(_, priority) => priority == SyncGate.GATED
            case MasterBoot =>
              || (r.master.NoLocalState? && !r.peersNamedSelf)
              || (r.confNamesSelf && PeerSentinelAddrs(cfg) == [])
  {
  }

  lemma EndingWithAMalformedReplicaOf(cfg: Config, w: World)
    requires cfg.sentinelEnabled && !WellFormedReplicaOf(cfg)
    ensures StagesWipe(cfg, w)
            <==> !w.holdsDataset && LocalState(cfg, ALL_ON, w) == NoLocalState && VettedPeersNameSelf(cfg, w)
  {
    ResolutionEvidence(cfg, w);
  }

  /** Which deployments can stage the wipe at all: exactly those whose REPLICA_OF is set to
    * something that is not host:port while peers are configured. Such a node is no primary
    * to the guard and no replica to redis.conf. */
  lemma NoWipeIffReplicaOfParses(cfg: Config)
    requires cfg.sentinelEnabled
    ensures (forall w :: !StagesWipe(cfg, w)) <==> (WellFormedReplicaOf(cfg) || PeerSentinelAddrs(cfg) == [])
  {
    if WellFormedReplicaOf(cfg) {
      forall w
        ensures !StagesWipe(cfg, w)
      {
        if !w.holdsDataset {
          EmptyBootEndsSafely(cfg, w);
        }
      }
    } else if PeerSentinelAddrs(cfg) != [] {
      var self := (cfg.privateDomain, cfg.redisPort);
      var w := World(Missing, false, false, [self], {self});
      EndingWithAMalformedReplicaOf(cfg, w);
      assert MajorityOf(w.answers) == Some(self);
      assert StagesWipe(cfg, w);
    }
  }

  /** A node that was down for the whole failover does not come back as a second master. */
  lemma ContradictedMasterBootsAsReplica(cfg: Config, w: World, a: Address)
    requires cfg.sentinelEnabled && ConfNamesSelf(cfg, w)
    requires QueryPeers(cfg, w) == Some(a) && !AddrIsSelf(cfg, a) && IsMember(cfg, ALL_ON, w, a)
    ensures End(cfg, ALL_ON, w).Replica? && End(cfg, ALL_ON, w).source == a
  {
  }
}
