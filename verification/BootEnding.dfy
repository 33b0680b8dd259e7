/** How every boot with Sentinel ends, from its sentinel.conf, the peers' answers, the
  * membership probe and the deploy-time topology, for every volume and every kill switch. */
module BootEnding {
  import opened Wrappers
  import opened Text
  import opened Tally
  import opened Decimal
  import opened BootRole
  import SyncGate

  // ----- the words the cases are told in ------------------------------------------------

  /** The address is this node's, in any spelling of its host. */
  predicate ThisNode(cfg: Config, a: Address) {
    NormalizeHost(a.0) == NormalizeHost(cfg.privateDomain) && a.1 == cfg.redisPort
  }

  /** Text before the first colon. */
  function HostPart(s: string): string {
    s[..IndexOf(s, ':')]
  }

  predicate Spells(s: string, host: string) {
    NormalizeHost(s) == NormalizeHost(host)
  }

  predicate NamedInHosts(cfg: Config, host: string) {
    exists i :: 0 <= i < |SplitOn(cfg.sentinelHosts, ',')|
                && Spells(HostPart(Trim(SplitOn(cfg.sentinelHosts, ',')[i])), host)
  }

  /** The deployment names the host: among the Sentinel hosts, as this node, or as the node to
    * replicate from. */
  predicate Named(cfg: Config, host: string) {
    && NormalizeHost(host) != ""
    && (NamedInHosts(cfg, host) || Spells(cfg.privateDomain, host)
        || (cfg.replicaOf != "" && Spells(HostPart(cfg.replicaOf), host)))
  }

  /** A member of this cluster: named by the deployment, or answering the probe. */
  predicate Member(cfg: Config, sw: Switches, w: World, a: Address) {
    Named(cfg, a.0) || (sw.memberProbe && a in w.live)
  }

  predicate AnotherNode(cfg: Config, entry: string) {
    HostPort(Trim(entry)).Some? && !Spells(HostPort(Trim(entry)).value.0, cfg.privateDomain)
  }

  /** Some entry of the Sentinel hosts is a host and port of another node. */
  predicate HasPeers(cfg: Config) {
    exists i :: 0 <= i < |SplitOn(cfg.sentinelHosts, ',')| && AnotherNode(cfg, SplitOn(cfg.sentinelHosts, ',')[i])
  }

  /** Most of the peers that answered name `a`, the earliest named on a tie. */
  ghost predicate PeersName(cfg: Config, w: World, a: Address) {
    HasPeers(cfg) && exists i :: IsMajority(Keys(w.answers), i) && w.answers[i] == a
  }

  predicate ConfNames(w: World, a: Address) {
    w.conf.Monitors? && a == (w.conf.host, w.conf.port)
  }

  /** A replica of `a`, a failover candidate only with a dataset and no first sync pending. */
  predicate ReplicatesFrom(sw: Switches, w: World, a: Address, end: Ending) {
    end == Replica(a, if sw.syncGate && (!w.holdsDataset || w.gatePending) then 0 else 100)
  }

  /** The role REPLICA_OF gives: a replica of it if it is a host and port, else a master. */
  predicate FollowsDeployment(cfg: Config, sw: Switches, w: World, end: Ending) {
    match HostPort(cfg.replicaOf)
    case Some(a) => ReplicatesFrom(sw, w, a, end)
    case None => end == MasterBoot
  }

  /** The guard stops a boot that would be an empty master with peers to copy it. */
  predicate GuardStops(sw: Switches, w: World) {
    sw.emptyGuard && !w.holdsDataset
  }

  // ----- the model's own words mean these -------------------------------------------------

  lemma MemberMeans(cfg: Config, sw: Switches, w: World, a: Address)
    ensures IsMember(cfg, sw, w, a) <==> Member(cfg, sw, w, a)
  {
    var candidates, peers := HostCandidates(cfg), SplitOn(cfg.sentinelHosts, ',');
    if MasterIsDeclared(cfg, a.0) {
      var c :| c in candidates && NormalizeHost(c) == NormalizeHost(a.0);
      var i :| 0 <= i < |candidates| && candidates[i] == c;
      if i < |peers| {
        assert Spells(HostPart(Trim(peers[i])), a.0);
      }
    }
    if Named(cfg, a.0) {
      if NamedInHosts(cfg, a.0) {
        var i :| 0 <= i < |peers| && Spells(HostPart(Trim(peers[i])), a.0);
        assert candidates[i] == HostPart(Trim(peers[i]));
      } else if Spells(cfg.privateDomain, a.0) {
        assert candidates[|peers|] == cfg.privateDomain;
      } else {
        assert candidates[|peers| + 1] == HostPart(cfg.replicaOf);
      }
    }
  }

  lemma {:induction false} SomePeer(cfg: Config, entries: seq<string>)
    ensures PeerSentinels(cfg, entries) != [] <==> exists i :: 0 <= i < |entries| && AnotherNode(cfg, entries[i])
  {
    if entries != [] {
      SomePeer(cfg, entries[1..]);
      if i :| 0 <= i < |entries| && AnotherNode(cfg, entries[i]) {
        assert i > 0 ==> AnotherNode(cfg, entries[1..][i - 1]);
      }
      if i :| 0 <= i < |entries[1..]| && AnotherNode(cfg, entries[1..][i]) {
        assert AnotherNode(cfg, entries[i + 1]);
      }
    }
  }

  lemma PeersMeans(cfg: Config, w: World)
    ensures PeerSentinelAddrs(cfg) != [] <==> HasPeers(cfg)
    ensures forall a :: QueryPeers(cfg, w) == Some(a) <==> PeersName(cfg, w, a)
  {
    SomePeer(cfg, SplitOn(cfg.sentinelHosts, ','));
    var keys := Keys(w.answers);
    if w.answers != [] {
      LeaderIsMajority(keys);
      forall i | IsMajority(keys, i)
        ensures i == Leader(keys, |keys|)
      {
        MajorityIsUnique(keys, i, Leader(keys, |keys|));
      }
    }
  }

  // ----- the cases ---------------------------------------------------------------------------

  lemma ReplicaEnds(cfg: Config, sw: Switches, w: World, a: Address)
    requires cfg.sentinelEnabled
    ensures ReplicatesFrom(sw, w, a, EndFrom(cfg, sw, w, Resolution(ReplicaOf(a.0, a.1), false, false)))
  {
  }

  lemma DeploymentEnds(cfg: Config, sw: Switches, w: World, peersNamedSelf: bool, confNamesSelf: bool)
    requires cfg.sentinelEnabled
    ensures var end := EndFrom(cfg, sw, w, Resolution(NoLocalState, peersNamedSelf, confNamesSelf));
            if GuardStops(sw, w)
               && ((peersNamedSelf && cfg.replicaOf == "") || (confNamesSelf && PeerSentinelAddrs(cfg) != []))
            then end == Refused else FollowsDeployment(cfg, sw, w, end)
  {
  }

  lemma PeersResolve(cfg: Config, sw: Switches, w: World, b: Address)
    requires sw.peerBoot && QueryPeers(cfg, w) == Some(b) && IsMember(cfg, sw, w, b)
    ensures ResolveFromPeers(cfg, sw, w)
            == if ThisNode(cfg, b) then Resolution(NoLocalState, true, false)
               else Resolution(ReplicaOf(b.0, b.1), false, false)
  {
  }

  lemma NobodyResolves(cfg: Config, sw: Switches, w: World)
    requires sw.peerBoot && QueryPeers(cfg, w).Some? ==> !IsMember(cfg, sw, w, QueryPeers(cfg, w).value)
    ensures ResolveFromPeers(cfg, sw, w) == Resolution(NoLocalState, false, false)
  {
  }

  lemma UnusableConfResolves(cfg: Config, sw: Switches, w: World)
    requires cfg.sentinelEnabled && sw.bootRole
    requires forall a | ConfNames(w, a) :: !ThisNode(cfg, a) && !Member(cfg, sw, w, a)
    ensures Resolve(cfg, sw, w) == ResolveFromPeers(cfg, sw, w)
  {
    if w.conf.Monitors? {
      var a := (w.conf.host, w.conf.port);
      assert ConfNames(w, a);
      MemberMeans(cfg, sw, w, a);
    }
  }

  /** A node whose sentinel.conf names another member boots as that member's replica, whatever
    * REPLICA_OF says, whoever else the peers name, with or without a dataset. */
  lemma NamedMasterIsFollowed(cfg: Config, sw: Switches, w: World, a: Address)
    requires cfg.sentinelEnabled && sw.bootRole
    requires ConfNames(w, a) && !ThisNode(cfg, a) && Member(cfg, sw, w, a)
    ensures ReplicatesFrom(sw, w, a, End(cfg, sw, w))
  {
    MemberMeans(cfg, sw, w, a);
  }

  lemma SelfEnds(cfg: Config, sw: Switches, w: World)
    requires cfg.sentinelEnabled
    ensures EndFrom(cfg, sw, w, Resolution(SelfIsMaster, false, true))
            == if GuardStops(sw, w) && PeerSentinelAddrs(cfg) != [] then Refused else MasterBoot
  {
  }

  lemma OwnConfResolves(cfg: Config, sw: Switches, w: World, a: Address)
    requires cfg.sentinelEnabled && sw.bootRole && ConfNames(w, a) && ThisNode(cfg, a)
    ensures var demoted := PeerCheckSelfMaster(cfg, sw, w);
            Resolve(cfg, sw, w) == if demoted.Some? then Resolution(demoted.value, false, false)
                                   else Resolution(SelfIsMaster, false, true)
  {
  }

  /** A node whose sentinel.conf names itself follows the peers if most of them name another
    * member, else it is refused if it is empty with peers to copy it, else it is the master. */
  lemma OwnConfEnds(cfg: Config, sw: Switches, w: World, a: Address)
    requires cfg.sentinelEnabled && sw.bootRole && ConfNames(w, a) && ThisNode(cfg, a)
    ensures var end := End(cfg, sw, w);
            if sw.selfCheck && exists b :: PeersName(cfg, w, b) && !ThisNode(cfg, b) && Member(cfg, sw, w, b) then
              exists b :: PeersName(cfg, w, b) && !ThisNode(cfg, b) && ReplicatesFrom(sw, w, b, end)
            else end == if GuardStops(sw, w) && HasPeers(cfg) then Refused else MasterBoot
  {
    PeersMeans(cfg, w);
    OwnConfResolves(cfg, sw, w, a);
    SelfEnds(cfg, sw, w);
    var answer := QueryPeers(cfg, w);
    if answer.Some? {
      MemberMeans(cfg, sw, w, answer.value);
      ReplicaEnds(cfg, sw, w, answer.value);
      assert PeersName(cfg, w, answer.value);
    }
    if b :| PeersName(cfg, w, b) && !ThisNode(cfg, b) && Member(cfg, sw, w, b) {
      assert answer == Some(b);
    }
  }

  /** The peers decide for a node they name as a member: another one's replica, or, if it is this
    * node, refused as an empty primary and otherwise as deployed. */
  predicate AsPeersSay(cfg: Config, sw: Switches, w: World, b: Address, end: Ending) {
    if !ThisNode(cfg, b) then ReplicatesFrom(sw, w, b, end)
    else if GuardStops(sw, w) && cfg.replicaOf == "" then end == Refused
    else FollowsDeployment(cfg, sw, w, end)
  }

  /** Without a sentinel.conf that names this node or a member, the peers decide if most of them
    * name a member, and the deployment does otherwise. */
  lemma OtherConfEnds(cfg: Config, sw: Switches, w: World)
    requires cfg.sentinelEnabled && sw.bootRole
    requires forall a | ConfNames(w, a) :: !ThisNode(cfg, a) && !Member(cfg, sw, w, a)
    ensures var end := End(cfg, sw, w);
            if sw.peerBoot && exists b :: PeersName(cfg, w, b) && Member(cfg, sw, w, b) then
              exists b :: PeersName(cfg, w, b) && AsPeersSay(cfg, sw, w, b, end)
            else FollowsDeployment(cfg, sw, w, end)
  {
    UnusableConfResolves(cfg, sw, w);
    PeersMeans(cfg, w);
    if b :| sw.peerBoot && PeersName(cfg, w, b) && Member(cfg, sw, w, b) {
      PeersDecide(cfg, sw, w, b);
    } else {
      if QueryPeers(cfg, w).Some? {
        MemberMeans(cfg, sw, w, QueryPeers(cfg, w).value);
        assert PeersName(cfg, w, QueryPeers(cfg, w).value);
      }
      NobodyResolves(cfg, sw, w);
      DeploymentEnds(cfg, sw, w, false, false);
    }
  }

  lemma PeersDecide(cfg: Config, sw: Switches, w: World, b: Address)
    requires cfg.sentinelEnabled && Resolve(cfg, sw, w) == ResolveFromPeers(cfg, sw, w)
    requires sw.peerBoot && PeersName(cfg, w, b) && Member(cfg, sw, w, b)
    ensures AsPeersSay(cfg, sw, w, b, End(cfg, sw, w))
  {
    PeersMeans(cfg, w);
    MemberMeans(cfg, sw, w, b);
    PeersResolve(cfg, sw, w, b);
    ReplicaEnds(cfg, sw, w, b);
    DeploymentEnds(cfg, sw, w, true, false);
  }

  /** With role resolution switched off the deployment decides, but an empty node that its
    * sentinel.conf still names, with peers to copy it, is refused. */
  lemma SwitchedOffEnds(cfg: Config, sw: Switches, w: World)
    requires cfg.sentinelEnabled && !sw.bootRole
    ensures var end := End(cfg, sw, w);
            if GuardStops(sw, w) && HasPeers(cfg) && exists a :: ConfNames(w, a) && ThisNode(cfg, a) then end == Refused
            else FollowsDeployment(cfg, sw, w, end)
  {
    PeersMeans(cfg, w);
    DeploymentEnds(cfg, sw, w, false, ConfNamesSelf(cfg, w));
    if ConfNamesSelf(cfg, w) {
      assert ConfNames(w, (w.conf.host, w.conf.port));
    }
  }

  /** And without Sentinel it decides alone, with no gate. */
  lemma StandaloneEnds(cfg: Config, sw: Switches, w: World)
    requires !cfg.sentinelEnabled
    ensures FollowsDeployment(cfg, sw.(syncGate := false), w, End(cfg, sw, w))
  {
  }

  /** The guard refuses an empty volume that the peers give to a primary, or that its own conf does
    * where there are peers; with none to protect, the one its conf names goes on, and says so. */
  lemma GuardDecides(peersNamedSelf: bool, confNamesSelf: bool, isPrimary: bool, holdsDataset: bool, hasPeers: bool,
                     guardEnabled: bool)
    ensures var step := DecideEmptyPrimaryBoot(peersNamedSelf, confNamesSelf, isPrimary, holdsDataset, hasPeers,
                                               guardEnabled);
            var named := (peersNamedSelf && isPrimary) || confNamesSelf;
            && (step == Proceed <==> !guardEnabled || holdsDataset || !named)
            && (step == ProceedAlone ==> confNamesSelf && !hasPeers)
            && (step == Refuse ==> hasPeers || (peersNamedSelf && isPrimary))
  {
  }

  /** What is read as a host and a port: a host that is not empty, up to the first colon, and
    * after it a port number. */
  lemma HostPortIs(entry: string, host: string, port: nat)
    ensures HostPort(entry) == Some((host, port))
            <==> && host != "" && ':' !in host && host + ":" <= entry
                 && ParseUnsigned(entry[|host| + 1..], U16_MAX) == Some(port)
  {
    var n := IndexOf(entry, ':');
    if host != "" && ':' !in host && host + ":" <= entry {
      var rest := entry[|host| + 1..];
      IndexOfConcat(host, ':', rest);
      assert entry == host + [':'] + rest;
      assert entry[..|host|] == host;
    }
    if HostPort(entry) == Some((host, port)) {
      assert entry == entry[..n] + [':'] + entry[n + 1..] && host == entry[..n];
      assert host + ":" == entry[..n + 1];
    }
  }

  /** A host and a port number are read back from the text that joins them. */
  lemma HostPortReads(host: string, port: nat)
    requires host != "" && ':' !in host && port <= U16_MAX
    ensures HostPort(host + ":" + Digits(port)) == Some((host, port))
  {
    var entry := host + ":" + Digits(port);
    IndexOfConcat(host, ':', Digits(port));
    assert entry == host + [':'] + Digits(port);
    assert entry[..|host|] == host && entry[|host| + 1..] == Digits(port);
    ParseOfDigits(port, U16_MAX);
  }
}
