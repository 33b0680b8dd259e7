/** The quorum-sync watcher: dwell windows over the local Sentinel's view of its
  * peers, and the three commands they may issue (SET quorum, SET fence, RESET).
  *
  * `Watcher` is the watcher with its mutable windows; `Poll` is what one poll does
  * to them. The theorems at the end speak about whole histories of polls. */
module Quorum {
  import opened Wrappers

  type PeerId = string

  /** A peer as this poll saw it. `gone` is the deletion probe's verdict for the
    * peer's announced host; it is only looked at for peers flagged `s_down`. */
  datatype Peer = Peer(id: PeerId, sDown: bool, gone: bool)

  datatype Drift = Drift(desired: nat, since: int)

  datatype Config = Config(dwell: nat, pruneDwell: nat, pruneBackoff: nat, pruneDisabled: bool)

  /** What one poll read, and whether each command it may send would succeed.
    * `fence` is None when the local Redis could not be read. */
  datatype Obs =
    | Unobserved
    | Observed(quorum: nat, healthy: bool, peers: seq<Peer>, fence: Option<nat>,
               setQuorumOk: bool, setFenceOk: bool, resetOk: bool)

  /** The commands one poll sends. */
  datatype Actions = Actions(setQuorum: Option<nat>, setFence: Option<nat>, reset: bool)

  /** Everything remembered between polls. */
  datatype Watch = Watch(drift: Option<Drift>, fenceDrift: Option<Drift>,
                         downSince: map<PeerId, int>, goneSince: map<PeerId, int>,
                         lastResetAt: Option<int>)

  const FRESH := Watch(None, None, map[], map[], None)
  const IDLE := Actions(None, None, false)

  // ----- majority arithmetic -------------------------------------------------

  function DesiredQuorum(liveOthers: nat): Option<nat> {
    var n := liveOthers + 1;
    if n < 2 then None else Some(Max(n / 2 + 1, 2))
  }

  function MinReplicasToWrite(quorum: nat): nat {
    Max(if quorum == 0 then 0 else quorum - 1, 1)
  }

  function DesiredFence(knownOthers: nat): Option<nat> {
    var n := knownOthers + 1;
    if n < 2 then None else Some(MinReplicasToWrite(Max(n / 2 + 1, 2)))
  }

  function LiveOthers(peers: seq<Peer>): nat {
    if peers == [] then 0
    else LiveOthers(peers[..|peers| - 1]) + (if peers[|peers| - 1].sDown then 0 else 1)
  }

  predicate LiveIsMajorityOfKnown(peers: seq<Peer>) {
    (LiveOthers(peers) + 1) * 2 > |peers| + 1
  }

  // ----- one poll, as a function ---------------------------------------------

  function StepDrift(current: nat, desired: Option<nat>, drift: Option<Drift>, now: int, dwell: nat)
    : (Option<Drift>, Option<nat>)
  {
    match desired
    case None => (None, None)
    case Some(d) =>
      if d == current then (None, None)
      else if drift.Some? && drift.value.desired == d then
        (drift, if now - drift.value.since >= dwell then Some(d) else None)
      else (Some(Drift(d, now)), None)
  }

  function DownIds(peers: seq<Peer>): set<PeerId> {
    set p | p in peers && p.sDown :: p.id
  }

  function GoneIds(peers: seq<Peer>): set<PeerId> {
    set p | p in peers && p.sDown && p.gone :: p.id
  }

  /** Windows survive exactly for `ids`: an old one keeps its start, a new one opens now. */
  function Advance(windows: map<PeerId, int>, ids: set<PeerId>, now: int): map<PeerId, int> {
    map id | id in ids :: if id in windows then windows[id] else now
  }

  predicate SomePastDwell(windows: map<PeerId, int>, now: int, dwell: nat) {
    exists id :: id in windows && now - windows[id] >= dwell
  }

  predicate AllSdownGonePastDwell(peers: seq<Peer>, gone: map<PeerId, int>, now: int, dwell: nat) {
    && DownIds(peers) != {}
    && forall id | id in DownIds(peers) :: id in gone && now - gone[id] >= dwell
  }

  predicate ResetAllowed(w: Watch, cfg: Config, now: int, obs: Obs)
    requires obs.Observed?
  {
    && SomePastDwell(w.downSince, now, cfg.pruneDwell)
    && (LiveIsMajorityOfKnown(obs.peers)
        || AllSdownGonePastDwell(obs.peers, w.goneSince, now, cfg.pruneDwell))
    && obs.healthy
    && (w.lastResetAt.Some? ==> now - w.lastResetAt.value >= cfg.pruneBackoff)
  }

  function SyncFence(w: Watch, cfg: Config, now: int, obs: Obs): (Watch, Option<nat>)
    requires obs.Observed?
  {
    match obs.fence
    case None => (w.(fenceDrift := None), None)
    case Some(current) =>
      var (next, setNow) := StepDrift(current, DesiredFence(|obs.peers|), w.fenceDrift, now, cfg.dwell);
      (w.(fenceDrift := if setNow.Some? && obs.setFenceOk then None else next), setNow)
  }

  function Prune(w: Watch, cfg: Config, now: int, obs: Obs): (Watch, bool)
    requires obs.Observed?
  {
    if cfg.pruneDisabled then (w, false)
    else
      var w1 := w.(downSince := Advance(w.downSince, DownIds(obs.peers), now),
                   goneSince := Advance(w.goneSince, GoneIds(obs.peers), now));
      if !ResetAllowed(w1, cfg, now, obs) then (w1, false)
      else if obs.resetOk then
        (w1.(lastResetAt := Some(now), downSince := map[], goneSince := map[]), true)
      else (w1, true)
  }

  function Cleared(w: Watch): Watch {
    w.(drift := None, fenceDrift := None, downSince := map[], goneSince := map[])
  }

  function SyncQuorum(w: Watch, cfg: Config, now: int, obs: Obs): (Watch, Option<nat>)
    requires obs.Observed?
  {
    var (next, setNow) :=
      StepDrift(obs.quorum, DesiredQuorum(LiveOthers(obs.peers)), w.drift, now, cfg.dwell);
    (w.(drift := if setNow.Some? && obs.setQuorumOk then None else next), setNow)
  }

  function Poll(w: Watch, cfg: Config, now: int, obs: Obs): (Watch, Actions) {
    if obs.Unobserved? then (Cleared(w), IDLE)
    else
      var (w1, setQuorum) := SyncQuorum(w, cfg, now, obs);
      var (w2, setFence) := SyncFence(w1, cfg, now, obs);
      var (w3, reset) := Prune(w2, cfg, now, obs);
      (w3, Actions(setQuorum, setFence, reset))
  }

  // ----- the watcher ---------------------------------------------------------

  class Watcher {
    var drift: Option<Drift>
    var fenceDrift: Option<Drift>
    var downSince: map<PeerId, int>
    var goneSince: map<PeerId, int>
    var lastResetAt: Option<int>

    function Abs(): Watch
      reads this
    {
      Watch(drift, fenceDrift, downSince, goneSince, lastResetAt)
    }

    constructor ()
      ensures Abs() == FRESH
    {
      drift, fenceDrift, lastResetAt := None, None, None;
      downSince, goneSince := map[], map[];
    }

    method ClearObservations()
      modifies this
      ensures Abs() == Cleared(old(Abs()))
    {
      drift, fenceDrift := None, None;
      downSince, goneSince := map[], map[];
    }

    method StepPrune(peers: seq<Peer>, now: int, dwell: nat) returns (due: bool)
      modifies this`downSince
      ensures downSince == Advance(old(downSince), DownIds(peers), now)
      ensures due == SomePastDwell(downSince, now, dwell)
    {
      downSince := map id | id in downSince && id in DownIds(peers) :: downSince[id];
      ghost var kept := downSince;
      for i := 0 to |peers|
        invariant kept.Keys <= downSince.Keys
        invariant forall id :: id in downSince <==> id in kept || id in DownIds(peers[..i])
        invariant forall id :: id in downSince ==>
                                 downSince[id] == if id in old(downSince) then old(downSince)[id] else now
      {
        assert peers[..i + 1] == peers[..i] + [peers[i]];
        assert forall id :: id in DownIds(peers[..i + 1]) <==>
                              id in DownIds(peers[..i]) || (peers[i].sDown && id == peers[i].id);
        if peers[i].sDown && peers[i].id !in downSince {
          assert peers[i].id in DownIds(peers);
          downSince := downSince[peers[i].id := now];
        }
      }
      assert peers[..|peers|] == peers;
      due := exists id :: id in downSince && now - downSince[id] >= dwell;
    }

    method StepGone(peers: seq<Peer>, now: int)
      modifies this`goneSince
      ensures goneSince == Advance(old(goneSince), GoneIds(peers), now)
    {
      goneSince := map id | id in goneSince && id in GoneIds(peers) :: goneSince[id];
      ghost var kept := goneSince;
      for i := 0 to |peers|
        invariant kept.Keys <= goneSince.Keys
        invariant forall id :: id in goneSince <==> id in kept || id in GoneIds(peers[..i])
        invariant forall id :: id in goneSince ==>
                                 goneSince[id] == if id in old(goneSince) then old(goneSince)[id] else now
      {
        assert peers[..i + 1] == peers[..i] + [peers[i]];
        assert forall id :: id in GoneIds(peers[..i + 1]) <==>
                              id in GoneIds(peers[..i])
                              || (peers[i].sDown && peers[i].gone && id == peers[i].id);
        if peers[i].sDown && peers[i].gone && peers[i].id !in goneSince {
          assert peers[i].id in GoneIds(peers);
          goneSince := goneSince[peers[i].id := now];
        }
      }
      assert peers[..|peers|] == peers;
    }

    method SyncFenceNow(cfg: Config, now: int, obs: Obs) returns (setFence: Option<nat>)
      requires obs.Observed?
      modifies this`fenceDrift
      ensures (Abs(), setFence) == SyncFence(old(Abs()), cfg, now, obs)
    {
      if obs.fence.None? {
        fenceDrift := None;
        return None;
      }
      var (next, setNow) :=
        StepDrift(obs.fence.value, DesiredFence(|obs.peers|), fenceDrift, now, cfg.dwell);
      fenceDrift := next;
      if setNow.Some? && obs.setFenceOk {
        fenceDrift := None;
      }
      return setNow;
    }

    method PruneDeadSentinels(cfg: Config, now: int, obs: Obs) returns (reset: bool)
      requires obs.Observed?
      modifies this`downSince, this`goneSince, this`lastResetAt
      ensures (Abs(), reset) == Prune(old(Abs()), cfg, now, obs)
    {
      if cfg.pruneDisabled {
        return false;
      }
      var due := StepPrune(obs.peers, now, cfg.pruneDwell);
      StepGone(obs.peers, now);
      if !due {
        return false;
      }
      if !LiveIsMajorityOfKnown(obs.peers)
         && !AllSdownGonePastDwell(obs.peers, goneSince, now, cfg.pruneDwell) {
        return false;
      }
      if !obs.healthy {
        return false;
      }
      if lastResetAt.Some? && now - lastResetAt.value < cfg.pruneBackoff {
        return false;
      }
      if obs.resetOk {
        lastResetAt := Some(now);
        downSince, goneSince := map[], map[];
      }
      return true;
    }

    /** One poll of the running watcher. */
    method Iteration(cfg: Config, now: int, obs: Obs) returns (acts: Actions)
      modifies this
      ensures (Abs(), acts) == Poll(old(Abs()), cfg, now, obs)
    {
      if obs.Unobserved? {
        ClearObservations();
        return IDLE;
      }
      var (nextDrift, setNow) :=
        StepDrift(obs.quorum, DesiredQuorum(LiveOthers(obs.peers)), drift, now, cfg.dwell);
      drift := nextDrift;
      if setNow.Some? && obs.setQuorumOk {
        drift := None;
      }
      var setFence := SyncFenceNow(cfg, now, obs);
      var reset := PruneDeadSentinels(cfg, now, obs);
      return Actions(setNow, setFence, reset);
    }
  }

  // ----- histories -----------------------------------------------------------

  datatype Observation = Observation(now: int, obs: Obs)

  type History = seq<Observation>

  /** The watcher's memory after a history that began with the process. */
  function After(cfg: Config, h: History): Watch {
    if h == [] then FRESH
    else Poll(After(cfg, h[..|h| - 1]), cfg, h[|h| - 1].now, h[|h| - 1].obs).0
  }

  /** What the watcher sends at poll `n` of the history. */
  function SentAt(cfg: Config, h: History, n: nat): Actions
    requires n < |h|
  {
    Poll(After(cfg, h[..n]), cfg, h[n].now, h[n].obs).1
  }

  /** A RESET that Sentinel accepted. */
  predicate ResetDone(cfg: Config, h: History, n: nat)
    requires n < |h|
  {
    SentAt(cfg, h, n).reset && h[n].obs.resetOk
  }

  /** `id` was flagged down at every poll from `m` up to but not including `n`. */
  ghost predicate DownThroughout(h: History, id: PeerId, m: int, n: int) {
    && 0 <= m <= n <= |h|
    && forall k | m <= k < n :: h[k].obs.Observed? && id in DownIds(h[k].obs.peers)
  }

  ghost predicate GoneThroughout(h: History, id: PeerId, m: int, n: int) {
    && 0 <= m <= n <= |h|
    && forall k | m <= k < n :: h[k].obs.Observed? && id in GoneIds(h[k].obs.peers)
  }

  ghost predicate NoResetIn(cfg: Config, h: History, m: int, n: int) {
    && 0 <= m <= n <= |h|
    && forall k | m <= k < n :: !ResetDone(cfg, h, k)
  }

  ghost predicate ClockNeverGoesBack(h: History) {
    forall i, j | 0 <= i <= j < |h| :: h[i].now <= h[j].now
  }

  ghost predicate DownExplained(cfg: Config, h: History, windows: map<PeerId, int>, n: int) {
    forall id | id in windows ::
      exists m :: DownThroughout(h, id, m, n) && m < n && h[m].now == windows[id] && NoResetIn(cfg, h, m, n)
  }

  ghost predicate GoneExplained(cfg: Config, h: History, windows: map<PeerId, int>, n: int) {
    forall id | id in windows ::
      exists m :: GoneThroughout(h, id, m, n) && m < n && h[m].now == windows[id] && NoResetIn(cfg, h, m, n)
  }

  /** `last` is the time of the newest accepted RESET before poll `n`. */
  ghost predicate LastResetExplained(cfg: Config, h: History, last: Option<int>, n: int) {
    if last.None? then NoResetIn(cfg, h, 0, n)
    else exists m :: NoResetIn(cfg, h, m + 1, n) && 0 <= m < n && ResetDone(cfg, h, m)
                     && h[m].now == last.value
  }
}
