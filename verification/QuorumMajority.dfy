/** What the watcher's three commands are, told from the polls alone: the quorum and the fence
  * by counting peers, the RESET by who was flagged and for how long. */
module QuorumMajority {
  import opened Wrappers
  import opened Quorum
  import DriftHistory
  import opened QuorumHistory

  /** The places of the peers that are not flagged down. */
  function LiveAt(peers: seq<Peer>): set<int> {
    set i | 0 <= i < |peers| && !peers[i].sDown
  }

  lemma {:induction false} LiveOthersAreCounted(peers: seq<Peer>)
    ensures LiveOthers(peers) == |LiveAt(peers)|
  {
    if peers == [] {
      assert LiveAt(peers) == {};
    } else {
      var last, rest := |peers| - 1, peers[..|peers| - 1];
      LiveOthersAreCounted(rest);
      assert LiveAt(peers) == LiveAt(rest) + (if peers[last].sDown then {} else {last});
    }
  }

  /** The smallest strict majority of `m`, but never below two. */
  predicate LeastMajority(q: nat, m: nat) {
    2 * q > m && q >= 2 && (q == 2 || 2 * (q - 1) <= m)
  }

  lemma DesiredIsLeastMajority(others: nat, v: nat)
    ensures DesiredQuorum(others) == Some(v) <==> others >= 1 && LeastMajority(v, others + 1)
    ensures DesiredFence(others) == Some(v) <==> others >= 1 && v >= 1 && LeastMajority(v + 1, others + 1)
  {
  }

  // ----- the quorum and the fence ----------------------------------------------------------

  /** A poll that reads a quorum other than `q`, where `q` is right for this node and its live
    * peers. */
  predicate QuorumShouldBe(o: Observation, q: nat) {
    && o.obs.Observed? && LiveAt(o.obs.peers) != {}
    && LeastMajority(q, 1 + |LiveAt(o.obs.peers)|) && o.obs.quorum != q
  }

  /** The same for the fence, which is one below the majority of all known members, live or
    * not, and at least one. */
  predicate FenceShouldBe(o: Observation, f: nat) {
    && o.obs.Observed? && o.obs.peers != [] && o.obs.fence.Some?
    && f >= 1 && LeastMajority(f + 1, 1 + |o.obs.peers|) && o.obs.fence.value != f
  }

  predicate QuorumWasSet(cfg: Config, h: History, k: int) {
    0 <= k < |h| && SentAt(cfg, h, k).setQuorum.Some? && h[k].obs.Observed? && h[k].obs.setQuorumOk
  }

  predicate FenceWasSet(cfg: Config, h: History, k: int) {
    0 <= k < |h| && SentAt(cfg, h, k).setFence.Some? && h[k].obs.Observed? && h[k].obs.setFenceOk
  }

  /** From poll `m` to poll `n`, for the dwell, every poll called for the SET and none was
    * accepted. */
  ghost predicate DueSince(h: History, called: Observation -> bool, wasSet: int -> bool, m: int, n: nat, dwell: nat)
    requires n < |h|
  {
    && 0 <= m < n && h[n].now - h[m].now >= dwell
    && (forall k | m <= k <= n :: called(h[k]))
    && forall k | m <= k < n :: !wasSet(k)
  }

  ghost predicate CalledForDwell(h: History, called: Observation -> bool, wasSet: int -> bool, n: nat, dwell: nat)
    requires n < |h|
  {
    exists m :: DueSince(h, called, wasSet, m, n, dwell)
  }

  /** A channel of samples says the same, poll by poll. */
  ghost predicate Matches(samples: seq<DriftHistory.Sample>, h: History, v: nat, called: Observation -> bool,
                          wasSet: int -> bool, dwell: nat)
  {
    && |samples| == |h|
    && forall k | 0 <= k < |h| ::
         && samples[k].now == h[k].now
         && (DriftHistory.Disagrees(samples[k], v) <==> called(h[k]))
         && (called(h[k]) ==> (DriftHistory.SetAt(samples, k, dwell).Some? && samples[k].accepted <==> wasSet(k)))
  }

  lemma DueByMatch(samples: seq<DriftHistory.Sample>, h: History, v: nat, called: Observation -> bool,
                   wasSet: int -> bool, n: nat, dwell: nat)
    requires n < |h| && Matches(samples, h, v, called, wasSet, dwell)
    ensures CalledForDwell(h, called, wasSet, n, dwell)
            <==> exists m :: DriftHistory.Due(samples, v, m, n, dwell)
  {
    if m :| DueSince(h, called, wasSet, m, n, dwell) {
      assert DriftHistory.DisagreesSince(samples, v, m, n, dwell);
      assert DriftHistory.Due(samples, v, m, n, dwell);
    }
    if m :| DriftHistory.Due(samples, v, m, n, dwell) {
      assert DueSince(h, called, wasSet, m, n, dwell);
    }
  }

  lemma QuorumMatches(cfg: Config, h: History, q: nat)
    ensures Matches(DriftHistory.Samples(h, DriftHistory.QuorumSample), h, q, o => QuorumShouldBe(o, q),
                    k => QuorumWasSet(cfg, h, k), cfg.dwell)
  {
    var samples := DriftHistory.Samples(h, DriftHistory.QuorumSample);
    forall k | 0 <= k < |h|
      ensures samples[k].now == h[k].now && (DriftHistory.Disagrees(samples[k], q) <==> QuorumShouldBe(h[k], q))
      ensures QuorumShouldBe(h[k], q) ==>
                (DriftHistory.SetAt(samples, k, cfg.dwell).Some? && samples[k].accepted <==> QuorumWasSet(cfg, h, k))
    {
      assert samples[k] == DriftHistory.QuorumSample(h[k]);
      DriftHistory.SentBySample(cfg, h, k);
      if h[k].obs.Observed? {
        LiveOthersAreCounted(h[k].obs.peers);
        DesiredIsLeastMajority(|LiveAt(h[k].obs.peers)|, q);
      }
    }
  }

  lemma FenceMatches(cfg: Config, h: History, f: nat)
    ensures Matches(DriftHistory.Samples(h, DriftHistory.FenceSample), h, f, o => FenceShouldBe(o, f),
                    k => FenceWasSet(cfg, h, k), cfg.dwell)
  {
    var samples := DriftHistory.Samples(h, DriftHistory.FenceSample);
    forall k | 0 <= k < |h|
      ensures samples[k].now == h[k].now && (DriftHistory.Disagrees(samples[k], f) <==> FenceShouldBe(h[k], f))
      ensures FenceShouldBe(h[k], f) ==>
                (DriftHistory.SetAt(samples, k, cfg.dwell).Some? && samples[k].accepted <==> FenceWasSet(cfg, h, k))
    {
      assert samples[k] == DriftHistory.FenceSample(h[k]);
      DriftHistory.SentBySample(cfg, h, k);
      if h[k].obs.Observed? {
        DesiredIsLeastMajority(|h[k].obs.peers|, f);
      }
    }
  }

  /** The quorum set is the smallest majority of this node and its live peers, never one of
    * fewer than two, and it is set exactly when every poll for the dwell showed that majority
    * and read another quorum, and no SET was accepted among them. */
  lemma QuorumSetIsTheMajority(cfg: Config, h: History, n: nat, q: nat)
    requires n < |h| && ClockNeverGoesBack(h)
    ensures SentAt(cfg, h, n).setQuorum == Some(q)
            <==> CalledForDwell(h, o => QuorumShouldBe(o, q), k => QuorumWasSet(cfg, h, k), n, cfg.dwell)
  {
    DriftHistory.WatcherSetsExactlyWhenDue(cfg, h, n, q);
    QuorumMatches(cfg, h, q);
    DueByMatch(DriftHistory.Samples(h, DriftHistory.QuorumSample), h, q, o => QuorumShouldBe(o, q),
               k => QuorumWasSet(cfg, h, k), n, cfg.dwell);
  }

  /** The fence set is one below the smallest majority of all known members, by the same rule. */
  lemma FenceSetIsBelowTheMajority(cfg: Config, h: History, n: nat, f: nat)
    requires n < |h| && ClockNeverGoesBack(h)
    ensures SentAt(cfg, h, n).setFence == Some(f)
            <==> CalledForDwell(h, o => FenceShouldBe(o, f), k => FenceWasSet(cfg, h, k), n, cfg.dwell)
  {
    DriftHistory.WatcherSetsExactlyWhenDue(cfg, h, n, f);
    FenceMatches(cfg, h, f);
    DueByMatch(DriftHistory.Samples(h, DriftHistory.FenceSample), h, f, o => FenceShouldBe(o, f),
               k => FenceWasSet(cfg, h, k), n, cfg.dwell);
  }

  function LiveIds(peers: seq<Peer>): set<PeerId> {
    set p | p in peers && !p.sDown :: p.id
  }

  lemma LiveIdsSnoc(rest: seq<Peer>, last: Peer)
    ensures LiveIds(rest + [last]) == LiveIds(rest) + (if last.sDown then {} else {last.id})
  {
  }

  lemma {:induction false} LiveOthersAreLiveIds(peers: seq<Peer>)
    requires forall i, j | 0 <= i < j < |peers| :: peers[i].id != peers[j].id
    ensures LiveOthers(peers) == |LiveIds(peers)|
  {
    if peers != [] {
      var last, rest := peers[|peers| - 1], peers[..|peers| - 1];
      LiveOthersAreLiveIds(rest);
      LiveIdsSnoc(rest, last);
      assert peers == rest + [last];
      assert last.id !in LiveIds(rest);
    }
  }

  /** Where no two peers share an id, the places counted are as many as the live peers' ids. */
  lemma LivePlacesAreLivePeers(peers: seq<Peer>)
    requires forall i, j | 0 <= i < j < |peers| :: peers[i].id != peers[j].id
    ensures |LiveAt(peers)| == |LiveIds(peers)|
  {
    LiveOthersAreCounted(peers);
    LiveOthersAreLiveIds(peers);
  }

  // ----- the RESET ----------------------------------------------------------------------------

  /** A row of this poll flags the peer down. */
  predicate Flagged(o: Observation, id: PeerId) {
    o.obs.Observed? && exists i :: 0 <= i < |o.obs.peers| && o.obs.peers[i].id == id && o.obs.peers[i].sDown
  }

  /** A row of this poll flags the peer down, and its name is gone. */
  predicate FlaggedGone(o: Observation, id: PeerId) {
    && o.obs.Observed?
    && exists i :: 0 <= i < |o.obs.peers| && o.obs.peers[i].id == id && o.obs.peers[i].sDown && o.obs.peers[i].gone
  }

  ghost predicate FlaggedSince(cfg: Config, h: History, id: PeerId, m: int, n: nat)
    requires n < |h|
  {
    && 0 <= m <= n && h[n].now - h[m].now >= cfg.pruneDwell && NoResetIn(cfg, h, m, n)
    && forall k | m <= k <= n :: Flagged(h[k], id)
  }

  ghost predicate GoneSince(cfg: Config, h: History, id: PeerId, m: int, n: nat)
    requires n < |h|
  {
    && 0 <= m <= n && h[n].now - h[m].now >= cfg.pruneDwell && NoResetIn(cfg, h, m, n)
    && forall k | m <= k <= n :: FlaggedGone(h[k], id)
  }

  lemma FlaggedAreDown(o: Observation, id: PeerId)
    requires o.obs.Observed?
    ensures Flagged(o, id) <==> id in DownIds(o.obs.peers)
    ensures FlaggedGone(o, id) <==> id in GoneIds(o.obs.peers)
  {
    var peers := o.obs.peers;
    if id in DownIds(peers) {
      var p :| p in peers && p.sDown && p.id == id;
      var i :| 0 <= i < |peers| && peers[i] == p;
    }
    if id in GoneIds(peers) {
      var p :| p in peers && p.sDown && p.gone && p.id == id;
      var i :| 0 <= i < |peers| && peers[i] == p;
    }
  }

  lemma FlaggedForDwell(cfg: Config, h: History, id: PeerId, n: nat)
    requires n < |h|
    ensures DownForDwell(cfg, h, id, n) <==> exists m :: FlaggedSince(cfg, h, id, m, n)
  {
    forall k | 0 <= k <= n && h[k].obs.Observed?
      ensures Flagged(h[k], id) <==> id in DownIds(h[k].obs.peers)
    {
      FlaggedAreDown(h[k], id);
    }
    if m :| FlaggedSince(cfg, h, id, m, n) {
      assert DownThroughout(h, id, m, n + 1);
    }
    if DownForDwell(cfg, h, id, n) {
      var m :| DownThroughout(h, id, m, n + 1) && m <= n && h[n].now - h[m].now >= cfg.pruneDwell
               && NoResetIn(cfg, h, m, n);
      assert FlaggedSince(cfg, h, id, m, n);
    }
  }

  lemma FlaggedGoneForDwell(cfg: Config, h: History, id: PeerId, n: nat)
    requires n < |h|
    ensures GoneForDwell(cfg, h, id, n) <==> exists m :: GoneSince(cfg, h, id, m, n)
  {
    forall k | 0 <= k <= n && h[k].obs.Observed?
      ensures FlaggedGone(h[k], id) <==> id in GoneIds(h[k].obs.peers)
    {
      FlaggedAreDown(h[k], id);
    }
    if m :| GoneSince(cfg, h, id, m, n) {
      assert GoneThroughout(h, id, m, n + 1);
    }
    if GoneForDwell(cfg, h, id, n) {
      var m :| GoneThroughout(h, id, m, n + 1) && m <= n && h[n].now - h[m].now >= cfg.pruneDwell
               && NoResetIn(cfg, h, m, n);
      assert GoneSince(cfg, h, id, m, n);
    }
  }

  ghost predicate SomeoneFlagged(cfg: Config, h: History, n: nat)
    requires n < |h|
  {
    exists id, m :: FlaggedSince(cfg, h, id, m, n)
  }

  ghost predicate EveryFlaggedIsGone(cfg: Config, h: History, n: nat)
    requires n < |h|
  {
    forall id | Flagged(h[n], id) :: exists m :: GoneSince(cfg, h, id, m, n)
  }

  /** The RESET, from the rows of the polls: sent exactly when pruning is on, the master is
    * healthy, some peer was flagged at every poll for the dwell, either this node and its live
    * peers are more than half of all known members or every flagged peer's name was gone at
    * every poll for the dwell, and every accepted RESET is the backoff behind. */
  lemma ResetSentByTheRows(cfg: Config, h: History, n: nat)
    requires n < |h| && ClockNeverGoesBack(h)
    ensures SentAt(cfg, h, n).reset
            <==> && !cfg.pruneDisabled && h[n].obs.Observed? && h[n].obs.healthy
                 && SomeoneFlagged(cfg, h, n)
                 && (2 * (1 + |LiveAt(h[n].obs.peers)|) > 1 + |h[n].obs.peers| || EveryFlaggedIsGone(cfg, h, n))
                 && BackoffServed(cfg, h, n)
  {
    ResetSentExactlyWhenDue(cfg, h, n);
    if h[n].obs.Observed? {
      LiveOthersAreCounted(h[n].obs.peers);
      forall id
        ensures Flagged(h[n], id) <==> id in DownIds(h[n].obs.peers)
        ensures DownForDwell(cfg, h, id, n) <==> exists m :: FlaggedSince(cfg, h, id, m, n)
        ensures GoneForDwell(cfg, h, id, n) <==> exists m :: GoneSince(cfg, h, id, m, n)
      {
        FlaggedAreDown(h[n], id);
        FlaggedForDwell(cfg, h, id, n);
        FlaggedGoneForDwell(cfg, h, id, n);
      }
      if id, m :| FlaggedSince(cfg, h, id, m, n) {
        assert DownForDwell(cfg, h, id, n) && Flagged(h[n], id);
      }
    }
  }
}
