/** When a drifting value is set: the dwell rule shared by the quorum and the fence, over
  * whole histories, in both directions. */
module DriftHistory {
  import opened Wrappers
  import opened Quorum

  /** What one poll means to one value: what it reads, None if it could not be read, what it
    * should be, and whether a SET would be accepted. */
  datatype Sample = Sample(now: int, current: Option<nat>, desired: Option<nat>, accepted: bool)

  function Channel(drift: Option<Drift>, s: Sample, dwell: nat): (Option<Drift>, Option<nat>) {
    if s.current.None? then (None, None)
    else
      var (next, setNow) := StepDrift(s.current.value, s.desired, drift, s.now, dwell);
      (if setNow.Some? && s.accepted then None else next, setNow)
  }

  function DriftAfter(samples: seq<Sample>, dwell: nat): Option<Drift> {
    if samples == [] then None
    else Channel(DriftAfter(samples[..|samples| - 1], dwell), samples[|samples| - 1], dwell).0
  }

  function SetAt(samples: seq<Sample>, n: nat, dwell: nat): Option<nat>
    requires n < |samples|
  {
    Channel(DriftAfter(samples[..n], dwell), samples[n], dwell).1
  }

  predicate Disagrees(s: Sample, v: nat) {
    s.current.Some? && s.desired == Some(v) && s.current != Some(v)
  }

  /** Every poll from `m` to before `n` wanted `v` and read another value, and no SET was
    * accepted among them. */
  ghost predicate DisagreesSince(samples: seq<Sample>, v: nat, m: int, n: int, dwell: nat) {
    && 0 <= m < n <= |samples|
    && forall k | m <= k < n :: Disagrees(samples[k], v) && !(SetAt(samples, k, dwell).Some? && samples[k].accepted)
  }

  ghost predicate ClockNeverGoesBack(samples: seq<Sample>) {
    forall i, j | 0 <= i <= j < |samples| :: samples[i].now <= samples[j].now
  }

  lemma OneMore(samples: seq<Sample>, n: nat, dwell: nat)
    requires n < |samples|
    ensures DriftAfter(samples[..n + 1], dwell) == Channel(DriftAfter(samples[..n], dwell), samples[n], dwell).0
  {
    assert samples[..n + 1][..n] == samples[..n];
  }

  /** An open window is an unbroken run of disagreeing polls that began when it says. */
  ghost predicate WindowIsRun(samples: seq<Sample>, drift: Option<Drift>, n: int, dwell: nat) {
    drift.Some? ==>
      exists m :: DisagreesSince(samples, drift.value.desired, m, n, dwell) && samples[m].now == drift.value.since
  }

  lemma {:induction false} EveryWindowIsARun(samples: seq<Sample>, n: nat, dwell: nat)
    requires n <= |samples|
    ensures WindowIsRun(samples, DriftAfter(samples[..n], dwell), n, dwell)
  {
    if n > 0 {
      var k := n - 1;
      EveryWindowIsARun(samples, k, dwell);
      OneMore(samples, k, dwell);
      var before, after := DriftAfter(samples[..k], dwell), DriftAfter(samples[..n], dwell);
      if after.Some? {
        if after == before {
          var m :| DisagreesSince(samples, before.value.desired, m, k, dwell) && samples[m].now == before.value.since;
          assert DisagreesSince(samples, after.value.desired, m, n, dwell);
        } else {
          assert DisagreesSince(samples, after.value.desired, k, n, dwell);
        }
      }
    }
  }

  /** And every such run has its window open, no younger than the run. */
  lemma {:induction false} EveryRunHasItsWindow(samples: seq<Sample>, v: nat, m: nat, n: nat, dwell: nat)
    requires ClockNeverGoesBack(samples) && DisagreesSince(samples, v, m, n, dwell)
    ensures var drift := DriftAfter(samples[..n], dwell);
            drift.Some? && drift.value.desired == v && drift.value.since <= samples[m].now
    decreases n
  {
    var k := n - 1;
    OneMore(samples, k, dwell);
    EveryWindowIsARun(samples, k, dwell);
    if m < k {
      assert DisagreesSince(samples, v, m, k, dwell);
      EveryRunHasItsWindow(samples, v, m, k, dwell);
    }
  }

  /** `v` is due at poll `n`: a run of earlier polls, and this one too, disagreed for the dwell. */
  ghost predicate Due(samples: seq<Sample>, v: nat, m: int, n: nat, dwell: nat)
    requires n < |samples|
  {
    DisagreesSince(samples, v, m, n, dwell) && Disagrees(samples[n], v) && samples[n].now - samples[m].now >= dwell
  }

  /** A SET is sent exactly when it is due. */
  lemma SetExactlyWhenDue(samples: seq<Sample>, v: nat, n: nat, dwell: nat)
    requires n < |samples| && ClockNeverGoesBack(samples)
    ensures SetAt(samples, n, dwell) == Some(v) <==> exists m :: Due(samples, v, m, n, dwell)
  {
    var drift := DriftAfter(samples[..n], dwell);
    if SetAt(samples, n, dwell) == Some(v) {
      EveryWindowIsARun(samples, n, dwell);
      var m :| DisagreesSince(samples, v, m, n, dwell) && samples[m].now == drift.value.since;
      assert Due(samples, v, m, n, dwell);
    }
    if m :| Due(samples, v, m, n, dwell) {
      EveryRunHasItsWindow(samples, v, m, n, dwell);
    }
  }

  // ----- the two values of the watcher ------------------------------------------------

  function QuorumSample(o: Observation): Sample {
    if o.obs.Unobserved? then Sample(o.now, None, None, false)
    else Sample(o.now, Some(o.obs.quorum), DesiredQuorum(LiveOthers(o.obs.peers)), o.obs.setQuorumOk)
  }

  function FenceSample(o: Observation): Sample {
    if o.obs.Unobserved? then Sample(o.now, None, None, false)
    else Sample(o.now, o.obs.fence, DesiredFence(|o.obs.peers|), o.obs.setFenceOk)
  }

  function Samples(h: History, f: Observation -> Sample): (s: seq<Sample>)
    ensures |s| == |h|
  {
    seq(|h|, i requires 0 <= i < |h| => f(h[i]))
  }

  /** A poll treats each value by the shared rule, whatever the rest of the poll does. */
  lemma PollIsTwoChannels(w: Watch, cfg: Config, o: Observation)
    ensures var (next, acts) := Poll(w, cfg, o.now, o.obs);
            && (next.drift, acts.setQuorum) == Channel(w.drift, QuorumSample(o), cfg.dwell)
            && (next.fenceDrift, acts.setFence) == Channel(w.fenceDrift, FenceSample(o), cfg.dwell)
  {
  }

  lemma {:induction false} WatcherIsTwoChannels(cfg: Config, h: History, n: nat)
    requires n <= |h|
    ensures After(cfg, h[..n]).drift == DriftAfter(Samples(h, QuorumSample)[..n], cfg.dwell)
    ensures After(cfg, h[..n]).fenceDrift == DriftAfter(Samples(h, FenceSample)[..n], cfg.dwell)
  {
    if n > 0 {
      WatcherIsTwoChannels(cfg, h, n - 1);
      PollIsTwoChannels(After(cfg, h[..n - 1]), cfg, h[n - 1]);
      OneMore(Samples(h, QuorumSample), n - 1, cfg.dwell);
      OneMore(Samples(h, FenceSample), n - 1, cfg.dwell);
      assert h[..n][..n - 1] == h[..n - 1];
    }
  }

  lemma SentBySample(cfg: Config, h: History, n: nat)
    requires n < |h|
    ensures SentAt(cfg, h, n).setQuorum == SetAt(Samples(h, QuorumSample), n, cfg.dwell)
    ensures SentAt(cfg, h, n).setFence == SetAt(Samples(h, FenceSample), n, cfg.dwell)
  {
    WatcherIsTwoChannels(cfg, h, n);
    PollIsTwoChannels(After(cfg, h[..n]), cfg, h[n]);
  }

  lemma SamplesKeepTime(h: History, f: Observation -> Sample)
    requires Quorum.ClockNeverGoesBack(h) && forall o :: f(o).now == o.now
    ensures ClockNeverGoesBack(Samples(h, f))
  {
    forall i, j | 0 <= i <= j < |h|
      ensures Samples(h, f)[i].now <= Samples(h, f)[j].now
    {
      assert f(h[i]).now == h[i].now && f(h[j]).now == h[j].now;
    }
  }

  /** The quorum is set exactly when every poll for the dwell wanted that quorum, read
    * another one and saw no SET of it accepted; the same for the fence. */
  lemma WatcherSetsExactlyWhenDue(cfg: Config, h: History, n: nat, v: nat)
    requires n < |h| && Quorum.ClockNeverGoesBack(h)
    ensures SentAt(cfg, h, n).setQuorum == Some(v) <==> exists m :: Due(Samples(h, QuorumSample), v, m, n, cfg.dwell)
    ensures SentAt(cfg, h, n).setFence == Some(v) <==> exists m :: Due(Samples(h, FenceSample), v, m, n, cfg.dwell)
  {
    SentBySample(cfg, h, n);
    SamplesKeepTime(h, QuorumSample);
    SamplesKeepTime(h, FenceSample);
    SetExactlyWhenDue(Samples(h, QuorumSample), v, n, cfg.dwell);
    SetExactlyWhenDue(Samples(h, FenceSample), v, n, cfg.dwell);
  }
}
