/** Every RESET and every SET of the quorum-sync watcher is justified by the whole
  * history of polls since its window opened, and a due RESET is not withheld. */
module QuorumHistory {
  import opened Wrappers
  import opened Quorum

  // ----- one poll keeps every window explained ---------------------------------

  lemma NoResetExtends(cfg: Config, h: History, n: nat, m: int)
    requires n < |h| && NoResetIn(cfg, h, m, n) && !ResetDone(cfg, h, n)
    ensures NoResetIn(cfg, h, m, n + 1)
  {
  }

  /** The down windows as poll `n` tests them, before a RESET may clear them. */
  ghost predicate DownTested(cfg: Config, h: History, windows: map<PeerId, int>, n: int)
    requires 0 <= n < |h|
  {
    forall id | id in windows ::
      exists m :: DownThroughout(h, id, m, n + 1) && m <= n && h[m].now == windows[id] && NoResetIn(cfg, h, m, n)
  }

  lemma DownStep(cfg: Config, h: History, n: nat, windows: map<PeerId, int>)
    requires n < |h| && h[n].obs.Observed? && DownExplained(cfg, h, windows, n)
    ensures var next := Advance(windows, DownIds(h[n].obs.peers), h[n].now);
            && DownTested(cfg, h, next, n)
            && (!ResetDone(cfg, h, n) ==> DownExplained(cfg, h, next, n + 1))
  {
    var next := Advance(windows, DownIds(h[n].obs.peers), h[n].now);
    forall id | id in next
      ensures exists m :: DownThroughout(h, id, m, n + 1) && m <= n && h[m].now == next[id] && NoResetIn(cfg, h, m, n)
    {
      if id in windows {
        var m :| DownThroughout(h, id, m, n) && m < n && h[m].now == windows[id] && NoResetIn(cfg, h, m, n);
        assert DownThroughout(h, id, m, n + 1);
      } else {
        assert DownThroughout(h, id, n, n + 1) && NoResetIn(cfg, h, n, n);
      }
    }
    if !ResetDone(cfg, h, n) {
      forall id | id in next
        ensures exists m :: DownThroughout(h, id, m, n + 1) && m < n + 1 && h[m].now == next[id]
                            && NoResetIn(cfg, h, m, n + 1)
      {
        var m :| DownThroughout(h, id, m, n + 1) && m <= n && h[m].now == next[id] && NoResetIn(cfg, h, m, n);
        NoResetExtends(cfg, h, n, m);
      }
    }
  }

  /** The gone windows as poll `n` tests them, before a RESET may clear them. */
  ghost predicate GoneTested(cfg: Config, h: History, windows: map<PeerId, int>, n: int)
    requires 0 <= n < |h|
  {
    forall id | id in windows ::
      exists m :: GoneThroughout(h, id, m, n + 1) && m <= n && h[m].now == windows[id] && NoResetIn(cfg, h, m, n)
  }

  lemma GoneStep(cfg: Config, h: History, n: nat, windows: map<PeerId, int>)
    requires n < |h| && h[n].obs.Observed? && GoneExplained(cfg, h, windows, n)
    ensures var next := Advance(windows, GoneIds(h[n].obs.peers), h[n].now);
            && GoneTested(cfg, h, next, n)
            && (!ResetDone(cfg, h, n) ==> GoneExplained(cfg, h, next, n + 1))
  {
    var next := Advance(windows, GoneIds(h[n].obs.peers), h[n].now);
    forall id | id in next
      ensures exists m :: GoneThroughout(h, id, m, n + 1) && m <= n && h[m].now == next[id] && NoResetIn(cfg, h, m, n)
    {
      if id in windows {
        var m :| GoneThroughout(h, id, m, n) && m < n && h[m].now == windows[id] && NoResetIn(cfg, h, m, n);
        assert GoneThroughout(h, id, m, n + 1);
      } else {
        assert GoneThroughout(h, id, n, n + 1) && NoResetIn(cfg, h, n, n);
      }
    }
    if !ResetDone(cfg, h, n) {
      forall id | id in next
        ensures exists m :: GoneThroughout(h, id, m, n + 1) && m < n + 1 && h[m].now == next[id]
                            && NoResetIn(cfg, h, m, n + 1)
      {
        var m :| GoneThroughout(h, id, m, n + 1) && m <= n && h[m].now == next[id] && NoResetIn(cfg, h, m, n);
        NoResetExtends(cfg, h, n, m);
      }
    }
  }

  lemma LastResetStep(cfg: Config, h: History, n: nat, last: Option<int>)
    requires n < |h| && LastResetExplained(cfg, h, last, n)
    ensures LastResetExplained(cfg, h, if ResetDone(cfg, h, n) then Some(h[n].now) else last, n + 1)
  {
    if ResetDone(cfg, h, n) {
      assert NoResetIn(cfg, h, n + 1, n + 1);
    } else if last.Some? {
      var m :| NoResetIn(cfg, h, m + 1, n) && 0 <= m < n && ResetDone(cfg, h, m) && h[m].now == last.value;
      NoResetExtends(cfg, h, n, m + 1);
    } else {
      NoResetExtends(cfg, h, n, 0);
    }
  }

  /** What one poll does to each window, one at a time. */
  lemma PollByWindow(w: Watch, cfg: Config, now: int, obs: Obs)
    ensures var (next, acts) := Poll(w, cfg, now, obs);
            if obs.Unobserved? then next == Cleared(w) && acts == IDLE
            else
              && next.lastResetAt == (if acts.reset && obs.resetOk then Some(now) else w.lastResetAt)
              && (cfg.pruneDisabled ==> next.downSince == w.downSince && next.goneSince == w.goneSince)
              && (!cfg.pruneDisabled ==>
                    if acts.reset && obs.resetOk then next.downSince == map[] && next.goneSince == map[]
                    else next.downSince == Advance(w.downSince, DownIds(obs.peers), now)
                         && next.goneSince == Advance(w.goneSince, GoneIds(obs.peers), now))
  {
  }

  /** The watcher after the first `n` polls, with every open window explained by them. */
  ghost predicate Explained(cfg: Config, h: History, w: Watch, n: int) {
    && (if cfg.pruneDisabled then w.downSince == map[] && w.goneSince == map[]
        else DownExplained(cfg, h, w.downSince, n) && GoneExplained(cfg, h, w.goneSince, n))
    && LastResetExplained(cfg, h, w.lastResetAt, n)
  }

  lemma AfterOneMore(cfg: Config, h: History, n: nat)
    requires n < |h|
    ensures After(cfg, h[..n + 1]) == Poll(After(cfg, h[..n]), cfg, h[n].now, h[n].obs).0
  {
    assert h[..n + 1][..n] == h[..n];
  }

  lemma PollExplained(cfg: Config, h: History, w: Watch, n: nat)
    requires n < |h| && w == After(cfg, h[..n]) && Explained(cfg, h, w, n)
    ensures Explained(cfg, h, Poll(w, cfg, h[n].now, h[n].obs).0, n + 1)
  {
    var obs := h[n].obs;
    PollByWindow(w, cfg, h[n].now, obs);
    LastResetStep(cfg, h, n, w.lastResetAt);
    if obs.Observed? && !cfg.pruneDisabled {
      DownStep(cfg, h, n, w.downSince);
      GoneStep(cfg, h, n, w.goneSince);
    }
  }

  lemma {:induction false} HistoryExplainsWindows(cfg: Config, h: History, n: nat)
    requires n <= |h|
    ensures Explained(cfg, h, After(cfg, h[..n]), n)
  {
    if n > 0 {
      HistoryExplainsWindows(cfg, h, n - 1);
      AfterOneMore(cfg, h, n - 1);
      PollExplained(cfg, h, After(cfg, h[..n - 1]), n - 1);
    } else {
      assert NoResetIn(cfg, h, 0, 0);
    }
  }

  // ----- the theorems ----------------------------------------------------------

  ghost predicate DownForDwell(cfg: Config, h: History, id: PeerId, n: nat)
    requires n < |h|
  {
    exists m :: DownThroughout(h, id, m, n + 1) && m <= n && h[n].now - h[m].now >= cfg.pruneDwell
                && NoResetIn(cfg, h, m, n)
  }

  ghost predicate GoneForDwell(cfg: Config, h: History, id: PeerId, n: nat)
    requires n < |h|
  {
    exists m :: GoneThroughout(h, id, m, n + 1) && m <= n && h[n].now - h[m].now >= cfg.pruneDwell
                && NoResetIn(cfg, h, m, n)
  }

  ghost predicate BackoffServed(cfg: Config, h: History, n: nat)
    requires n < |h|
  {
    forall k | 0 <= k < n && ResetDone(cfg, h, k) :: h[n].now - h[k].now >= cfg.pruneBackoff
  }

  /** What must be true of the history for a RESET to go out at poll `n`. */
  ghost predicate ResetDue(cfg: Config, h: History, n: nat)
    requires n < |h|
  {
    var obs := h[n].obs;
    && !cfg.pruneDisabled && obs.Observed? && obs.healthy
    && (exists id :: DownForDwell(cfg, h, id, n))
    && (LiveIsMajorityOfKnown(obs.peers)
        || (DownIds(obs.peers) != {} && forall id | id in DownIds(obs.peers) :: GoneForDwell(cfg, h, id, n)))
    && BackoffServed(cfg, h, n)
  }

  lemma BackoffReachesEveryReset(cfg: Config, h: History, n: nat, last: int)
    requires n < |h| && LastResetExplained(cfg, h, Some(last), n) && ClockNeverGoesBack(h)
    requires h[n].now - last >= cfg.pruneBackoff
    ensures BackoffServed(cfg, h, n)
  {
    var m :| NoResetIn(cfg, h, m + 1, n) && 0 <= m < n && ResetDone(cfg, h, m) && h[m].now == last;
  }

  /** The windows as `PruneDeadSentinels` tests them at poll `n`. */
  ghost function Tested(cfg: Config, h: History, n: nat): Watch
    requires n < |h| && h[n].obs.Observed?
  {
    var w := After(cfg, h[..n]);
    w.(downSince := Advance(w.downSince, DownIds(h[n].obs.peers), h[n].now),
       goneSince := Advance(w.goneSince, GoneIds(h[n].obs.peers), h[n].now))
  }

  lemma SentMeansAllowed(cfg: Config, h: History, n: nat)
    requires n < |h|
    ensures SentAt(cfg, h, n).reset
            <==> !cfg.pruneDisabled && h[n].obs.Observed?
                 && ResetAllowed(Tested(cfg, h, n), cfg, h[n].now, h[n].obs)
  {
  }

  /** Every RESET is due by the history, for every clock that does not go back. */
  lemma EveryResetIsDue(cfg: Config, h: History, n: nat)
    requires n < |h| && SentAt(cfg, h, n).reset && ClockNeverGoesBack(h)
    ensures ResetDue(cfg, h, n)
  {
    SentMeansAllowed(cfg, h, n);
    HistoryExplainsWindows(cfg, h, n);
    var w, before := Tested(cfg, h, n), After(cfg, h[..n]);
    DownStep(cfg, h, n, before.downSince);
    GoneStep(cfg, h, n, before.goneSince);
    var id :| id in w.downSince && h[n].now - w.downSince[id] >= cfg.pruneDwell;
    assert DownForDwell(cfg, h, id, n);
    if !LiveIsMajorityOfKnown(h[n].obs.peers) {
      forall id | id in DownIds(h[n].obs.peers)
        ensures GoneForDwell(cfg, h, id, n)
      {
        assert id in w.goneSince;
      }
    }
    if w.lastResetAt.Some? {
      BackoffReachesEveryReset(cfg, h, n, w.lastResetAt.value);
    } else {
      assert NoResetIn(cfg, h, 0, n);
    }
  }

  // ----- the other direction: a due RESET is not withheld ------------------------

  /** A window is never younger than the run of polls it stands for. */
  lemma {:induction false} DownWindowOpen(cfg: Config, h: History, id: PeerId, m: nat, n: nat)
    requires ClockNeverGoesBack(h) && !cfg.pruneDisabled
    requires m < n <= |h| && DownThroughout(h, id, m, n) && NoResetIn(cfg, h, m, n)
    ensures var w := After(cfg, h[..n]); id in w.downSince && w.downSince[id] <= h[m].now
    decreases n
  {
    var k := n - 1;
    HistoryExplainsWindows(cfg, h, k);
    AfterOneMore(cfg, h, k);
    PollByWindow(After(cfg, h[..k]), cfg, h[k].now, h[k].obs);
    assert !ResetDone(cfg, h, k);
    if m < k {
      DownWindowOpen(cfg, h, id, m, k);
    }
  }

  lemma {:induction false} GoneWindowOpen(cfg: Config, h: History, id: PeerId, m: nat, n: nat)
    requires ClockNeverGoesBack(h) && !cfg.pruneDisabled
    requires m < n <= |h| && GoneThroughout(h, id, m, n) && NoResetIn(cfg, h, m, n)
    ensures var w := After(cfg, h[..n]); id in w.goneSince && w.goneSince[id] <= h[m].now
    decreases n
  {
    var k := n - 1;
    HistoryExplainsWindows(cfg, h, k);
    AfterOneMore(cfg, h, k);
    PollByWindow(After(cfg, h[..k]), cfg, h[k].now, h[k].obs);
    assert !ResetDone(cfg, h, k);
    if m < k {
      GoneWindowOpen(cfg, h, id, m, k);
    }
  }

  lemma DownWindowServed(cfg: Config, h: History, id: PeerId, m: nat, n: nat)
    requires ClockNeverGoesBack(h) && !cfg.pruneDisabled
    requires m <= n < |h| && DownThroughout(h, id, m, n + 1) && NoResetIn(cfg, h, m, n)
    ensures var w := Tested(cfg, h, n); id in w.downSince && w.downSince[id] <= h[m].now
  {
    HistoryExplainsWindows(cfg, h, n);
    if m < n {
      assert DownThroughout(h, id, m, n);
      DownWindowOpen(cfg, h, id, m, n);
    }
  }

  lemma GoneWindowServed(cfg: Config, h: History, id: PeerId, m: nat, n: nat)
    requires ClockNeverGoesBack(h) && !cfg.pruneDisabled
    requires m <= n < |h| && GoneThroughout(h, id, m, n + 1) && NoResetIn(cfg, h, m, n)
    ensures var w := Tested(cfg, h, n); id in w.goneSince && w.goneSince[id] <= h[m].now
  {
    HistoryExplainsWindows(cfg, h, n);
    if m < n {
      assert GoneThroughout(h, id, m, n);
      GoneWindowOpen(cfg, h, id, m, n);
    }
  }

  /** "Due by the history" and "sent" are the same at every poll of every history. */
  lemma ResetSentExactlyWhenDue(cfg: Config, h: History, n: nat)
    requires n < |h| && ClockNeverGoesBack(h)
    ensures SentAt(cfg, h, n).reset <==> ResetDue(cfg, h, n)
  {
    if SentAt(cfg, h, n).reset {
      EveryResetIsDue(cfg, h, n);
    } else if ResetDue(cfg, h, n) {
      var w := Tested(cfg, h, n);
      var id :| DownForDwell(cfg, h, id, n);
      var m :| DownThroughout(h, id, m, n + 1) && m <= n && h[n].now - h[m].now >= cfg.pruneDwell
               && NoResetIn(cfg, h, m, n);
      DownWindowServed(cfg, h, id, m, n);
      if !LiveIsMajorityOfKnown(h[n].obs.peers) {
        forall p | p in DownIds(h[n].obs.peers)
          ensures p in w.goneSince && h[n].now - w.goneSince[p] >= cfg.pruneDwell
        {
          assert GoneForDwell(cfg, h, p, n);
          var m :| GoneThroughout(h, p, m, n + 1) && m <= n && h[n].now - h[m].now >= cfg.pruneDwell
                   && NoResetIn(cfg, h, m, n);
          GoneWindowServed(cfg, h, p, m, n);
        }
      }
      HistoryExplainsWindows(cfg, h, n);
      SentMeansAllowed(cfg, h, n);
    }
  }
}
