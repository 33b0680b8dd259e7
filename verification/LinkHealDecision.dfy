/** Which decision each poll of the link-heal watcher takes, told from the run: whom a command
  * names and why it is sent, when a recovery is reported and when the watcher gives up. */
module LinkHealDecision {
  import opened Wrappers
  import opened Text
  import opened LinkHeal
  import opened LinkHealHistory
  import opened RollingWindow

  /** The two addresses are one, in any spelling of the host. */
  predicate SameAddress(a: Address, b: Address) {
    NormalizeHost(a.0) == NormalizeHost(b.0) && a.1 == b.1
  }

  /** The node follows a master, Sentinel names one, and they are not the same. */
  predicate FollowsAnother(o: Obs) {
    o.Replica? && o.masterAddr.Some? && o.target.Some? && !SameAddress(o.masterAddr.value, o.target.value)
  }

  lemma MismatchedIsAnother(o: Obs)
    ensures Mismatched(o) <==> FollowsAnother(o)
  {
  }

  /** A command is REPLICAOF NO ONE exactly when Sentinel names this node itself, else it
    * reattaches the node to the address Sentinel names; its reason is a stall exactly when the
    * link was down, with no sync in flight, for the dwell. */
  lemma CommandIs(cfg: Config, h: History, n: nat)
    requires n < |h| && ClockNeverGoesBack(h) && Acts(ActionAt(cfg, h, n))
    ensures h[n].Poll? && h[n].obs.Replica? && h[n].obs.target.Some?
    ensures var a, named := ActionAt(cfg, h, n), h[n].obs.target.value;
            && (a.PromoteSelf? <==> NormalizeHost(named.0) == NormalizeHost(cfg.own))
            && (a.Reheal? ==> (a.host, a.port) == named)
            && (a.reason.StalledLink? <==> StalledForDwell(h, n, cfg.t.dwell))
            && (a.reason.WrongMaster? ==> MismatchedForDwell(h, n, cfg.t.wrongMasterDwell))
  {
    CommandSentExactlyWhenDue(cfg, h, n);
    StallServed(cfg, h, n);
    MismatchServed(cfg, h, n);
  }

  /** A recovery is awaited exactly while the last action written down has not been cleared. */
  lemma {:induction false} PendingIsRecorded(cfg: Config, h: History)
    ensures After(cfg, h).pendingRecovery.Some? <==> LastWritten(cfg, h).Some?
  {
    if h != [] {
      PendingIsRecorded(cfg, h[..|h| - 1]);
      FileTellsTheRun(cfg, h);
      NextPending(cfg, After(cfg, h[..|h| - 1]), h[|h| - 1]);
    }
  }

  lemma NextPending(cfg: Config, s: State, e: LinkHealHistory.Event)
    ensures var next, a := Next(cfg, s, e).0, Decided(cfg, s, e);
            next.pendingRecovery.Some?
            <==> if !e.Poll? then LastAction(next.file).Some?
                 else Acts(a) || (!a.EmitRecovered? && s.pendingRecovery.Some?)
  {
  }

  /** The replica reads healthy: its link is up and it is attached where Sentinel says. */
  predicate Healthy(o: Obs) {
    o.Replica? && !o.linkDown && !FollowsAnother(o)
  }

  lemma StepReports(s: State, now: int, o: Obs, own: string, t: Thresholds)
    requires o.Replica?
    ensures var a, recovered := Step(s, now, o, own, t).1, s.pendingRecovery.Some? && Healthy(o);
            && (a.EmitRecovered? <==> recovered)
            && (a.EmitGaveUp? <==> !recovered && RecentAttempts(s.file, now - t.window) >= t.maxAttempts)
  {
  }

  lemma NothingToReport(s: State, now: int, o: Obs, own: string, t: Thresholds)
    requires !o.Replica?
    ensures Step(s, now, o, own, t).1 == NoOp
  {
  }

  /** The decision of an event, and the state it is taken in. */
  lemma ActionIsDecided(cfg: Config, h: History, n: nat) returns (s: State, a: Action)
    requires n < |h|
    ensures s == After(cfg, h[..n]) && a == ActionAt(cfg, h, n)
    ensures h[n].Poll? && h[n].obs.Replica? ==>
              var recovered := s.pendingRecovery.Some? && Healthy(h[n].obs);
              && (a.EmitRecovered? <==> recovered)
              && (a.EmitGaveUp?
                  <==> !recovered && RecentAttempts(s.file, h[n].now - cfg.t.window) >= cfg.t.maxAttempts)
    ensures !(h[n].Poll? && h[n].obs.Replica?) ==> a == NoOp
  {
    s, a := After(cfg, h[..n]), ActionAt(cfg, h, n);
    if h[n].Poll? && h[n].obs.Replica? {
      StepReports(s, h[n].now, h[n].obs, cfg.own, cfg.t);
    } else if h[n].Poll? {
      NothingToReport(s, h[n].now, h[n].obs, cfg.own, cfg.t);
    }
  }

  predicate RecoveryDue(cfg: Config, h: History, n: nat)
    requires n < |h|
  {
    h[n].Poll? && Healthy(h[n].obs) && LastWritten(cfg, h[..n]).Some?
  }

  predicate AtCap(cfg: Config, h: History, n: nat)
    requires n < |h|
  {
    && h[n].Poll? && h[n].obs.Replica?
    && CountSince(AttemptsWritten(cfg, h[..n]), h[n].now - cfg.t.window) >= cfg.t.maxAttempts
  }

  lemma RecentIsWritten(cfg: Config, h: History, cutoff: int)
    ensures RecentAttempts(After(cfg, h).file, cutoff) == CountSince(AttemptsWritten(cfg, h), cutoff)
  {
    FileTellsTheRun(cfg, h);
  }

  lemma ReportFrom(cfg: Config, h: History, n: nat, s: State, a: Action)
    requires n < |h| && h[n].Poll? && h[n].obs.Replica?
    requires s.pendingRecovery.Some? <==> LastWritten(cfg, h[..n]).Some?
    requires RecentAttempts(s.file, h[n].now - cfg.t.window)
             == CountSince(AttemptsWritten(cfg, h[..n]), h[n].now - cfg.t.window)
    requires a.EmitRecovered? <==> s.pendingRecovery.Some? && Healthy(h[n].obs)
    requires a.EmitGaveUp? <==> !(s.pendingRecovery.Some? && Healthy(h[n].obs))
                                && RecentAttempts(s.file, h[n].now - cfg.t.window) >= cfg.t.maxAttempts
    ensures a.EmitRecovered? <==> RecoveryDue(cfg, h, n)
    ensures a.EmitGaveUp? <==> AtCap(cfg, h, n) && !RecoveryDue(cfg, h, n)
  {
  }

  /** A recovery is reported exactly at a poll that finds the replica healthy while an action is
    * on record; the watcher gives up exactly at any other poll of a replica that finds the
    * attempts of the last window at the cap. */
  lemma ReportIs(cfg: Config, h: History, n: nat)
    requires n < |h|
    ensures ActionAt(cfg, h, n).EmitRecovered? <==> RecoveryDue(cfg, h, n)
    ensures ActionAt(cfg, h, n).EmitGaveUp? <==> AtCap(cfg, h, n) && !RecoveryDue(cfg, h, n)
  {
    var s, a := ActionIsDecided(cfg, h, n);
    PendingIsRecorded(cfg, h[..n]);
    RecentIsWritten(cfg, h[..n], h[n].now - cfg.t.window);
    if h[n].Poll? && h[n].obs.Replica? {
      ReportFrom(cfg, h, n, s, a);
    }
  }

  /** A process remembers that it gave up from the poll that said so until a look at a replica
    * finds room in the window again, and no longer than it lives. */
  lemma GaveUpIsRemembered(cfg: Config, s: State, e: LinkHealHistory.Event)
    ensures Next(cfg, s, e).0.gaveUp
            <==> e.Poll? && (Next(cfg, s, e).1.EmitGaveUp?
                             || (s.gaveUp && (e.obs.Replica? ==>
                                                RecentAttempts(s.file, e.now - cfg.t.window) >= cfg.t.maxAttempts)))
  {
  }

  /** What is left waits while it backs off, or while something is wrong that no sync is mending;
    * and otherwise there is nothing to do. */
  lemma OtherwiseItWaits(s: State, now: int, o: Obs, own: string, t: Thresholds)
    requires o.Replica?
    ensures var a := Step(s, now, o, own, t).1;
            var backsOff := LastAction(s.file).Some? && Elapsed(LastAction(s.file), now) < t.backoff;
            !Acts(a) && !a.EmitRecovered? && !a.EmitGaveUp? ==>
              a == if backsOff || (!o.syncing && !Healthy(o)) then Wait else NoOp
  {
  }
}
