/** What the link-heal limiter promises over any run of polls, restarts and crashes in the
  * middle of an action, on a clock that does not go back. */
module LinkHealHistory {
  import opened Wrappers
  import opened LinkHeal
  import opened RollingWindow

  datatype Config = Config(own: string, t: Thresholds)

  /** `Poll` runs to its end. `Killed` is a poll whose process dies after `writes` of the
    * writes to the state file that its decision makes; the command never goes out. Both
    * `Killed` and `Restart` are followed by a new process. */
  datatype Event =
    | Poll(now: int, obs: Obs)
    | Killed(now: int, obs: Obs, writes: nat)
    | Restart(now: int)

  type History = seq<Event>

  /** An action writes its time and then the attempt; a recovery clears the time and then the
    * attempts. */
  function FileAfter(f: StateFile, a: Action, now: int, writes: nat): StateFile {
    if writes == 0 then f
    else if Acts(a) then if writes == 1 then WithoutLastAction(f) + [LastActionAt(now)] else RecordAction(f, now)
    else if a.EmitRecovered? then if writes == 1 then WithoutLastAction(f) else ClearActions(f)
    else f
  }

  function Decided(cfg: Config, s: State, e: Event): Action {
    if e.Restart? then NoOp else Step(s, e.now, e.obs, cfg.own, cfg.t).1
  }

  function Next(cfg: Config, s: State, e: Event): (State, Action) {
    match e
    case Poll(now, obs) => Step(s, now, obs, cfg.own, cfg.t)
    case Restart(_) => (Restarted(s.file), NoOp)
    case Killed(now, obs, writes) => (Restarted(FileAfter(s.file, Decided(cfg, s, e), now, writes)), NoOp)
  }

  /** The first `n` writes of the decision taken at `e` were made. */
  predicate Wrote(e: Event, n: nat) {
    e.Poll? || (e.Killed? && e.writes >= n)
  }

  /** A recovery counts from its first clear. */
  predicate Recovers(cfg: Config, s: State, e: Event) {
    Decided(cfg, s, e).EmitRecovered? && Wrote(e, 1)
  }

  /** The state after a history that began on an empty volume. */
  function After(cfg: Config, h: History): State {
    if h == [] then Restarted([]) else Next(cfg, After(cfg, h[..|h| - 1]), h[|h| - 1]).0
  }

  function ActionAt(cfg: Config, h: History, n: nat): Action
    requires n < |h|
  {
    Next(cfg, After(cfg, h[..n]), h[n]).1
  }

  /** The times of the commands sent since the last recovery, oldest first. */
  function Sent(cfg: Config, h: History): seq<int> {
    if h == [] then []
    else
      var rest, e := h[..|h| - 1], h[|h| - 1];
      var s := After(cfg, rest);
      if e.Poll? && Acts(Decided(cfg, s, e)) then Sent(cfg, rest) + [e.now]
      else if Recovers(cfg, s, e) then []
      else Sent(cfg, rest)
  }

  ghost predicate ClockNeverGoesBack(h: History) {
    forall i, j | 0 <= i <= j < |h| :: h[i].now <= h[j].now
  }

  // ----- what the file knows --------------------------------------------------------------

  lemma RecentSnoc(f: StateFile, l: Line, cutoff: int)
    ensures RecentAttempts(f + [l], cutoff)
            == RecentAttempts(f, cutoff) + (if l.Attempt? && l.t >= cutoff then 1 else 0)
    ensures LastAction(f + [l]) == if l.LastActionAt? then Some(l.t) else LastAction(f)
  {
    assert (f + [l])[..|f|] == f;
  }

  lemma {:induction false} RecentConcat(f: StateFile, g: StateFile, cutoff: int)
    ensures RecentAttempts(f + g, cutoff) == RecentAttempts(f, cutoff) + RecentAttempts(g, cutoff)
  {
    if g == [] {
      assert f + g == f;
    } else {
      assert (f + g)[..|f + g| - 1] == f + g[..|g| - 1];
      RecentConcat(f, g[..|g| - 1], cutoff);
    }
  }

  lemma {:induction false} DroppingLastActionKeepsAttempts(f: StateFile, cutoff: int)
    ensures RecentAttempts(WithoutLastAction(f), cutoff) == RecentAttempts(f, cutoff)
  {
    if f != [] {
      assert f == [f[0]] + f[1..];
      RecentConcat([f[0]], f[1..], cutoff);
      RecentConcat([f[0]], WithoutLastAction(f[1..]), cutoff);
      DroppingLastActionKeepsAttempts(f[1..], cutoff);
    }
  }

  lemma RecordedFile(f: StateFile, now: int)
    ensures LastAction(RecordAction(f, now)) == Some(now)
    ensures forall cutoff :: RecentAttempts(RecordAction(f, now), cutoff)
                             == RecentAttempts(f, cutoff) + (if now >= cutoff then 1 else 0)
  {
    var g := WithoutLastAction(f) + [LastActionAt(now)];
    forall cutoff
      ensures RecentAttempts(RecordAction(f, now), cutoff)
              == RecentAttempts(f, cutoff) + (if now >= cutoff then 1 else 0)
    {
      RecentSnoc(WithoutLastAction(f), LastActionAt(now), cutoff);
      RecentSnoc(g, Attempt(now), cutoff);
      DroppingLastActionKeepsAttempts(f, cutoff);
    }
    RecentSnoc(WithoutLastAction(f), LastActionAt(now), 0);
    RecentSnoc(g, Attempt(now), 0);
  }

  lemma HalfRecordedFile(f: StateFile, now: int)
    ensures var g := WithoutLastAction(f) + [LastActionAt(now)];
            && LastAction(g) == Some(now)
            && forall cutoff :: RecentAttempts(g, cutoff) == RecentAttempts(f, cutoff)
  {
    forall cutoff
      ensures RecentAttempts(WithoutLastAction(f) + [LastActionAt(now)], cutoff) == RecentAttempts(f, cutoff)
    {
      RecentSnoc(WithoutLastAction(f), LastActionAt(now), cutoff);
      DroppingLastActionKeepsAttempts(f, cutoff);
    }
    RecentSnoc(WithoutLastAction(f), LastActionAt(now), 0);
  }

  /** The file never under-reports what was sent since the last recovery. */
  ghost predicate FileCovers(f: StateFile, sent: seq<int>, upTo: int) {
    && (forall cutoff, hi :: CountIn(sent, cutoff, hi) <= RecentAttempts(f, cutoff))
    && (sent != [] ==> LastAction(f).Some? && sent[|sent| - 1] <= LastAction(f).value)
    && (forall t | t in sent :: t <= upTo)
  }

  lemma SentIsCovered(f: StateFile, sent: seq<int>, now: int)
    requires FileCovers(f, sent, now)
    ensures FileCovers(RecordAction(f, now), sent + [now], now)
  {
    RecordedFile(f, now);
    forall cutoff, hi
      ensures CountIn(sent + [now], cutoff, hi) <= RecentAttempts(RecordAction(f, now), cutoff)
    {
      CountInSnoc(sent, now, cutoff, hi);
    }
  }

  // ----- the limiter ----------------------------------------------------------------------

  ghost predicate Spaced(times: seq<int>, backoff: nat) {
    forall i, j | 0 <= i < j < |times| :: times[j] - times[i] >= backoff
  }

  lemma ActingMeansWithinLimits(cfg: Config, s: State, now: int, o: Obs)
    requires Acts(Step(s, now, o, cfg.own, cfg.t).1)
    ensures RecentAttempts(s.file, now - cfg.t.window) < cfg.t.maxAttempts
    ensures LastAction(s.file).Some? ==> Elapsed(LastAction(s.file), now) >= cfg.t.backoff
    ensures Step(s, now, o, cfg.own, cfg.t).0.file == RecordAction(s.file, now)
  {
  }

  lemma ActingKeepsSpacing(cfg: Config, s: State, sent: seq<int>, now: int, o: Obs)
    requires Acts(Step(s, now, o, cfg.own, cfg.t).1)
    requires FileCovers(s.file, sent, now) && Spaced(sent, cfg.t.backoff)
    ensures Spaced(sent + [now], cfg.t.backoff)
  {
    ActingMeansWithinLimits(cfg, s, now, o);
    forall i | 0 <= i < |sent|
      ensures now - sent[i] >= cfg.t.backoff
    {
      assert sent[i] in sent;
      assert i < |sent| - 1 ==> sent[|sent| - 1] - sent[i] >= cfg.t.backoff;
    }
  }

  lemma ActingKeepsCap(cfg: Config, s: State, sent: seq<int>, now: int, o: Obs)
    requires Acts(Step(s, now, o, cfg.own, cfg.t).1)
    requires FileCovers(s.file, sent, now) && Capped(sent, cfg.t.window, cfg.t.maxAttempts)
    ensures Capped(sent + [now], cfg.t.window, cfg.t.maxAttempts)
  {
    ActingMeansWithinLimits(cfg, s, now, o);
    OneMoreStaysCapped(sent, now, now - cfg.t.window, cfg.t.window, cfg.t.maxAttempts);
  }

  ghost predicate Limited(cfg: Config, f: StateFile, sent: seq<int>, upTo: int) {
    FileCovers(f, sent, upTo) && Spaced(sent, cfg.t.backoff) && Capped(sent, cfg.t.window, cfg.t.maxAttempts)
  }

  lemma RecordKeepsLimits(cfg: Config, f: StateFile, sent: seq<int>, now: int)
    requires Limited(cfg, f, sent, now)
    ensures Limited(cfg, RecordAction(f, now), sent, now)
    ensures Limited(cfg, WithoutLastAction(f) + [LastActionAt(now)], sent, now)
  {
    HalfRecordedFile(f, now);
    RecordedFile(f, now);
    assert sent != [] ==> sent[|sent| - 1] in sent;
  }

  lemma PollKeepsLimits(cfg: Config, s: State, sent: seq<int>, now: int, obs: Obs)
    requires Limited(cfg, s.file, sent, now) && Acts(Step(s, now, obs, cfg.own, cfg.t).1)
    ensures Limited(cfg, Step(s, now, obs, cfg.own, cfg.t).0.file, sent + [now], now)
  {
    ActingMeansWithinLimits(cfg, s, now, obs);
    SentIsCovered(s.file, sent, now);
    ActingKeepsSpacing(cfg, s, sent, now, obs);
    ActingKeepsCap(cfg, s, sent, now, obs);
  }

  lemma KilledKeepsLimits(cfg: Config, f: StateFile, sent: seq<int>, a: Action, now: int, writes: nat)
    requires Limited(cfg, f, sent, now)
    ensures Limited(cfg, FileAfter(f, a, now, writes), if a.EmitRecovered? && writes >= 1 then [] else sent, now)
  {
    RecordKeepsLimits(cfg, f, sent, now);
  }

  lemma EventKeepsLimits(cfg: Config, s: State, sent: seq<int>, e: Event)
    requires Limited(cfg, s.file, sent, e.now)
    ensures var a := Decided(cfg, s, e);
            Limited(cfg, Next(cfg, s, e).0.file,
                    if e.Poll? && Acts(a) then sent + [e.now] else if Recovers(cfg, s, e) then [] else sent, e.now)
  {
    match e
    case Restart(_) =>
    case Killed(now, obs, writes) => KilledKeepsLimits(cfg, s.file, sent, Decided(cfg, s, e), now, writes);
    case Poll(now, obs) =>
      if Acts(Decided(cfg, s, e)) {
        PollKeepsLimits(cfg, s, sent, now, obs);
      }
  }

  /** Between two recoveries, whatever restarts and crashes fall in between: commands are
    * at least the backoff apart, and no window holds more than the cap. */
  lemma {:induction false} LimiterHolds(cfg: Config, h: History, upTo: int)
    requires ClockNeverGoesBack(h) && (h != [] ==> h[|h| - 1].now <= upTo)
    ensures Limited(cfg, After(cfg, h).file, Sent(cfg, h), upTo)
  {
    if h != [] {
      var rest, e := h[..|h| - 1], h[|h| - 1];
      LimiterHolds(cfg, rest, e.now);
      EventKeepsLimits(cfg, After(cfg, rest), Sent(cfg, rest), e);
      LimitedLater(cfg, After(cfg, h).file, Sent(cfg, h), e.now, upTo);
    }
  }

  lemma LimitedLater(cfg: Config, f: StateFile, sent: seq<int>, now: int, upTo: int)
    requires Limited(cfg, f, sent, now) && now <= upTo
    ensures Limited(cfg, f, sent, upTo)
  {
  }

  // ----- why each command was sent ------------------------------------------------------------

  /** From event `m` up to `n` one process polled, and every poll that could read the node
    * found a stalled link; poll `m` was one of them. */
  ghost predicate StalledThroughout(h: History, m: int, n: int) {
    && 0 <= m < n <= |h| && h[m].Poll? && Stalled(h[m].obs)
    && forall k | m <= k < n :: h[k].Poll? && (h[k].obs.NoConnection? || Stalled(h[k].obs))
  }

  ghost predicate MismatchedThroughout(h: History, m: int, n: int) {
    && 0 <= m < n <= |h| && h[m].Poll? && Mismatched(h[m].obs)
    && forall k | m <= k < n :: h[k].Poll? && (h[k].obs.NoConnection? || Mismatched(h[k].obs))
  }

  ghost predicate WindowsExplained(h: History, s: State, n: int) {
    && (s.stall.Some? ==> exists m :: StalledThroughout(h, m, n) && h[m].now == s.stall.value)
    && (s.mismatch.Some? ==> exists m :: MismatchedThroughout(h, m, n) && h[m].now == s.mismatch.value)
  }

  /** The windows as the decision of poll `n` sees them. */
  lemma WindowsStep(h: History, s: State, n: nat)
    requires n < |h| && h[n].Poll? && h[n].obs.Replica? && WindowsExplained(h, s, n)
    ensures WindowsExplained(h, s.(stall := Accrue(Stalled(h[n].obs), s.stall, h[n].now),
                                   mismatch := Accrue(Mismatched(h[n].obs), s.mismatch, h[n].now)), n + 1)
  {
    if Stalled(h[n].obs) {
      if s.stall.Some? {
        var m :| StalledThroughout(h, m, n) && h[m].now == s.stall.value;
        assert StalledThroughout(h, m, n + 1);
      } else {
        assert StalledThroughout(h, n, n + 1);
      }
    }
    if Mismatched(h[n].obs) {
      if s.mismatch.Some? {
        var m :| MismatchedThroughout(h, m, n) && h[m].now == s.mismatch.value;
        assert MismatchedThroughout(h, m, n + 1);
      } else {
        assert MismatchedThroughout(h, n, n + 1);
      }
    }
  }

  lemma SilentPollKeepsWindows(h: History, s: State, n: nat)
    requires n < |h| && h[n].Poll? && h[n].obs.NoConnection? && WindowsExplained(h, s, n)
    ensures WindowsExplained(h, s, n + 1)
  {
    if s.stall.Some? {
      var m :| StalledThroughout(h, m, n) && h[m].now == s.stall.value;
      assert StalledThroughout(h, m, n + 1);
    }
    if s.mismatch.Some? {
      var m :| MismatchedThroughout(h, m, n) && h[m].now == s.mismatch.value;
      assert MismatchedThroughout(h, m, n + 1);
    }
  }

  lemma NextExplained(cfg: Config, h: History, s: State, n: nat)
    requires n < |h| && WindowsExplained(h, s, n)
    ensures WindowsExplained(h, Next(cfg, s, h[n]).0, n + 1)
  {
    if h[n].Poll? {
      if h[n].obs.NoConnection? {
        SilentPollKeepsWindows(h, s, n);
      } else if h[n].obs.Replica? {
        WindowsStep(h, s, n);
      }
    }
  }

  lemma {:induction false} HistoryExplainsWindows(cfg: Config, h: History, n: nat)
    requires n <= |h|
    ensures WindowsExplained(h, After(cfg, h[..n]), n)
  {
    if n > 0 {
      HistoryExplainsWindows(cfg, h, n - 1);
      assert h[..n][..n - 1] == h[..n - 1];
      NextExplained(cfg, h, After(cfg, h[..n - 1]), n - 1);
    }
  }

  /** Every command goes to a replica with no sync in flight, names Sentinel's answer, and
    * follows a full dwell in which every readable poll was stalled, or mismatched. */
  lemma EveryCommandIsJustified(cfg: Config, h: History, n: nat)
    requires n < |h| && Acts(ActionAt(cfg, h, n))
    ensures h[n].Poll? && h[n].obs.Replica? && !h[n].obs.syncing && h[n].obs.target.Some?
    ensures var a := ActionAt(cfg, h, n);
            a.Reheal? ==> h[n].obs.target == Some((a.host, a.port))
    ensures ActionAt(cfg, h, n).reason.StalledLink? ==>
              exists m :: StalledThroughout(h, m, n + 1) && (h[n].now - h[m].now >= cfg.t.dwell || cfg.t.dwell == 0)
    ensures ActionAt(cfg, h, n).reason.WrongMaster? ==>
              exists m :: MismatchedThroughout(h, m, n + 1)
                          && (h[n].now - h[m].now >= cfg.t.wrongMasterDwell || cfg.t.wrongMasterDwell == 0)
  {
    HistoryExplainsWindows(cfg, h, n);
    WindowsStep(h, After(cfg, h[..n]), n);
  }

  // ----- the other direction: a due command is not withheld -------------------------------------

  /** One more poll of the run leaves a window at least as old as the run. */
  lemma WindowsStayOpen(cfg: Config, s: State, e: Event)
    requires e.Poll?
    ensures var next := Next(cfg, s, e).0;
            && (e.obs.NoConnection? ==> next.stall == s.stall && next.mismatch == s.mismatch)
            && (e.obs.Replica? ==> next.stall == Accrue(Stalled(e.obs), s.stall, e.now)
                                   && next.mismatch == Accrue(Mismatched(e.obs), s.mismatch, e.now))
  {
  }

  lemma OneMore(cfg: Config, h: History, n: nat)
    requires 0 < n <= |h|
    ensures After(cfg, h[..n]) == Next(cfg, After(cfg, h[..n - 1]), h[n - 1]).0
  {
    assert h[..n][..n - 1] == h[..n - 1];
  }

  ghost predicate OldEnough(window: Option<int>, since: int) {
    window.Some? && window.value <= since
  }

  /** An open window is never younger than the run of polls it stands for. */
  lemma {:induction false} StallWindowOpen(cfg: Config, h: History, m: nat, n: nat)
    requires ClockNeverGoesBack(h) && StalledThroughout(h, m, n)
    ensures OldEnough(After(cfg, h[..n]).stall, h[m].now)
    decreases n
  {
    var k := n - 1;
    OneMore(cfg, h, n);
    WindowsStayOpen(cfg, After(cfg, h[..k]), h[k]);
    if m < k {
      assert StalledThroughout(h, m, k);
      StallWindowOpen(cfg, h, m, k);
    } else {
      HistoryExplainsWindows(cfg, h, k);
    }
  }

  lemma {:induction false} MismatchWindowOpen(cfg: Config, h: History, m: nat, n: nat)
    requires ClockNeverGoesBack(h) && MismatchedThroughout(h, m, n)
    ensures OldEnough(After(cfg, h[..n]).mismatch, h[m].now)
    decreases n
  {
    var k := n - 1;
    OneMore(cfg, h, n);
    WindowsStayOpen(cfg, After(cfg, h[..k]), h[k]);
    if m < k {
      assert MismatchedThroughout(h, m, k);
      MismatchWindowOpen(cfg, h, m, k);
    } else {
      HistoryExplainsWindows(cfg, h, k);
    }
  }

  ghost predicate StalledForDwell(h: History, n: nat, dwell: nat)
    requires n < |h|
  {
    exists m :: StalledThroughout(h, m, n + 1) && h[n].now - h[m].now >= dwell
  }

  ghost predicate MismatchedForDwell(h: History, n: nat, dwell: nat)
    requires n < |h|
  {
    exists m :: MismatchedThroughout(h, m, n + 1) && h[n].now - h[m].now >= dwell
  }

  lemma StallServed(cfg: Config, h: History, n: nat)
    requires n < |h| && ClockNeverGoesBack(h) && h[n].Poll? && h[n].obs.Replica?
    ensures var s := After(cfg, h[..n]);
            StalledForDwell(h, n, cfg.t.dwell)
            <==> Stalled(h[n].obs) && Elapsed(Accrue(true, s.stall, h[n].now), h[n].now) >= cfg.t.dwell
  {
    var s := After(cfg, h[..n]);
    HistoryExplainsWindows(cfg, h, n);
    if StalledForDwell(h, n, cfg.t.dwell) {
      var m :| StalledThroughout(h, m, n + 1) && h[n].now - h[m].now >= cfg.t.dwell;
      if m < n {
        assert StalledThroughout(h, m, n);
        StallWindowOpen(cfg, h, m, n);
      }
    } else if Stalled(h[n].obs) {
      assert StalledThroughout(h, n, n + 1);
      if s.stall.Some? {
        var m :| StalledThroughout(h, m, n) && h[m].now == s.stall.value;
        assert StalledThroughout(h, m, n + 1);
      }
    }
  }

  lemma MismatchServed(cfg: Config, h: History, n: nat)
    requires n < |h| && ClockNeverGoesBack(h) && h[n].Poll? && h[n].obs.Replica?
    ensures var s := After(cfg, h[..n]);
            MismatchedForDwell(h, n, cfg.t.wrongMasterDwell)
            <==> Mismatched(h[n].obs) && Elapsed(Accrue(true, s.mismatch, h[n].now), h[n].now) >= cfg.t.wrongMasterDwell
  {
    var s := After(cfg, h[..n]);
    HistoryExplainsWindows(cfg, h, n);
    if MismatchedForDwell(h, n, cfg.t.wrongMasterDwell) {
      var m :| MismatchedThroughout(h, m, n + 1) && h[n].now - h[m].now >= cfg.t.wrongMasterDwell;
      if m < n {
        assert MismatchedThroughout(h, m, n);
        MismatchWindowOpen(cfg, h, m, n);
      }
    } else if Mismatched(h[n].obs) {
      assert MismatchedThroughout(h, n, n + 1);
      if s.mismatch.Some? {
        var m :| MismatchedThroughout(h, m, n) && h[m].now == s.mismatch.value;
        assert MismatchedThroughout(h, m, n + 1);
      }
    }
  }

  /** What the state file still allows at this time. */
  predicate FileAllows(f: StateFile, t: Thresholds, now: int) {
    && RecentAttempts(f, now - t.window) < t.maxAttempts
    && (LastAction(f).Some? ==> Elapsed(LastAction(f), now) >= t.backoff)
  }

  lemma ActsWhen(cfg: Config, s: State, now: int, o: Obs)
    requires o.Replica?
    ensures Acts(Step(s, now, o, cfg.own, cfg.t).1)
            <==> !o.syncing && o.target.Some? && FileAllows(s.file, cfg.t, now)
                 && ((Stalled(o) && Elapsed(Accrue(true, s.stall, now), now) >= cfg.t.dwell)
                     || (Mismatched(o) && Elapsed(Accrue(true, s.mismatch, now), now) >= cfg.t.wrongMasterDwell))
  {
  }

  // ----- the limits, told from the run -------------------------------------------------------

  /** The attempts written down since they were last cleared, oldest first. */
  function AttemptsWritten(cfg: Config, h: History): seq<int> {
    if h == [] then []
    else
      var rest, e := h[..|h| - 1], h[|h| - 1];
      var a := Decided(cfg, After(cfg, rest), e);
      if Acts(a) && Wrote(e, 2) then AttemptsWritten(cfg, rest) + [e.now]
      else if a.EmitRecovered? && Wrote(e, 2) then []
      else AttemptsWritten(cfg, rest)
  }

  /** The time of the last action written down, unless a recovery has cleared it. */
  function LastWritten(cfg: Config, h: History): Option<int> {
    if h == [] then None
    else
      var rest, e := h[..|h| - 1], h[|h| - 1];
      var a := Decided(cfg, After(cfg, rest), e);
      if Acts(a) && Wrote(e, 1) then Some(e.now)
      else if a.EmitRecovered? && Wrote(e, 1) then None
      else LastWritten(cfg, rest)
  }

  ghost predicate Tells(f: StateFile, attempts: seq<int>, last: Option<int>) {
    LastAction(f) == last && forall cutoff :: RecentAttempts(f, cutoff) == CountSince(attempts, cutoff)
  }

  lemma {:induction false} NoLastActionLeft(f: StateFile)
    ensures LastAction(WithoutLastAction(f)) == None
  {
    if f != [] && !f[0].LastActionAt? {
      NoLastActionLeft(f[1..]);
      LastActionOfCons(f[0], WithoutLastAction(f[1..]));
    } else if f != [] {
      NoLastActionLeft(f[1..]);
    }
  }

  lemma {:induction false} LastActionOfCons(l: Line, f: StateFile)
    requires !l.LastActionAt?
    ensures LastAction([l] + f) == LastAction(f)
  {
    if f != [] {
      assert ([l] + f)[..|[l] + f| - 1] == [l] + f[..|f| - 1];
      LastActionOfCons(l, f[..|f| - 1]);
    } else {
      assert ([l] + f)[..0] == [];
    }
  }

  lemma {:induction false} NothingLeft(f: StateFile)
    ensures WithoutAttempts(WithoutLastAction(f)) == []
  {
    if f != [] {
      NothingLeft(f[1..]);
      if !f[0].LastActionAt? {
        assert WithoutLastAction(f)[0] == f[0] && WithoutLastAction(f)[1..] == WithoutLastAction(f[1..]);
      }
    }
  }

  lemma FileAfterTells(f: StateFile, attempts: seq<int>, last: Option<int>, a: Action, now: int, writes: nat)
    requires Tells(f, attempts, last)
    ensures Tells(FileAfter(f, a, now, writes),
                  if Acts(a) && writes >= 2 then attempts + [now]
                  else if a.EmitRecovered? && writes >= 2 then [] else attempts,
                  if Acts(a) && writes >= 1 then Some(now)
                  else if a.EmitRecovered? && writes >= 1 then None else last)
  {
    RecordedFile(f, now);
    HalfRecordedFile(f, now);
    NoLastActionLeft(f);
    NothingLeft(f);
    forall cutoff
      ensures CountSince(attempts + [now], cutoff) == CountSince(attempts, cutoff) + (if now >= cutoff then 1 else 0)
      ensures RecentAttempts(WithoutLastAction(f), cutoff) == RecentAttempts(f, cutoff)
    {
      DroppingLastActionKeepsAttempts(f, cutoff);
    }
  }

  lemma NextFile(cfg: Config, s: State, e: Event)
    ensures Next(cfg, s, e).0.file == FileAfter(s.file, Decided(cfg, s, e), e.now,
                                                if e.Poll? then 2 else if e.Killed? then e.writes else 0)
  {
  }

  /** The state file holds exactly what the run wrote down. */
  lemma {:induction false} FileTellsTheRun(cfg: Config, h: History)
    ensures Tells(After(cfg, h).file, AttemptsWritten(cfg, h), LastWritten(cfg, h))
  {
    if h != [] {
      var rest, e := h[..|h| - 1], h[|h| - 1];
      FileTellsTheRun(cfg, rest);
      NextFile(cfg, After(cfg, rest), e);
      FileAfterTells(After(cfg, rest).file, AttemptsWritten(cfg, rest), LastWritten(cfg, rest),
                     Decided(cfg, After(cfg, rest), e), e.now,
                     if e.Poll? then 2 else if e.Killed? then e.writes else 0);
    }
  }

  predicate Allows(attempts: seq<int>, last: Option<int>, t: Thresholds, now: int) {
    CountSince(attempts, now - t.window) < t.maxAttempts && (last.Some? ==> Elapsed(last, now) >= t.backoff)
  }

  ghost predicate DueButForLimits(cfg: Config, h: History, n: nat)
    requires n < |h|
  {
    && h[n].Poll? && h[n].obs.Replica? && !h[n].obs.syncing && h[n].obs.target.Some?
    && (StalledForDwell(h, n, cfg.t.dwell) || MismatchedForDwell(h, n, cfg.t.wrongMasterDwell))
  }

  /** A command is sent exactly when one is due: a readable replica with no sync in flight and
    * an answer from Sentinel, stalled or mismatched for its dwell, and the attempts and the
    * last action that the run wrote down within both limits. */
  lemma CommandSentExactlyWhenDue(cfg: Config, h: History, n: nat)
    requires n < |h| && ClockNeverGoesBack(h)
    ensures Acts(ActionAt(cfg, h, n))
            <==> DueButForLimits(cfg, h, n)
                 && Allows(AttemptsWritten(cfg, h[..n]), LastWritten(cfg, h[..n]), cfg.t, h[n].now)
  {
    FileTellsTheRun(cfg, h[..n]);
    if h[n].Poll? && h[n].obs.Replica? {
      StallServed(cfg, h, n);
      MismatchServed(cfg, h, n);
      ActsWhen(cfg, After(cfg, h[..n]), h[n].now, h[n].obs);
    }
  }

  function LastOf(times: seq<int>): Option<int> {
    if times == [] then None else Some(times[|times| - 1])
  }

  /** Where no process died in the middle of an action, what was written down is what was sent. */
  lemma {:induction false} WrittenIsSent(cfg: Config, h: History)
    requires forall i | 0 <= i < |h| :: !h[i].Killed?
    ensures AttemptsWritten(cfg, h) == Sent(cfg, h) && LastWritten(cfg, h) == LastOf(Sent(cfg, h))
  {
    if h != [] {
      WrittenIsSent(cfg, h[..|h| - 1]);
    }
  }

  /** And there the whole rule speaks about commands alone: one is sent exactly when it is due
    * and the commands sent since the last recovery leave room for it. */
  lemma CommandSentExactlyWhenDueBySent(cfg: Config, h: History, n: nat)
    requires n < |h| && ClockNeverGoesBack(h) && forall i | 0 <= i < n :: !h[i].Killed?
    ensures Acts(ActionAt(cfg, h, n))
            <==> DueButForLimits(cfg, h, n)
                 && Allows(Sent(cfg, h[..n]), LastOf(Sent(cfg, h[..n])), cfg.t, h[n].now)
  {
    CommandSentExactlyWhenDue(cfg, h, n);
    WrittenIsSent(cfg, h[..n]);
  }
}
