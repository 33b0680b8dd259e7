/** The switchover handler and its settle watch as interleaved steps over the shared state:
  * the single-flight latch, the stashed priority and the node's replica-priority. */
module Switchover {
  import opened Wrappers
  import opened Text

  const PROMOTE := "1"
  const DEFAULT_PRIORITY := "100"
  const GATED := "0"

  predicate BlocksSwitchover(current: string) {
    Trim(current) == GATED
  }

  /** Where a task stands: each constructor is one await point, `Outer` and `Watch` ones are
    * past the handler's timeout. */
  datatype Pc =
    | CheckMaster
    | Connect
    | ConfigGet
    | Stash(previous: string)
    | Bias
    | WaitVisible
    | Failover
    | InnerTake                      // restore_bias inside the attempt: empty the stash
    | InnerSet(taken: string)        // and write it back
    | OuterTake                      // restore_bias in the handler's error arms
    | OuterSet(taken: string)
    | Watch                          // the election settling
    | WatchTake
    | WatchSet(taken: string)
    | Release

  /** `before` is the priority when the latch was taken. */
  datatype Task = Task(pc: Pc, before: string)

  datatype State = State(latch: bool, stash: Option<string>, priority: string, tasks: map<nat, Task>,
                         stashed: nat, taken: nat)

  datatype Reply =
    | Succeeds
    | Fails(applied: bool)           // an error, a negative answer, or a connection lost, perhaps
                                     // after the command landed
    | Garbled                        // a reply that cannot be read
    | TimesOut(applied: bool)        // the handler's timeout; the command may have landed

  datatype Event =
    | Request(t: nat)
    | Step(t: nat, reply: Reply)
    | Outside(priority: string)      // somebody else sets the priority

  predicate Abortable(pc: Pc) {
    !pc.OuterTake? && !pc.OuterSet? && !pc.Watch? && !pc.WatchTake? && !pc.WatchSet? && !pc.Release?
  }

  function At(s: State, t: nat, task: Task): State {
    s.(tasks := s.tasks[t := task])
  }

  /** restore_bias up to its command: the stash is emptied, and this attempt holds it now. */
  function TakeStash(s: State, t: nat, task: Task, held: string -> Pc, none: Pc): State {
    match s.stash
    case Some(p) => At(s.(stash := None, taken := s.taken + 1), t, task.(pc := held(p)))
    case None => At(s, t, task.(pc := none))
  }

  function WriteBack(s: State, t: nat, task: Task, p: string, reply: Reply, following: Pc): State {
    At(if reply == Fails(false) then s else s.(priority := p), t, task.(pc := following))
  }

  /** The attempt dropped at this await point, by what its pending command did. */
  function Drop(s: State, t: nat, task: Task, applied: bool): State {
    match task.pc
    case Bias => At(if applied then s.(priority := PROMOTE) else s, t, task.(pc := OuterTake))
    case InnerSet(p) => At(if applied then s.(priority := p) else s, t, task.(pc := OuterTake))
    case _ => At(s, t, task.(pc := OuterTake))
  }

  function Move(s: State, t: nat, task: Task, reply: Reply): State {
    match task.pc
    case CheckMaster => At(s, t, task.(pc := if reply.Succeeds? then Release else Connect))
    case Connect => At(s, t, task.(pc := if reply.Succeeds? then ConfigGet else OuterTake))
    case ConfigGet =>
      if reply.Fails? then At(s, t, task.(pc := OuterTake))
      else
        var previous := if reply.Garbled? then DEFAULT_PRIORITY else s.priority;
        At(s, t, task.(pc := if BlocksSwitchover(previous) then OuterTake else Stash(previous)))
    case Stash(previous) => At(s.(stash := Some(previous), stashed := s.stashed + 1), t, task.(pc := Bias))
    case Bias =>
      if reply.Fails? then At(if reply.applied then s.(priority := PROMOTE) else s, t, task.(pc := OuterTake))
      else At(s.(priority := PROMOTE), t, task.(pc := WaitVisible))
    case WaitVisible => At(s, t, task.(pc := if reply.Succeeds? then Failover else InnerTake))
    case Failover => At(s, t, task.(pc := if reply.Succeeds? then Watch else InnerTake))
    case InnerTake => TakeStash(s, t, task, p => InnerSet(p), OuterTake)
    case InnerSet(p) => WriteBack(s, t, task, p, reply, OuterTake)
    case OuterTake => TakeStash(s, t, task, p => OuterSet(p), Release)
    case OuterSet(p) => WriteBack(s, t, task, p, reply, Release)
    case Watch => At(s, t, task.(pc := WatchTake))
    case WatchTake => TakeStash(s, t, task, p => WatchSet(p), Release)
    case WatchSet(p) => WriteBack(s, t, task, p, reply, Release)
    case Release => s.(latch := false, tasks := s.tasks - {t})
  }

  function Next(s: State, e: Event): State {
    match e
    case Request(t) =>
      if s.latch || t in s.tasks then s else At(s.(latch := true), t, Task(CheckMaster, s.priority))
    case Step(t, reply) =>
      if t !in s.tasks then s
      else if reply.TimesOut? then (if Abortable(s.tasks[t].pc) then Drop(s, t, s.tasks[t], reply.applied) else s)
      else Move(s, t, s.tasks[t], reply)
    case Outside(priority) => s.(priority := priority)
  }

  function Fresh(priority: string): State {
    State(false, None, priority, map[], 0, 0)
  }

  function Run(priority: string, events: seq<Event>): State {
    if events == [] then Fresh(priority)
    else Next(Run(priority, events[..|events| - 1]), events[|events| - 1])
  }

  // ----- one attempt at a time, nothing left in the stash --------------------------------------

  /** Between the stash and the take the slot is full; at every other point but the outer
    * take, which may find either, it is empty. */
  predicate StashMatches(pc: Pc, stash: Option<string>) {
    match pc
    case Bias => stash.Some?
    case WaitVisible => stash.Some?
    case Failover => stash.Some?
    case InnerTake => stash.Some?
    case Watch => stash.Some?
    case WatchTake => stash.Some?
    case OuterTake => true
    case _ => stash.None?
  }

  ghost predicate SingleFlight(s: State) {
    && (forall t, u | t in s.tasks && u in s.tasks :: t == u)
    && (s.latch <==> exists t :: t in s.tasks)
    && (!s.latch ==> s.stash.None?)
    && (forall t | t in s.tasks :: StashMatches(s.tasks[t].pc, s.stash))
    && s.stashed == s.taken + (if s.stash.Some? then 1 else 0)
  }

  /** Replacing the only task keeps it the only one. */
  lemma OnlyTaskMoves(s: State, next: State, t: nat)
    requires SingleFlight(s) && t in s.tasks && next.latch
    requires t in next.tasks && next.tasks == s.tasks[t := next.tasks[t]]
    requires StashMatches(next.tasks[t].pc, next.stash)
    requires next.stashed == next.taken + (if next.stash.Some? then 1 else 0)
    ensures SingleFlight(next)
  {
    assert forall u | u in next.tasks :: u == t;
  }

  lemma StepKeepsSingleFlight(s: State, t: nat, reply: Reply)
    requires SingleFlight(s) && t in s.tasks
    ensures SingleFlight(Next(s, Step(t, reply)))
  {
    var next := Next(s, Step(t, reply));
    if reply.TimesOut? && !Abortable(s.tasks[t].pc) {
      assert next == s;
    } else if !reply.TimesOut? && s.tasks[t].pc.Release? {
      assert next.tasks == map[] by {
        assert forall u | u in s.tasks :: u == t;
      }
    } else {
      OnlyTaskMoves(s, next, t);
    }
  }

  lemma EventKeepsSingleFlight(s: State, e: Event)
    requires SingleFlight(s)
    ensures SingleFlight(Next(s, e))
  {
    match e
    case Request(t) =>
      if !s.latch && t !in s.tasks {
        assert t in Next(s, e).tasks;
      }
    case Step(t, reply) =>
      if t in s.tasks {
        StepKeepsSingleFlight(s, t, reply);
      }
    case Outside(_) =>
  }

  /** In every interleaving: at most one attempt is active, the latch is held exactly while one
    * is, a free latch means an empty stash, and every stashed priority but the one still in
    * the stash was taken exactly once. */
  lemma {:induction false} OneAttemptAtATime(priority: string, events: seq<Event>)
    ensures SingleFlight(Run(priority, events))
  {
    if events != [] {
      OneAttemptAtATime(priority, events[..|events| - 1]);
      EventKeepsSingleFlight(Run(priority, events[..|events| - 1]), events[|events| - 1]);
    }
  }

  // ----- the priority afterwards --------------------------------------------------------------

  /** Nobody else sets the priority. */
  predicate NothingOutside(events: seq<Event>) {
    forall i | 0 <= i < |events| :: !events[i].Outside?
  }

  predicate Steps(s: State, e: Event, t: nat) {
    e.Step? && e.t == t && t in s.tasks
  }

  /** An unreadable reply to attempt `t`, which asked for the priority. */
  predicate ReadsGarbled(s: State, e: Event, t: nat) {
    Steps(s, e, t) && s.tasks[t].pc.ConfigGet? && e.reply.Garbled?
  }

  predicate Stashes(s: State, e: Event, t: nat) {
    Steps(s, e, t) && s.tasks[t].pc.Stash? && !e.reply.TimesOut?
  }

  /** The command pending at this point has no effect. */
  predicate HasNoEffect(reply: Reply) {
    reply == Fails(false) || reply == TimesOut(false)
  }

  /** The bias command of attempt `t` takes effect. */
  predicate LandsBias(s: State, e: Event, t: nat) {
    Steps(s, e, t) && s.tasks[t].pc.Bias? && !HasNoEffect(e.reply)
  }

  /** Attempt `t` holds the old priority, and the command that writes it back has no effect:
    * refused, lost with its connection, or dropped by the timeout before it landed. */
  predicate DropsWriteBack(s: State, e: Event, t: nat) {
    || (Steps(s, e, t) && s.tasks[t].pc.InnerSet? && HasNoEffect(e.reply))
    || (Steps(s, e, t) && (s.tasks[t].pc.OuterSet? || s.tasks[t].pc.WatchSet?) && e.reply == Fails(false))
  }

  predicate Begins(s: State, e: Event, t: nat) {
    e == Request(t) && !s.latch && t !in s.tasks
  }

  /** `what` happened to attempt `t` since it took the latch. */
  predicate Happened(priority: string, events: seq<Event>, t: nat, what: (State, Event, nat) -> bool) {
    events != []
    && var rest, e := events[..|events| - 1], events[|events| - 1];
       !Begins(Run(priority, rest), e, t) && (Happened(priority, rest, t, what) || what(Run(priority, rest), e, t))
  }

  /** What an attempt has been through since it took the latch. */
  datatype Past = Past(garbled: bool, stashed: bool, landed: bool, dropped: bool) {
    /** The priority it took for the one to restore. */
    function Held(before: string): string {
      if garbled then DEFAULT_PRIORITY else before
    }

    /** The priority while nothing has been written back. */
    function Unrestored(before: string): string {
      if landed then PROMOTE else before
    }
  }

  function PastOf(priority: string, events: seq<Event>, t: nat): Past {
    Past(Happened(priority, events, t, ReadsGarbled), Happened(priority, events, t, Stashes),
         Happened(priority, events, t, LandsBias), Happened(priority, events, t, DropsWriteBack))
  }

  function PastNext(past: Past, s: State, e: Event, t: nat): Past {
    Past(past.garbled || ReadsGarbled(s, e, t), past.stashed || Stashes(s, e, t),
         past.landed || LandsBias(s, e, t), past.dropped || DropsWriteBack(s, e, t))
  }

  function Settled(before: string, past: Past): string {
    if past.stashed && !past.dropped then past.Held(before) else past.Unrestored(before)
  }

  /** Nothing done yet. */
  predicate Untouched(past: Past, before: string, priority: string) {
    past == Past(false, false, false, false) && priority == before
  }

  /** The bias may have landed, and `held` is still to be written back. */
  predicate Owing(past: Past, before: string, priority: string) {
    past.stashed && !past.dropped && priority == past.Unrestored(before)
  }

  predicate Over(past: Past, before: string, priority: string) {
    (past.landed || past.dropped ==> past.stashed) && priority == Settled(before, past)
  }

  /** What the priority and the stash hold at each point of an attempt, by what it has been
    * through. */
  predicate Tracks(task: Task, past: Past, stash: Option<string>, priority: string) {
    var before, held := task.before, past.Held(task.before);
    match task.pc
    case CheckMaster => Untouched(past, before, priority)
    case Connect => Untouched(past, before, priority)
    case ConfigGet => Untouched(past, before, priority)
    case Stash(previous) => !past.stashed && Over(past, before, priority) && previous == held
    case Bias => Owing(past, before, priority) && !past.landed && stash == Some(held)
    case WaitVisible => Owing(past, before, priority) && past.landed && stash == Some(held)
    case Failover => Owing(past, before, priority) && past.landed && stash == Some(held)
    case InnerTake => Owing(past, before, priority) && past.landed && stash == Some(held)
    case Watch => Owing(past, before, priority) && past.landed && stash == Some(held)
    case WatchTake => Owing(past, before, priority) && past.landed && stash == Some(held)
    case InnerSet(p) => Owing(past, before, priority) && past.landed && p == held
    case WatchSet(p) => Owing(past, before, priority) && past.landed && p == held
    case OuterSet(p) => Owing(past, before, priority) && p == held
    case OuterTake =>
      if stash.Some? then Owing(past, before, priority) && stash == Some(held) else Over(past, before, priority)
    case Release => Over(past, before, priority)
  }

  ghost predicate StepTracked(s: State, t: nat, reply: Reply, past: Past) {
    var e := Step(t, reply);
    var next := Next(s, e);
    t in next.tasks ==> Tracks(next.tasks[t], PastNext(past, s, e, t), next.stash, next.priority)
  }

  lemma DropTracks(s: State, t: nat, applied: bool, past: Past)
    requires t in s.tasks && StashMatches(s.tasks[t].pc, s.stash) && Abortable(s.tasks[t].pc)
    requires Tracks(s.tasks[t], past, s.stash, s.priority)
    ensures StepTracked(s, t, TimesOut(applied), past)
  {
  }

  lemma BeforeBiasTracks(s: State, t: nat, reply: Reply, past: Past)
    requires t in s.tasks && StashMatches(s.tasks[t].pc, s.stash) && !reply.TimesOut?
    requires var pc := s.tasks[t].pc; pc.CheckMaster? || pc.Connect? || pc.ConfigGet? || pc.Stash? || pc.Bias?
    requires Tracks(s.tasks[t], past, s.stash, s.priority)
    ensures StepTracked(s, t, reply, past)
  {
    var pc, e := s.tasks[t].pc, Step(t, reply);
    assert PastNext(past, s, e, t) == if pc.ConfigGet? then past.(garbled := reply.Garbled?)
                                      else if pc.Stash? then past.(stashed := true)
                                      else if pc.Bias? then past.(landed := reply != Fails(false)) else past;
    TrimIsIdentity(DEFAULT_PRIORITY);
    assert !BlocksSwitchover(DEFAULT_PRIORITY);
  }

  lemma TakeTracks(s: State, t: nat, reply: Reply, past: Past)
    requires t in s.tasks && StashMatches(s.tasks[t].pc, s.stash) && !reply.TimesOut?
    requires var pc := s.tasks[t].pc; pc.InnerTake? || pc.OuterTake? || pc.WatchTake?
    requires Tracks(s.tasks[t], past, s.stash, s.priority)
    ensures StepTracked(s, t, reply, past)
  {
    var next := Next(s, Step(t, reply));
    assert PastNext(past, s, Step(t, reply), t) == past;
    assert next.priority == s.priority && next.stash.None?;
    if s.stash.Some? {
      var p := s.stash.value;
      assert next.tasks[t].pc in {InnerSet(p), OuterSet(p), WatchSet(p)};
    }
  }

  lemma WriteBackTracks(s: State, t: nat, reply: Reply, past: Past)
    requires t in s.tasks && StashMatches(s.tasks[t].pc, s.stash) && !reply.TimesOut?
    requires var pc := s.tasks[t].pc; pc.InnerSet? || pc.OuterSet? || pc.WatchSet?
    requires Tracks(s.tasks[t], past, s.stash, s.priority)
    ensures StepTracked(s, t, reply, past)
  {
    assert PastNext(past, s, Step(t, reply), t) == past.(dropped := reply == Fails(false));
  }

  lemma StepTracks(s: State, t: nat, reply: Reply, past: Past)
    requires t in s.tasks && StashMatches(s.tasks[t].pc, s.stash)
    requires Tracks(s.tasks[t], past, s.stash, s.priority)
    ensures StepTracked(s, t, reply, past)
  {
    var pc := s.tasks[t].pc;
    if reply.TimesOut? {
      if Abortable(pc) {
        DropTracks(s, t, reply.applied, past);
      }
    } else if pc.InnerTake? || pc.OuterTake? || pc.WatchTake? {
      TakeTracks(s, t, reply, past);
    } else if pc.InnerSet? || pc.OuterSet? || pc.WatchSet? {
      WriteBackTracks(s, t, reply, past);
    } else if pc.CheckMaster? || pc.Connect? || pc.ConfigGet? || pc.Stash? || pc.Bias? {
      BeforeBiasTracks(s, t, reply, past);
    }
  }

  ghost predicate TracksRun(priority: string, events: seq<Event>, t: nat) {
    var s := Run(priority, events);
    t in s.tasks ==> Tracks(s.tasks[t], PastOf(priority, events, t), s.stash, s.priority)
  }

  lemma PastSnoc(priority: string, events: seq<Event>, t: nat)
    requires events != []
    requires var rest, e := events[..|events| - 1], events[|events| - 1]; !Begins(Run(priority, rest), e, t)
    ensures var rest, e := events[..|events| - 1], events[|events| - 1];
            PastOf(priority, events, t) == PastNext(PastOf(priority, rest, t), Run(priority, rest), e, t)
  {
  }

  lemma NewPast(priority: string, events: seq<Event>, t: nat)
    requires events != []
    requires var rest, e := events[..|events| - 1], events[|events| - 1]; Begins(Run(priority, rest), e, t)
    ensures PastOf(priority, events, t) == Past(false, false, false, false)
  {
  }

  lemma {:induction false} RunTracks(priority: string, events: seq<Event>, t: nat)
    requires NothingOutside(events)
    ensures TracksRun(priority, events, t)
  {
    if events != [] {
      var rest, e := events[..|events| - 1], events[|events| - 1];
      var s := Run(priority, rest);
      assert !e.Outside?;
      RunTracks(priority, rest, t);
      OneAttemptAtATime(priority, rest);
      if Begins(s, e, t) {
        NewPast(priority, events, t);
      } else if t in s.tasks {
        PastSnoc(priority, events, t);
        assert forall u | u in s.tasks :: u == t;
        if e.Step? && e.t == t {
          StepTracks(s, t, e.reply, PastOf(priority, rest, t));
        }
      }
    }
  }

  /** Where an attempt is about to free the latch, the stash is empty, and the priority is the
    * one before it exactly when nothing was stashed, or the write-back landed with what a
    * readable reply had shown, or neither the write-back nor the bias landed; or it changed
    * nothing. Otherwise the bias stays after a lost write-back, and an unreadable reply leaves
    * the default priority. */
  lemma PriorityAfterwards(priority: string, events: seq<Event>, t: nat)
    requires NothingOutside(events)
    requires t in Run(priority, events).tasks && Run(priority, events).tasks[t].pc.Release?
    ensures var s, past := Run(priority, events), PastOf(priority, events, t);
            var before := s.tasks[t].before;
            && s.stash.None?
            && (s.priority == before <==> || !past.stashed
                                          || (!past.dropped && (!past.garbled || before == DEFAULT_PRIORITY))
                                          || (past.dropped && (!past.landed || before == PROMOTE)))
            && (s.priority != before ==> s.priority == if past.dropped then PROMOTE else DEFAULT_PRIORITY)
  {
    RunTracks(priority, events, t);
    OneAttemptAtATime(priority, events);
    assert StashMatches(Release, Run(priority, events).stash);
  }

  // ----- when no write-back is refused ------------------------------------------------------------

  /** The timeout drops the attempt between its own take and its CONFIG SET. */
  predicate TimesOutInWriteBack(s: State, e: Event, t: nat) {
    Steps(s, e, t) && s.tasks[t].pc.InnerSet? && e.reply == TimesOut(false)
  }

  /** A write-back is refused by Redis, or lost with its connection. */
  predicate RefusesWriteBack(s: State, e: Event, t: nat) {
    && Steps(s, e, t) && e.reply == Fails(false)
    && (s.tasks[t].pc.InnerSet? || s.tasks[t].pc.OuterSet? || s.tasks[t].pc.WatchSet?)
  }

  lemma {:induction false} DroppedByEither(priority: string, events: seq<Event>, t: nat)
    requires NothingOutside(events)
    ensures Happened(priority, events, t, DropsWriteBack)
            <==> Happened(priority, events, t, TimesOutInWriteBack) || Happened(priority, events, t, RefusesWriteBack)
    ensures Happened(priority, events, t, TimesOutInWriteBack)
            ==> Happened(priority, events, t, LandsBias) && Happened(priority, events, t, Stashes)
  {
    if events != [] {
      var rest := events[..|events| - 1];
      DroppedByEither(priority, rest, t);
      RunTracks(priority, rest, t);
    }
  }

  /** With the priority readable and every write-back accepted, the priority comes back unless
    * the handler's timeout caught the attempt at its own write-back, and on no other path. */
  lemma OnlyTheTimeoutLosesThePriority(priority: string, events: seq<Event>, t: nat)
    requires NothingOutside(events)
    requires !Happened(priority, events, t, ReadsGarbled) && !Happened(priority, events, t, RefusesWriteBack)
    requires t in Run(priority, events).tasks && Run(priority, events).tasks[t].pc.Release?
    ensures var s := Run(priority, events);
            s.priority == s.tasks[t].before
            <==> !Happened(priority, events, t, TimesOutInWriteBack) || s.tasks[t].before == PROMOTE
  {
    PriorityAfterwards(priority, events, t);
    DroppedByEither(priority, events, t);
  }

  /** An unreadable reply to some attempt that asked for the priority. */
  predicate GarbledRead(s: State, e: Event) {
    e.Step? && ReadsGarbled(s, e, e.t)
  }

  predicate ReadableRun(priority: string, events: seq<Event>) {
    events != [] ==>
      && ReadableRun(priority, events[..|events| - 1])
      && !GarbledRead(Run(priority, events[..|events| - 1]), events[|events| - 1])
  }

  // ----- the run that loses the priority -------------------------------------------------------------

  lemma RunSnoc(priority: string, events: seq<Event>, e: Event)
    ensures Run(priority, events + [e]) == Next(Run(priority, events), e)
    ensures ReadableRun(priority, events + [e])
            <==> ReadableRun(priority, events) && !GarbledRead(Run(priority, events), e)
    ensures NothingOutside(events) && !e.Outside? ==> NothingOutside(events + [e])
  {
    assert (events + [e])[..|events|] == events;
  }

  /** Up to the bias, by one attempt on a node whose priority may be promoted. */
  lemma Biased(priority: string) returns (events: seq<Event>)
    requires !BlocksSwitchover(priority)
    ensures NothingOutside(events) && ReadableRun(priority, events)
    ensures Run(priority, events)
            == State(true, Some(priority), PROMOTE, map[0 := Task(WaitVisible, priority)], 1, 0)
  {
    events := [Request(0)];
    assert events[..0] == [] && Run(priority, events) == Next(Fresh(priority), Request(0));
    RunSnoc(priority, events, Step(0, Fails(false)));
    events := events + [Step(0, Fails(false))];
    RunSnoc(priority, events, Step(0, Succeeds));
    events := events + [Step(0, Succeeds)];
    RunSnoc(priority, events, Step(0, Succeeds));
    events := events + [Step(0, Succeeds)];
    assert Run(priority, events) == State(true, None, priority, map[0 := Task(Stash(priority), priority)], 0, 0);
    RunSnoc(priority, events, Step(0, Succeeds));
    events := events + [Step(0, Succeeds)];
    RunSnoc(priority, events, Step(0, Succeeds));
    events := events + [Step(0, Succeeds)];
  }

  /** The claim that the priority always comes back is false: Sentinel never shows the bias,
    * the attempt empties the stash to restore it, and the handler's timeout drops it before
    * the command lands. The handler's own restore finds nothing to restore. */
  lemma TimeoutInsideTheRestoreKeepsTheBias(priority: string) returns (events: seq<Event>)
    requires !BlocksSwitchover(priority)
    ensures NothingOutside(events) && ReadableRun(priority, events)
    ensures Run(priority, events) == State(false, None, PROMOTE, map[], 1, 1)
  {
    events := Biased(priority);
    RunSnoc(priority, events, Step(0, Fails(false)));
    events := events + [Step(0, Fails(false))];
    assert Run(priority, events) == State(true, Some(priority), PROMOTE, map[0 := Task(InnerTake, priority)], 1, 0);
    RunSnoc(priority, events, Step(0, Succeeds));
    events := events + [Step(0, Succeeds)];
    assert Run(priority, events) == State(true, None, PROMOTE, map[0 := Task(InnerSet(priority), priority)], 1, 1);
    RunSnoc(priority, events, Step(0, TimesOut(false)));
    events := events + [Step(0, TimesOut(false))];
    assert Run(priority, events) == State(true, None, PROMOTE, map[0 := Task(OuterTake, priority)], 1, 1);
    RunSnoc(priority, events, Step(0, Succeeds));
    events := events + [Step(0, Succeeds)];
    assert Run(priority, events) == State(true, None, PROMOTE, map[0 := Task(Release, priority)], 1, 1);
    RunSnoc(priority, events, Step(0, Succeeds));
    events := events + [Step(0, Succeeds)];
    assert Run(priority, events).tasks == map[];
  }

  // ----- the sync gate --------------------------------------------------------------------------------

  /** An attempt on a gated node never gets past reading the priority. */
  predicate Turned(pc: Pc) {
    pc.CheckMaster? || pc.Connect? || pc.ConfigGet? || pc.OuterTake? || pc.Release?
  }

  ghost predicate Gated(s: State, priority: string) {
    s.priority == priority && s.stash.None? && forall t | t in s.tasks :: Turned(s.tasks[t].pc)
  }

  ghost predicate GatedThroughout(priority: string, events: seq<Event>) {
    Gated(Run(priority, events), priority) && (events != [] ==> GatedThroughout(priority, events[..|events| - 1]))
  }

  lemma GatedStep(s: State, e: Event, priority: string)
    requires Gated(s, priority) && BlocksSwitchover(priority) && !e.Outside?
    ensures Gated(Next(s, e), priority) <==> !GarbledRead(s, e)
  {
    TrimIsIdentity(DEFAULT_PRIORITY);
    if GarbledRead(s, e) {
      assert Next(s, e).tasks[e.t].pc == Stash(DEFAULT_PRIORITY);
    }
  }

  /** A node still waiting for its first sync stays gated at every moment of a run, its
    * priority untouched and nothing stashed, exactly when no attempt's read of the priority
    * comes back unreadable; requests, refusals and timeouts at any point do no harm. */
  lemma {:induction false} GatedNodeIsNeverBiasedIff(priority: string, events: seq<Event>)
    requires BlocksSwitchover(priority) && NothingOutside(events)
    ensures GatedThroughout(priority, events) <==> ReadableRun(priority, events)
  {
    if events != [] {
      var rest, e := events[..|events| - 1], events[|events| - 1];
      GatedNodeIsNeverBiasedIff(priority, rest);
      assert e == events[|events| - 1];
      if GatedThroughout(priority, rest) {
        GatedNow(priority, rest);
        GatedStep(Run(priority, rest), e, priority);
      }
    }
  }

  lemma GatedNow(priority: string, events: seq<Event>)
    requires GatedThroughout(priority, events)
    ensures Gated(Run(priority, events), priority)
  {
  }

  /** Such a reply is taken for the default priority, and the attempt goes on to bias the
    * gated node to win. */
  lemma GarbledReplyPassesTheGate(priority: string) returns (events: seq<Event>)
    requires BlocksSwitchover(priority)
    ensures NothingOutside(events)
    ensures Run(priority, events).priority == PROMOTE && BlocksSwitchover(priority)
  {
    events := [Request(0)];
    assert events[..0] == [] && Run(priority, events) == Next(Fresh(priority), Request(0));
    RunSnoc(priority, events, Step(0, Fails(false)));
    events := events + [Step(0, Fails(false))];
    RunSnoc(priority, events, Step(0, Succeeds));
    events := events + [Step(0, Succeeds)];
    TrimIsIdentity(DEFAULT_PRIORITY);
    assert !BlocksSwitchover(DEFAULT_PRIORITY);
    RunSnoc(priority, events, Step(0, Garbled));
    events := events + [Step(0, Garbled)];
    RunSnoc(priority, events, Step(0, Succeeds));
    events := events + [Step(0, Succeeds)];
    RunSnoc(priority, events, Step(0, Succeeds));
    events := events + [Step(0, Succeeds)];
  }
}
