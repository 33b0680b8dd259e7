/** The link-heal watcher: when it reissues REPLICAOF on a replica whose link is durably
  * broken or durably attached to the wrong master, and the limiter it keeps on disk. */
module LinkHeal {
  import opened Wrappers
  import opened Text

  datatype Thresholds = Thresholds(dwell: nat, wrongMasterDwell: nat, backoff: nat,
                                   maxAttempts: nat, window: nat)

  /** What one poll could read. `target` is Sentinel's answer for the master. */
  datatype Obs =
    | NoConnection
    | NotReplica
    | Replica(linkDown: bool, syncing: bool, masterAddr: Option<Address>, target: Option<Address>)

  datatype Reason = StalledLink | WrongMaster

  datatype Action =
    | NoOp
    | Wait
    | Reheal(host: string, port: int, reason: Reason)
    | PromoteSelf(reason: Reason)
    | EmitRecovered
    | EmitGaveUp

  // ----- the state file -------------------------------------------------------------

  datatype Line = LastActionAt(t: int) | Attempt(t: int)

  type StateFile = seq<Line>

  /** The last `last_action_at` line. */
  function LastAction(f: StateFile): Option<int> {
    if f == [] then None
    else if f[|f| - 1].LastActionAt? then Some(f[|f| - 1].t)
    else LastAction(f[..|f| - 1])
  }

  function WithoutLastAction(f: StateFile): StateFile {
    if f == [] then []
    else if f[0].LastActionAt? then WithoutLastAction(f[1..])
    else [f[0]] + WithoutLastAction(f[1..])
  }

  function WithoutAttempts(f: StateFile): StateFile {
    if f == [] then []
    else if f[0].Attempt? then WithoutAttempts(f[1..])
    else [f[0]] + WithoutAttempts(f[1..])
  }

  function RecordAction(f: StateFile, now: int): StateFile {
    WithoutLastAction(f) + [LastActionAt(now)] + [Attempt(now)]
  }

  function ClearActions(f: StateFile): StateFile {
    WithoutAttempts(WithoutLastAction(f))
  }

  /** Attempts at or after `cutoff`. */
  function RecentAttempts(f: StateFile, cutoff: int): nat {
    if f == [] then 0
    else RecentAttempts(f[..|f| - 1], cutoff)
         + (if f[|f| - 1].Attempt? && f[|f| - 1].t >= cutoff then 1 else 0)
  }

  // ----- one poll ---------------------------------------------------------------------

  datatype State = State(stall: Option<int>, mismatch: Option<int>, pendingRecovery: Option<int>,
                         gaveUp: bool, file: StateFile)

  /** A process that starts over the file an earlier one left. */
  function Restarted(f: StateFile): State {
    State(None, None, LastAction(f), false, f)
  }

  predicate AttachedToWrongMaster(masterAddr: Option<Address>, target: Option<Address>) {
    && masterAddr.Some? && target.Some?
    && (NormalizeHost(masterAddr.value.0) != NormalizeHost(target.value.0)
        || masterAddr.value.1 != target.value.1)
  }

  predicate Stalled(o: Obs) {
    o.Replica? && o.linkDown && !o.syncing
  }

  predicate Mismatched(o: Obs) {
    o.Replica? && AttachedToWrongMaster(o.masterAddr, o.target)
  }

  function Accrue(observed: bool, window: Option<int>, now: int): Option<int> {
    if !observed then None else if window.Some? then window else Some(now)
  }

  function Elapsed(since: Option<int>, now: int): nat {
    if since.Some? && now > since.value then now - since.value else 0
  }

  function Decide(o: Obs, now: int, s: State, own: string, t: Thresholds): Action
    requires o.Replica?
  {
    var attempts := RecentAttempts(s.file, now - t.window);
    var last := LastAction(s.file);
    var stalledFired := o.linkDown && Elapsed(s.stall, now) >= t.dwell;
    var wrongFired := Mismatched(o) && Elapsed(s.mismatch, now) >= t.wrongMasterDwell;
    if s.pendingRecovery.Some? && !o.linkDown && !Mismatched(o) then EmitRecovered
    else if attempts >= t.maxAttempts then EmitGaveUp
    else if last.Some? && Elapsed(last, now) < t.backoff then Wait
    else if o.syncing then NoOp
    else if !stalledFired && !wrongFired then (if o.linkDown || Mismatched(o) then Wait else NoOp)
    else if o.target.None? then Wait
    else
      var reason := if stalledFired then StalledLink else WrongMaster;
      if NormalizeHost(o.target.value.0) == NormalizeHost(own) then PromoteSelf(reason)
      else Reheal(o.target.value.0, o.target.value.1, reason)
  }

  predicate Acts(a: Action) {
    a.Reheal? || a.PromoteSelf?
  }

  function Step(s: State, now: int, o: Obs, own: string, t: Thresholds): (State, Action) {
    match o
    case NoConnection => (s, NoOp)
    case NotReplica => (s.(stall := None, mismatch := None), NoOp)
    case Replica(_, _, _, _) =>
      var s1 := s.(stall := Accrue(Stalled(o), s.stall, now),
                   mismatch := Accrue(Mismatched(o), s.mismatch, now),
                   gaveUp := s.gaveUp && RecentAttempts(s.file, now - t.window) >= t.maxAttempts);
      var a := Decide(o, now, s1, own, t);
      (if Acts(a) then s1.(file := RecordAction(s.file, now), pendingRecovery := Some(now))
       else if a.EmitRecovered? then s1.(file := ClearActions(s.file), pendingRecovery := None)
       else if a.EmitGaveUp? then s1.(gaveUp := true)
       else s1, a)
  }

  // ----- the watcher --------------------------------------------------------------------

  class Watcher {
    var stall: Option<int>
    var mismatch: Option<int>
    var pendingRecovery: Option<int>
    var gaveUp: bool
    var file: StateFile

    function Abs(): State
      reads this
    {
      State(stall, mismatch, pendingRecovery, gaveUp, file)
    }

    constructor (f: StateFile)
      ensures Abs() == Restarted(f)
    {
      stall, mismatch, gaveUp := None, None, false;
      pendingRecovery := LastAction(f);
      file := f;
    }

    /** One poll: windows first, then the decision, then the record, then the command. */
    method Iteration(now: int, o: Obs, own: string, t: Thresholds) returns (a: Action)
      modifies this
      ensures (Abs(), a) == Step(old(Abs()), now, o, own, t)
    {
      if o.NoConnection? {
        return NoOp;
      }
      if o.NotReplica? {
        stall, mismatch := None, None;
        return NoOp;
      }
      stall := Accrue(Stalled(o), stall, now);
      mismatch := Accrue(Mismatched(o), mismatch, now);
      if RecentAttempts(file, now - t.window) < t.maxAttempts {
        gaveUp := false;
      }
      a := Decide(o, now, Abs(), own, t);
      match a
      case NoOp =>
      case Wait =>
      case Reheal(_, _, _) =>
        file := WithoutLastAction(file) + [LastActionAt(now)];
        file := file + [Attempt(now)];
        pendingRecovery := Some(now);
      case PromoteSelf(_) =>
        file := WithoutLastAction(file) + [LastActionAt(now)];
        file := file + [Attempt(now)];
        pendingRecovery := Some(now);
      case EmitRecovered =>
        pendingRecovery := None;
        file := WithoutLastAction(file);
        file := WithoutAttempts(file);
      case EmitGaveUp =>
        if !gaveUp {
          gaveUp := true;
        }
    }
  }
}
