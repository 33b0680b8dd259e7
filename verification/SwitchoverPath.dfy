/** How far a switchover attempt gets, told from the replies to its own steps: it sends SENTINEL
  * FAILOVER and hands over to the settle watch exactly when nothing stood in its way. */
module SwitchoverPath {
  import opened Wrappers
  import opened Switchover

  /** The replies attempt `t` has had since it took the latch, oldest first. */
  function Replies(priority: string, events: seq<Event>, t: nat): seq<Reply> {
    if events == [] then []
    else
      var rest, e := events[..|events| - 1], events[|events| - 1];
      if Begins(Run(priority, rest), e, t) then []
      else if Steps(Run(priority, rest), e, t) then Replies(priority, rest, t) + [e.reply]
      else Replies(priority, rest, t)
  }

  /** What lets an attempt go on after its `k`-th step: this node is not the master, the server
    * is there, its priority comes back, the stash is taken in time, the bias is accepted, Sentinel
    * shows it, and Sentinel accepts the failover. */
  predicate GoesOn(k: nat, reply: Reply) {
    if k == 0 then reply.Fails? || reply.Garbled?
    else if k == 2 || k == 4 then reply.Succeeds? || reply.Garbled?
    else if k == 3 then !reply.TimesOut?
    else reply.Succeeds?
  }

  /** Every reply so far let it go on. */
  predicate Unhindered(replies: seq<Reply>) {
    forall k | 0 <= k < |replies| :: GoesOn(k, replies[k])
  }

  /** The priority it takes for the one to restore, once the third reply is in. */
  function HeldAfter(replies: seq<Reply>, before: string): string {
    if |replies| >= 3 && replies[2].Garbled? then DEFAULT_PRIORITY else before
  }

  predicate MayPromote(replies: seq<Reply>, before: string) {
    |replies| >= 3 ==> !BlocksSwitchover(HeldAfter(replies, before))
  }

  /** Where an attempt stands that `k` replies have let go on. */
  function Station(k: nat, held: string): Pc
    requires k <= 7
  {
    if k == 0 then CheckMaster
    else if k == 1 then Connect
    else if k == 2 then ConfigGet
    else if k == 3 then Stash(held)
    else if k == 4 then Bias
    else if k == 5 then WaitVisible
    else if k == 6 then Failover
    else Watch
  }

  /** Giving the priority back, or done. */
  predicate GivingUp(pc: Pc) {
    pc.InnerTake? || pc.InnerSet? || pc.OuterTake? || pc.OuterSet? || pc.Release?
  }

  predicate Settling(pc: Pc) {
    pc.Watch? || pc.WatchTake? || pc.WatchSet?
  }

  predicate Placed(task: Task, replies: seq<Reply>) {
    var k := |replies|;
    if Unhindered(replies[..if k < 7 then k else 7]) && MayPromote(replies, task.before) then
      if k <= 7 then task.pc == Station(k, HeldAfter(replies, task.before))
      else Settling(task.pc) || GivingUp(task.pc)
    else GivingUp(task.pc)
  }

  /** One step moves an attempt to the next station, or makes it give up. */
  lemma StationMoves(s: State, t: nat, k: nat, reply: Reply)
    requires t in s.tasks && k < 7
    requires var task := s.tasks[t];
             if k == 3 then task.pc.Stash? else task.pc == Station(k, task.before)
    requires k == 2 ==> s.priority == s.tasks[t].before
    ensures var task, next := s.tasks[t], Next(s, Step(t, reply));
            var held := if k == 2 && reply.Garbled? then DEFAULT_PRIORITY else task.before;
            && t in next.tasks && next.tasks[t].before == task.before
            && if GoesOn(k, reply) && (k == 2 ==> !BlocksSwitchover(held)) then
                 next.tasks[t].pc == Station(k + 1, held)
               else GivingUp(next.tasks[t].pc)
  {
  }

  lemma GivingUpStays(s: State, t: nat, reply: Reply)
    requires t in s.tasks && GivingUp(s.tasks[t].pc)
    ensures var next := Next(s, Step(t, reply));
            t in next.tasks ==> GivingUp(next.tasks[t].pc) && next.tasks[t].before == s.tasks[t].before
  {
  }

  lemma SettlingStays(s: State, t: nat, reply: Reply)
    requires t in s.tasks && Settling(s.tasks[t].pc)
    ensures var next := Next(s, Step(t, reply));
            && (t in next.tasks ==> next.tasks[t].before == s.tasks[t].before)
            && (t in next.tasks ==> Settling(next.tasks[t].pc) || GivingUp(next.tasks[t].pc))
  {
  }

  lemma StepPlaces(s: State, t: nat, reply: Reply, replies: seq<Reply>)
    requires t in s.tasks && Placed(s.tasks[t], replies)
    requires s.tasks[t].pc.ConfigGet? ==> s.priority == s.tasks[t].before
    ensures var next := Next(s, Step(t, reply)); t in next.tasks ==> Placed(next.tasks[t], replies + [reply])
  {
    var k, task, all := |replies|, s.tasks[t], replies + [reply];
    if k < 7 {
      assert replies[..k] == replies && all[..k + 1] == all;
      if Unhindered(replies) && MayPromote(replies, task.before) {
        StationMoves(s, t, k, reply);
        assert Unhindered(all) <==> GoesOn(k, reply) by {
          assert all[k] == reply && forall i | 0 <= i < k :: all[i] == replies[i];
        }
      } else {
        GivingUpStays(s, t, reply);
        if Unhindered(all) {
          assert forall i | 0 <= i < k :: all[i] == replies[i];
        }
      }
    } else {
      assert all[..7] == replies[..7];
      if GivingUp(task.pc) {
        GivingUpStays(s, t, reply);
      } else {
        SettlingStays(s, t, reply);
      }
    }
  }

  lemma {:induction false} RunPlaces(priority: string, events: seq<Event>, t: nat)
    requires NothingOutside(events)
    ensures var s := Run(priority, events);
            t in s.tasks ==> Placed(s.tasks[t], Replies(priority, events, t))
  {
    if events != [] {
      var rest, e := events[..|events| - 1], events[|events| - 1];
      var s := Run(priority, rest);
      assert !e.Outside?;
      RunPlaces(priority, rest, t);
      RunTracks(priority, rest, t);
      OneAttemptAtATime(priority, rest);
      if t in s.tasks {
        assert forall u | u in s.tasks :: u == t;
        if e.Step? && e.t == t {
          StepPlaces(s, t, e.reply, Replies(priority, rest, t));
        }
      }
    }
  }

  lemma AsksThird(task: Task, replies: seq<Reply>)
    requires Placed(task, replies) && Unhindered(replies) && |replies| < 7
    ensures task.pc.ConfigGet? <==> |replies| == 2
  {
    assert replies[..|replies|] == replies;
  }

  lemma UnhinderedBefore(replies: seq<Reply>, reply: Reply)
    requires Unhindered(replies + [reply])
    ensures Unhindered(replies)
  {
    assert forall i | 0 <= i < |replies| :: replies[i] == (replies + [reply])[i];
  }

  lemma OnlyRequestsBegin(s: State, e: Event, t: nat)
    requires t in Next(s, e).tasks && !Begins(s, e, t)
    ensures t in s.tasks
  {
  }

  /** The unreadable reply, if there was one, is the third of an attempt that went on to it. */
  lemma {:induction false} GarbledIsThird(priority: string, events: seq<Event>, t: nat)
    requires NothingOutside(events) && t in Run(priority, events).tasks
    requires var replies := Replies(priority, events, t); |replies| <= 7 && Unhindered(replies)
    ensures var replies := Replies(priority, events, t);
            PastOf(priority, events, t).garbled <==> |replies| >= 3 && replies[2].Garbled?
  {
    if events != [] {
      var rest, e := events[..|events| - 1], events[|events| - 1];
      var s, before := Run(priority, rest), Replies(priority, rest, t);
      assert !e.Outside?;
      if Begins(s, e, t) {
        NewPast(priority, events, t);
      } else {
        PastSnoc(priority, events, t);
        OnlyRequestsBegin(s, e, t);
        if Steps(s, e, t) {
          UnhinderedBefore(before, e.reply);
          RunPlaces(priority, rest, t);
          AsksThird(s.tasks[t], before);
        }
        GarbledIsThird(priority, rest, t);
      }
    }
  }

  /** An attempt is about to send SENTINEL FAILOVER exactly when it has had six replies, each let
    * it go on, and the priority it read may be promoted. */
  lemma FailoverIsSentIff(priority: string, events: seq<Event>, t: nat)
    requires NothingOutside(events) && t in Run(priority, events).tasks
    ensures var task, replies := Run(priority, events).tasks[t], Replies(priority, events, t);
            task.pc == Failover <==> |replies| == 6 && Unhindered(replies) && MayPromote(replies, task.before)
  {
    RunPlaces(priority, events, t);
    var replies := Replies(priority, events, t);
    assert |replies| <= 7 ==> replies[..|replies|] == replies;
  }

  /** Once its visibility wait and FAILOVER are answered, an attempt stands at the settle watch,
    * with the bias in place and the priority it read in the stash, exactly when none of its own
    * steps failed, timed out or found this node to be the master, and that priority may be
    * promoted. */
  lemma HandsOverIff(priority: string, events: seq<Event>, t: nat)
    requires NothingOutside(events) && t in Run(priority, events).tasks
    requires |Replies(priority, events, t)| == 7
    ensures var s, replies := Run(priority, events), Replies(priority, events, t);
            var before := s.tasks[t].before;
            s.tasks[t].pc == Watch && s.priority == PROMOTE && s.stash == Some(HeldAfter(replies, before))
            <==> Unhindered(replies) && MayPromote(replies, before)
  {
    RunPlaces(priority, events, t);
    var s, replies := Run(priority, events), Replies(priority, events, t);
    assert replies[..7] == replies;
    if Unhindered(replies) && MayPromote(replies, s.tasks[t].before) {
      RunTracks(priority, events, t);
      GarbledIsThird(priority, events, t);
      AtTheWatch(s.tasks[t], PastOf(priority, events, t), s.stash, s.priority);
    }
  }

  lemma AtTheWatch(task: Task, past: Past, stash: Option<string>, priority: string)
    requires task.pc == Watch && Tracks(task, past, stash, priority)
    ensures priority == PROMOTE && stash == Some(if past.garbled then DEFAULT_PRIORITY else task.before)
  {
  }
}
