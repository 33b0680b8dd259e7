/** The ghost-master watcher: who restarts first, how long the condition must hold, and
  * the cap that survives the restarts it causes. */
module GhostMaster {
  import opened Wrappers
  import opened Text
  import opened RollingWindow

  datatype Thresholds = Thresholds(dwell: nat, stagger: nat, maxRestarts: nat, window: nat)

  // ----- restart order ---------------------------------------------------------------

  function NormalizedHosts(entries: seq<string>): seq<string> {
    if entries == [] then []
    else
      var h := NormalizeHost(SplitOn(Trim(entries[0]), ':')[0]);
      (if h == "" then [] else [h]) + NormalizedHosts(entries[1..])
  }

  function SeedOrder(sentinelHosts: string): seq<string> {
    NormalizedHosts(SplitOn(sentinelHosts, ','))
  }

  function Position(hosts: seq<string>, h: string): (n: nat)
    ensures n <= |hosts| && (n < |hosts| <==> h in hosts)
    ensures n < |hosts| ==> hosts[n] == h
  {
    if hosts == [] || hosts[0] == h then 0 else 1 + Position(hosts[1..], h)
  }

  function SeedRank(isPrimary: bool, privateDomain: string, sentinelHosts: string): nat {
    if isPrimary then 0 else Position(SeedOrder(sentinelHosts), NormalizeHost(privateDomain)) + 1
  }

  /** Replicas that the variable names under different hosts never share a slot, none of
    * them has the primary's, and a host it does not name comes after all of them. */
  lemma RanksAreStaggered(sentinelHosts: string, a: string, b: string, undeclared: string)
    requires NormalizeHost(a) in SeedOrder(sentinelHosts) && NormalizeHost(b) in SeedOrder(sentinelHosts)
    requires NormalizeHost(a) != NormalizeHost(b) && NormalizeHost(undeclared) !in SeedOrder(sentinelHosts)
    ensures SeedRank(false, a, sentinelHosts) != SeedRank(false, b, sentinelHosts)
    ensures SeedRank(true, a, sentinelHosts) < SeedRank(false, b, sentinelHosts)
    ensures SeedRank(false, b, sentinelHosts) < SeedRank(false, undeclared, sentinelHosts)
  {
    var hosts := SeedOrder(sentinelHosts);
    assert hosts[Position(hosts, NormalizeHost(a))] != hosts[Position(hosts, NormalizeHost(b))];
  }

  /** The host an entry names, normalised; empty if it names none. */
  function HostOf(entry: string): string {
    var trimmed := Trim(entry);
    NormalizeHost(trimmed[..IndexOf(trimmed, ':')])
  }

  /** How many of the first `k` entries name a host. */
  function NamedBefore(entries: seq<string>, k: nat): nat
    requires k <= |entries|
  {
    if k == 0 then 0 else NamedBefore(entries, k - 1) + if HostOf(entries[k - 1]) != "" then 1 else 0
  }

  /** Entry `k` is the first that names `own`; with no such entry, `k` is their number. */
  predicate FirstNaming(entries: seq<string>, own: string, k: nat) {
    && k <= |entries|
    && (k < |entries| ==> HostOf(entries[k]) == own && own != "")
    && forall i | 0 <= i < k :: HostOf(entries[i]) != own || own == ""
  }

  lemma {:induction false} NamedBeforeRest(entries: seq<string>, k: nat)
    requires 0 < k <= |entries|
    ensures NamedBefore(entries, k) == (if HostOf(entries[0]) != "" then 1 else 0) + NamedBefore(entries[1..], k - 1)
  {
    if k > 1 {
      NamedBeforeRest(entries, k - 1);
    }
  }

  lemma HostsCons(entries: seq<string>)
    requires entries != []
    ensures NormalizedHosts(entries)
            == (if HostOf(entries[0]) == "" then [] else [HostOf(entries[0])]) + NormalizedHosts(entries[1..])
  {
  }

  lemma PositionCons(h: string, hosts: seq<string>, own: string)
    ensures Position([h] + hosts, own) == if h == own then 0 else 1 + Position(hosts, own)
  {
    assert ([h] + hosts)[1..] == hosts;
  }

  lemma FirstNamingCons(entries: seq<string>, own: string, k: nat)
    requires entries != [] && FirstNaming(entries[1..], own, k) && (HostOf(entries[0]) != own || own == "")
    ensures FirstNaming(entries, own, k + 1)
  {
    forall i | 0 <= i < k + 1
      ensures HostOf(entries[i]) != own || own == ""
    {
      assert i > 0 ==> entries[i] == entries[1..][i - 1];
    }
  }

  lemma {:induction false} PositionIs(entries: seq<string>, own: string) returns (k: nat)
    ensures FirstNaming(entries, own, k) && Position(NormalizedHosts(entries), own) == NamedBefore(entries, k)
  {
    k := 0;
    if entries != [] {
      HostsCons(entries);
      var first, hosts := HostOf(entries[0]), NormalizedHosts(entries[1..]);
      PositionCons(first, hosts, own);
      if first != own || own == "" {
        var rest := PositionIs(entries[1..], own);
        FirstNamingCons(entries, own, rest);
        k := rest + 1;
        NamedBeforeRest(entries, k);
        assert first == "" ==> [] + hosts == hosts;
      }
    }
  }

  /** The primary's rank is 0; a replica's is one more than the number of hosts the variable names
    * before it, in the order it names them, and a host it does not name comes after them all. */
  lemma SeedRankIs(isPrimary: bool, privateDomain: string, sentinelHosts: string) returns (k: nat)
    ensures var entries := SplitOn(sentinelHosts, ',');
            && FirstNaming(entries, NormalizeHost(privateDomain), k)
            && SeedRank(isPrimary, privateDomain, sentinelHosts)
               == if isPrimary then 0 else NamedBefore(entries, k) + 1
  {
    k := PositionIs(SplitOn(sentinelHosts, ','), NormalizeHost(privateDomain));
  }

  // ----- the consensus denominator -----------------------------------------------------

  predicate SameAddress(a: Address, b: Address) {
    NormalizeHost(a.0) == NormalizeHost(b.0) && a.1 == b.1
  }

  predicate IsPeer(a: Address, own: string) {
    NormalizeHost(a.0) != "" && NormalizeHost(a.0) != NormalizeHost(own)
  }

  ghost predicate Lists(merged: seq<Address>, a: Address) {
    exists i :: 0 <= i < |merged| && SameAddress(merged[i], a)
  }

  lemma ListsSnoc(merged: seq<Address>, a: Address, b: Address)
    ensures Lists(merged + [a], b) <==> Lists(merged, b) || SameAddress(a, b)
  {
    if i :| 0 <= i < |merged| && SameAddress(merged[i], b) {
      assert (merged + [a])[i] == merged[i];
    }
    if SameAddress(a, b) {
      assert (merged + [a])[|merged|] == a;
    }
  }

  method Contains(merged: seq<Address>, a: Address) returns (found: bool)
    ensures found <==> Lists(merged, a)
  {
    for i := 0 to |merged|
      invariant forall k | 0 <= k < i :: !SameAddress(merged[k], a)
    {
      if SameAddress(merged[i], a) {
        return true;
      }
    }
    found := false;
  }

  ghost predicate AllDifferent(merged: seq<Address>) {
    forall i, j | 0 <= i < j < |merged| :: !SameAddress(merged[i], merged[j])
  }

  /** The first `n` candidates that are peers are on the list. */
  ghost predicate Covers(merged: seq<Address>, all: seq<Address>, n: nat, own: string)
    requires n <= |all|
  {
    forall k | 0 <= k < n && IsPeer(all[k], own) :: Lists(merged, all[k])
  }

  lemma CoversSnoc(merged: seq<Address>, all: seq<Address>, n: nat, own: string, a: Address)
    requires n < |all| && Covers(merged, all, n, own) && a == all[n]
    ensures Covers(merged + [a], all, n + 1, own)
  {
    forall k | 0 <= k < n + 1 && IsPeer(all[k], own)
      ensures Lists(merged + [a], all[k])
    {
      ListsSnoc(merged, a, all[k]);
    }
  }

  /** Declared and gossip-known peers together, this node left out, one entry an address. */
  method MergePeerAddrs(declared: seq<Address>, known: seq<Address>, own: string) returns (merged: seq<Address>)
    ensures forall i | 0 <= i < |merged| ::
              merged[i] in declared + known && NormalizeHost(merged[i].0) !in {"", NormalizeHost(own)}
    ensures forall a | a in declared + known && NormalizeHost(a.0) !in {"", NormalizeHost(own)} ::
              exists i :: 0 <= i < |merged| && NormalizeHost(merged[i].0) == NormalizeHost(a.0) && merged[i].1 == a.1
    ensures forall i, j | 0 <= i < j < |merged| ::
              NormalizeHost(merged[i].0) != NormalizeHost(merged[j].0) || merged[i].1 != merged[j].1
  {
    merged := [];
    var all := declared + known;
    for n := 0 to |all|
      invariant forall i | 0 <= i < |merged| :: merged[i] in all && IsPeer(merged[i], own)
      invariant Covers(merged, all, n, own)
      invariant AllDifferent(merged)
    {
      var found := Contains(merged, all[n]);
      if IsPeer(all[n], own) && !found {
        CoversSnoc(merged, all, n, own, all[n]);
        merged := merged + [all[n]];
      }
    }
    CoversAll(merged, all, own);
  }

  lemma CoversAll(merged: seq<Address>, all: seq<Address>, own: string)
    requires Covers(merged, all, |all|, own)
    ensures forall a | a in all && NormalizeHost(a.0) !in {"", NormalizeHost(own)} ::
              exists i :: 0 <= i < |merged| && NormalizeHost(merged[i].0) == NormalizeHost(a.0) && merged[i].1 == a.1
  {
    forall a | a in all && NormalizeHost(a.0) !in {"", NormalizeHost(own)}
      ensures exists i :: 0 <= i < |merged| && NormalizeHost(merged[i].0) == NormalizeHost(a.0) && merged[i].1 == a.1
    {
      var k :| 0 <= k < |all| && all[k] == a;
      assert Lists(merged, all[k]);
    }
  }

  // ----- one poll -----------------------------------------------------------------------

  datatype Action = NoAction | Wait | GiveUp | Restart

  /** `file` is the marker file: the time of every restart this node ever asked for. */
  datatype State = State(ghostSince: Option<int>, gaveUp: bool, file: seq<int>)

  function Hold(rank: nat, t: Thresholds): nat {
    t.dwell + rank * t.stagger
  }

  function Decide(ghostFor: nat, rank: nat, restarts: nat, t: Thresholds): Action {
    if ghostFor < Hold(rank, t) then Wait
    else if restarts >= t.maxRestarts then GiveUp
    else Restart
  }

  function Step(s: State, now: int, confirmed: bool, rank: nat, t: Thresholds): (State, Action) {
    if !confirmed then (s.(ghostSince := None, gaveUp := false), NoAction)
    else
      var since := if s.ghostSince.Some? then s.ghostSince.value else now;
      var ghostFor := if now > since then now - since else 0;
      var a := Decide(ghostFor, rank, CountSince(s.file, now - t.window), t);
      (State(Some(since), s.gaveUp || a == GiveUp, if a == Restart then s.file + [now] else s.file), a)
  }

  class Watcher {
    var ghostSince: Option<int>
    var gaveUp: bool
    var file: seq<int>

    function Abs(): State
      reads this
    {
      State(ghostSince, gaveUp, file)
    }

    /** A process started over the markers earlier ones left. */
    constructor (markers: seq<int>)
      ensures Abs() == State(None, false, markers)
    {
      ghostSince, gaveUp, file := None, false, markers;
    }

    method Iteration(now: int, confirmed: bool, rank: nat, t: Thresholds) returns (a: Action)
      modifies this
      ensures (Abs(), a) == Step(old(Abs()), now, confirmed, rank, t)
    {
      if !confirmed {
        ghostSince, gaveUp := None, false;
        return NoAction;
      }
      if ghostSince.None? {
        ghostSince := Some(now);
      }
      var ghostFor := if now > ghostSince.value then now - ghostSince.value else 0;
      a := Decide(ghostFor, rank, CountSince(file, now - t.window), t);
      match a
      case GiveUp =>
        if !gaveUp {
          gaveUp := true;
        }
      case Restart =>
        // The marker first: the restart it asks for cannot reset its own cap.
        file := file + [now];
      case _ =>
    }
  }

  // ----- runs over polls and process restarts ----------------------------------------------

  datatype Event = Poll(now: int, confirmed: bool) | ProcessRestart

  type History = seq<Event>

  function Next(s: State, e: Event, rank: nat, t: Thresholds): (State, Action) {
    match e
    case Poll(now, confirmed) => Step(s, now, confirmed, rank, t)
    case ProcessRestart => (State(None, false, s.file), NoAction)
  }

  function After(h: History, rank: nat, t: Thresholds): State {
    if h == [] then State(None, false, [])
    else Next(After(h[..|h| - 1], rank, t), h[|h| - 1], rank, t).0
  }

  function ActionAt(h: History, n: nat, rank: nat, t: Thresholds): Action
    requires n < |h|
  {
    Next(After(h[..n], rank, t), h[n], rank, t).1
  }

  /** Every restart of the run, oldest first, counted apart from the marker file. */
  function Restarts(h: History, rank: nat, t: Thresholds): seq<int> {
    if h == [] then []
    else Restarts(h[..|h| - 1], rank, t) + Asked(ActionAt(h, |h| - 1, rank, t), h[|h| - 1])
  }

  function Asked(a: Action, e: Event): seq<int> {
    if a == Restart && e.Poll? then [e.now] else []
  }

  lemma {:induction false} MarkersAreTheRestarts(h: History, rank: nat, t: Thresholds)
    ensures After(h, rank, t).file == Restarts(h, rank, t)
  {
    if h != [] {
      MarkersAreTheRestarts(h[..|h| - 1], rank, t);
    }
  }

  lemma {:induction false} CountInAtMostSince(times: seq<int>, lo: int, hi: int)
    ensures CountIn(times, lo, hi) <= CountSince(times, lo)
  {
    if times != [] {
      CountInAtMostSince(times[..|times| - 1], lo, hi);
    }
  }

  lemma OneMoreRestartIsCapped(past: seq<int>, now: int, t: Thresholds)
    requires Capped(past, t.window, t.maxRestarts)
    requires CountSince(past, now - t.window) < t.maxRestarts
    ensures Capped(past + [now], t.window, t.maxRestarts)
  {
    var lower := now - t.window;
    forall hi
      ensures CountIn(past, lower, hi) < t.maxRestarts
    {
      CountInAtMostSince(past, lower, hi);
    }
    OneMoreStaysCapped(past, now, lower, t.window, t.maxRestarts);
  }

  lemma StepIsCapped(s: State, past: seq<int>, e: Event, rank: nat, t: Thresholds)
    requires s.file == past && Capped(past, t.window, t.maxRestarts)
    ensures Capped(past + Asked(Next(s, e, rank, t).1, e), t.window, t.maxRestarts)
  {
    if Next(s, e, rank, t).1 == Restart {
      OneMoreRestartIsCapped(past, e.now, t);
    } else {
      assert past + [] == past;
    }
  }

  /** However often the process restarts, no window holds more restarts than the cap. */
  lemma {:induction false} RestartsAreCapped(h: History, rank: nat, t: Thresholds)
    ensures Capped(Restarts(h, rank, t), t.window, t.maxRestarts)
  {
    if h != [] {
      var rest, last := h[..|h| - 1], h[|h| - 1];
      RestartsAreCapped(rest, rank, t);
      MarkersAreTheRestarts(rest, rank, t);
      StepIsCapped(After(rest, rank, t), Restarts(rest, rank, t), last, rank, t);
    }
  }

  /** One process confirmed the condition at every poll from `m` up to `n`. */
  ghost predicate ConfirmedThroughout(h: History, m: int, n: int) {
    0 <= m < n <= |h| && forall k | m <= k < n :: h[k].Poll? && h[k].confirmed
  }

  lemma {:induction false} WindowIsExplained(h: History, n: nat, rank: nat, t: Thresholds)
    requires n <= |h|
    ensures var since := After(h[..n], rank, t).ghostSince;
            since.Some? ==> exists m :: ConfirmedThroughout(h, m, n) && h[m].now == since.value
  {
    if n > 0 {
      var k := n - 1;
      WindowIsExplained(h, k, rank, t);
      assert h[..n][..k] == h[..k];
      var before := After(h[..k], rank, t);
      if h[k].Poll? && h[k].confirmed {
        if before.ghostSince.Some? {
          var m :| ConfirmedThroughout(h, m, k) && h[m].now == before.ghostSince.value;
          assert ConfirmedThroughout(h, m, n);
        } else {
          assert ConfirmedThroughout(h, k, n);
        }
      }
    }
  }

  /** Every restart follows confirmation at every poll for the rank's own hold. */
  lemma EveryRestartServedItsHold(h: History, n: nat, rank: nat, t: Thresholds)
    requires n < |h| && ActionAt(h, n, rank, t) == Restart
    ensures exists m :: ConfirmedThroughout(h, m, n + 1)
                        && (h[n].now - h[m].now >= t.dwell + rank * t.stagger || t.dwell + rank * t.stagger == 0)
  {
    WindowIsExplained(h, n, rank, t);
    var before := After(h[..n], rank, t);
    if before.ghostSince.Some? {
      var m :| ConfirmedThroughout(h, m, n) && h[m].now == before.ghostSince.value;
      assert ConfirmedThroughout(h, m, n + 1);
    } else {
      assert ConfirmedThroughout(h, n, n + 1);
    }
  }

  // ----- the other direction: a due restart is not withheld ---------------------------------

  ghost predicate ClockNeverGoesBack(h: History) {
    forall i, j | 0 <= i <= j < |h| && h[i].Poll? && h[j].Poll? :: h[i].now <= h[j].now
  }

  /** An open window is never younger than the run of confirmed polls it stands for. */
  lemma {:induction false} WindowIsOldEnough(h: History, m: nat, n: nat, rank: nat, t: Thresholds)
    requires ClockNeverGoesBack(h) && ConfirmedThroughout(h, m, n)
    ensures var since := After(h[..n], rank, t).ghostSince; since.Some? && since.value <= h[m].now
    decreases n
  {
    var k := n - 1;
    assert h[..n][..k] == h[..k];
    WindowIsExplained(h, k, rank, t);
    if m < k {
      assert ConfirmedThroughout(h, m, k);
      WindowIsOldEnough(h, m, k, rank, t);
    }
  }

  ghost predicate HeldSince(h: History, m: int, n: nat, hold: nat)
    requires n < |h| && h[n].Poll?
  {
    ConfirmedThroughout(h, m, n + 1) && h[n].now - h[m].now >= hold
  }

  /** One process confirmed the condition at every poll for the whole hold up to poll `n`. */
  ghost predicate HoldServed(h: History, n: nat, hold: nat)
    requires n < |h|
  {
    h[n].Poll? && exists m :: HeldSince(h, m, n, hold)
  }

  /** How long a poll that confirms the condition now sees it confirmed. */
  function HeldFor(s: State, now: int): nat {
    if s.ghostSince.Some? && now > s.ghostSince.value then now - s.ghostSince.value else 0
  }

  lemma HoldServedWhen(h: History, n: nat, rank: nat, t: Thresholds)
    requires n < |h| && ClockNeverGoesBack(h) && h[n].Poll?
    ensures HoldServed(h, n, Hold(rank, t))
            <==> h[n].confirmed && HeldFor(After(h[..n], rank, t), h[n].now) >= Hold(rank, t)
  {
    WindowIsExplained(h, n, rank, t);
    var since := After(h[..n], rank, t).ghostSince;
    if HoldServed(h, n, Hold(rank, t)) {
      var m :| HeldSince(h, m, n, Hold(rank, t));
      if m < n {
        assert ConfirmedThroughout(h, m, n);
        WindowIsOldEnough(h, m, n, rank, t);
      }
    } else if h[n].confirmed {
      assert !HeldSince(h, n, n, Hold(rank, t));
      if since.Some? {
        var m :| ConfirmedThroughout(h, m, n) && h[m].now == since.value;
        assert !HeldSince(h, m, n, Hold(rank, t));
      }
    }
  }

  predicate BelowCap(past: seq<int>, e: Event, t: Thresholds) {
    e.Poll? && CountSince(past, e.now - t.window) < t.maxRestarts
  }

  lemma RestartWhen(s: State, e: Event, rank: nat, t: Thresholds)
    requires e.Poll?
    ensures Next(s, e, rank, t).1 == Restart
            <==> e.confirmed && HeldFor(s, e.now) >= Hold(rank, t) && BelowCap(s.file, e, t)
  {
  }

  /** A restart is asked for exactly when the hold was served and the restarts of the last
    * window, told from the run and not from the file, are below the cap. */
  lemma RestartExactlyWhenDue(h: History, n: nat, rank: nat, t: Thresholds)
    requires n < |h| && ClockNeverGoesBack(h)
    ensures ActionAt(h, n, rank, t) == Restart
            <==> HoldServed(h, n, t.dwell + rank * t.stagger)
                 && BelowCap(Restarts(h[..n], rank, t), h[n], t)
  {
    MarkersAreTheRestarts(h[..n], rank, t);
    if h[n].Poll? {
      HoldServedWhen(h, n, rank, t);
      RestartWhen(After(h[..n], rank, t), h[n], rank, t);
    }
  }

  // ----- giving up, and saying so once ---------------------------------------------------------

  lemma OtherwiseWhen(s: State, e: Event, rank: nat, t: Thresholds)
    requires e.Poll?
    ensures var a, held := Next(s, e, rank, t).1, e.confirmed && HeldFor(s, e.now) >= Hold(rank, t);
            && (a == GiveUp <==> held && !BelowCap(s.file, e, t))
            && (a == Wait <==> e.confirmed && !held)
            && (a == NoAction <==> !e.confirmed)
  {
  }

  ghost predicate Served(h: History, n: nat, rank: nat, t: Thresholds)
    requires n < |h|
  {
    HoldServed(h, n, t.dwell + rank * t.stagger)
  }

  lemma ServedWhen(h: History, n: nat, rank: nat, t: Thresholds)
    requires n < |h| && ClockNeverGoesBack(h) && h[n].Poll?
    ensures Served(h, n, rank, t)
            <==> h[n].confirmed && HeldFor(After(h[..n], rank, t), h[n].now) >= Hold(rank, t)
  {
    HoldServedWhen(h, n, rank, t);
  }

  /** With the hold served and the cap reached the watcher gives up; with the hold not served it
    * waits; and a poll that does not confirm the condition does nothing. */
  lemma OtherwiseItGivesUpOrWaits(h: History, n: nat, rank: nat, t: Thresholds)
    requires n < |h| && ClockNeverGoesBack(h) && h[n].Poll?
    ensures var a := ActionAt(h, n, rank, t);
            && (a == GiveUp <==> Served(h, n, rank, t) && !BelowCap(Restarts(h[..n], rank, t), h[n], t))
            && (a == Wait <==> h[n].confirmed && !Served(h, n, rank, t))
            && (a == NoAction <==> !h[n].confirmed)
  {
    MarkersAreTheRestarts(h[..n], rank, t);
    ServedWhen(h, n, rank, t);
    OtherwiseWhen(After(h[..n], rank, t), h[n], rank, t);
  }

  /** The watcher gave up at poll `m` of the process and of the episode that are still going on. */
  ghost predicate GaveUpAt(h: History, m: int, n: int, rank: nat, t: Thresholds) {
    ConfirmedThroughout(h, m, n) && ActionAt(h, m, rank, t) == GiveUp
  }

  ghost predicate HasGivenUp(h: History, n: int, rank: nat, t: Thresholds) {
    exists m :: GaveUpAt(h, m, n, rank, t)
  }

  lemma NextGaveUp(s: State, e: Event, rank: nat, t: Thresholds)
    ensures Next(s, e, rank, t).0.gaveUp
            <==> e.Poll? && e.confirmed && (s.gaveUp || Next(s, e, rank, t).1 == GiveUp)
  {
  }

  lemma GaveUpOneMore(h: History, n: nat, rank: nat, t: Thresholds)
    requires n < |h|
    ensures HasGivenUp(h, n + 1, rank, t)
            <==> && h[n].Poll? && h[n].confirmed
                 && (ActionAt(h, n, rank, t) == GiveUp || HasGivenUp(h, n, rank, t))
  {
    if HasGivenUp(h, n + 1, rank, t) {
      var m :| GaveUpAt(h, m, n + 1, rank, t);
      assert m < n ==> GaveUpAt(h, m, n, rank, t);
    }
    if h[n].Poll? && h[n].confirmed {
      if ActionAt(h, n, rank, t) == GiveUp {
        assert GaveUpAt(h, n, n + 1, rank, t);
      }
      if m :| GaveUpAt(h, m, n, rank, t) {
        assert GaveUpAt(h, m, n + 1, rank, t);
      }
    }
  }

  /** What it remembers to have said is just that. */
  lemma {:induction false} GaveUpIsRemembered(h: History, n: nat, rank: nat, t: Thresholds)
    requires n <= |h|
    ensures After(h[..n], rank, t).gaveUp <==> HasGivenUp(h, n, rank, t)
  {
    if n > 0 {
      GaveUpIsRemembered(h, n - 1, rank, t);
      GaveUpOneMore(h, n - 1, rank, t);
      assert h[..n][..n - 1] == h[..n - 1];
      NextGaveUp(After(h[..n - 1], rank, t), h[n - 1], rank, t);
    }
  }
}
