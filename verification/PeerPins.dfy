/** The peer pin table: which addresses stay pinned for a name after any sequence of
  * resolver answers, when a pin is dropped, and which transitions are reported. */
module PeerPins {
  import opened Wrappers

  /** Addresses in the order the table sorts them: every IPv4 before every IPv6. */
  datatype Ip = V4(bits: nat) | V6(bits: nat) {
    predicate Before(other: Ip) {
      (V4? && other.V6?) || (V4? == other.V4? && bits < other.bits)
    }
  }

  datatype Lookup = Addresses(addresses: seq<Ip>) | Absent | Silent

  datatype Pin = Pin(addresses: seq<Ip>, absentSince: Option<int>, silentReported: bool, absentReported: bool)

  datatype Event =
    | Pinned(addresses: seq<Ip>)
    | ResolverSilent(held: seq<Ip>)
    | ResolverBack
    | AbsentSeen(held: seq<Ip>)
    | Dropped(absentFor: int)

  const NEW_PIN := Pin([], None, false, false)

  // ----- sort and dedup -----------------------------------------------------------

  predicate Ascending(s: seq<Ip>) {
    forall i, j | 0 <= i < j < |s| :: s[i].Before(s[j])
  }

  function Insert(a: Ip, s: seq<Ip>): (r: seq<Ip>)
    requires Ascending(s)
    ensures Ascending(r)
    ensures forall x :: x in r <==> x == a || x in s
  {
    if s == [] then [a]
    else if a == s[0] then s
    else if a.Before(s[0]) then [a] + s
    else
      var rest := Insert(a, s[1..]);
      assert forall x | x in rest :: s[0].Before(x);
      [s[0]] + rest
  }

  function SortDedup(s: seq<Ip>): (r: seq<Ip>)
    ensures Ascending(r)
    ensures forall x :: x in r <==> x in s
  {
    if s == [] then [] else Insert(s[0], SortDedup(s[1..]))
  }

  lemma HeadIsMember(s: seq<Ip>)
    requires s != []
    ensures s[0] in s
  {
  }

  /** The sorted, duplicate-free list of a set of addresses is unique. */
  lemma {:induction false} AscendingIsUnique(a: seq<Ip>, b: seq<Ip>)
    requires Ascending(a) && Ascending(b) && forall x :: x in a <==> x in b
    ensures a == b
  {
    if a == [] && b == [] {
    } else if a == [] {
      HeadIsMember(b);
      assert false;
    } else if b == [] {
      HeadIsMember(a);
      assert false;
    } else {
      assert a[0] in b && b[0] in a;
      assert a[0] == b[0];
      forall x
        ensures x in a[1..] <==> x in b[1..]
      {
        assert x in a[1..] <==> x in a && x != a[0];
        assert x in b[1..] <==> x in b && x != b[0];
      }
      AscendingIsUnique(a[1..], b[1..]);
    }
  }

  // ----- one observation -------------------------------------------------------------

  function Elapsed(since: int, now: int): nat {
    if now > since then now - since else 0
  }

  /** One answer for a name: the pin afterwards (None when dropped) and what is reported. */
  function Step(before: Option<Pin>, lookup: Lookup, now: int, expiry: nat): (Option<Pin>, seq<Event>) {
    var pin := if before.Some? then before.value else NEW_PIN;
    var back := if pin.silentReported then [ResolverBack] else [];
    match lookup
    case Addresses(found) =>
      var addresses := SortDedup(found);
      (Some(Pin(addresses, None, false, false)),
       back + (if pin.addresses != addresses then [Pinned(addresses)] else []))
    case Silent =>
      (Some(pin.(silentReported := true)),
       if pin.silentReported then [] else [ResolverSilent(pin.addresses)])
    case Absent =>
      var since := if pin.absentSince.Some? then pin.absentSince.value else now;
      var next := pin.(silentReported := false, absentSince := Some(since));
      if pin.addresses == [] then (Some(next), back)
      else
        var seen := if pin.absentReported then [] else [AbsentSeen(pin.addresses)];
        if Elapsed(since, now) >= expiry then (None, back + seen + [Dropped(Elapsed(since, now))])
        else (Some(next.(absentReported := true)), back + seen)
  }

  function Lookedup(entries: map<string, Pin>, name: string): Option<Pin> {
    if name in entries then Some(entries[name]) else None
  }

  function Updated(entries: map<string, Pin>, name: string, pin: Option<Pin>): map<string, Pin> {
    if pin.Some? then entries[name := pin.value] else entries - {name}
  }

  class Pins {
    var entries: map<string, Pin>

    constructor ()
      ensures entries == map[]
    {
      entries := map[];
    }

    method Observe(name: string, lookup: Lookup, now: int, expiry: nat) returns (events: seq<Event>)
      modifies this
      ensures var (pin, reported) := Step(Lookedup(old(entries), name), lookup, now, expiry);
              entries == Updated(old(entries), name, pin) && events == reported
    {
      events := [];
      var pin := if name in entries then entries[name] else NEW_PIN;
      match lookup {
        case Addresses(found) =>
          var addresses := SortDedup(found);
          if pin.silentReported {
            events := events + [ResolverBack];
          }
          pin := pin.(silentReported := false, absentSince := None, absentReported := false);
          if pin.addresses != addresses {
            pin := pin.(addresses := addresses);
            events := events + [Pinned(addresses)];
          }
        case Silent =>
          if !pin.silentReported {
            pin := pin.(silentReported := true);
            events := events + [ResolverSilent(pin.addresses)];
          }
        case Absent =>
          if pin.silentReported {
            pin := pin.(silentReported := false);
            events := events + [ResolverBack];
          }
          if pin.absentSince.None? {
            pin := pin.(absentSince := Some(now));
          }
          if pin.addresses != [] {
            if !pin.absentReported {
              pin := pin.(absentReported := true);
              events := events + [AbsentSeen(pin.addresses)];
            }
            if Elapsed(pin.absentSince.value, now) >= expiry {
              entries := entries - {name};
              events := events + [Dropped(Elapsed(pin.absentSince.value, now))];
              return;
            }
          }
      }
      entries := entries[name := pin];
    }
  }

  // ----- a name's history --------------------------------------------------------------

  datatype Look = Look(lookup: Lookup, now: int)

  type History = seq<Look>

  function After(h: History, expiry: nat): Option<Pin> {
    if h == [] then None
    else Step(After(h[..|h| - 1], expiry), h[|h| - 1].lookup, h[|h| - 1].now, expiry).0
  }

  function Reported(h: History, n: nat, expiry: nat): seq<Event>
    requires n < |h|
  {
    Step(After(h[..n], expiry), h[n].lookup, h[n].now, expiry).1
  }

  /** Index of the last answer that carried addresses among the first `n`, or -1. */
  function LastAnswer(h: History, n: nat): (a: int)
    requires n <= |h|
    ensures -1 <= a < n && (a >= 0 ==> h[a].lookup.Addresses?)
    ensures forall i | a < i < n :: !h[i].lookup.Addresses?
  {
    if n == 0 then -1 else if h[n - 1].lookup.Addresses? then n - 1 else LastAnswer(h, n - 1)
  }

  /** Index of the first absent answer after `a` among the first `n`, or `n`. */
  function FirstAbsent(h: History, a: int, n: nat): (f: int)
    requires -1 <= a < n <= |h|
    ensures a < f <= n && (f < n ==> h[f].lookup.Absent?)
    ensures forall i | a < i < f :: !h[i].lookup.Absent?
    decreases n
  {
    if n == a + 1 then n
    else
      var f := FirstAbsent(h, a, n - 1);
      if f < n - 1 || h[n - 1].lookup.Absent? then f else n
  }

  /** Some absent answer since the last addresses came the expiry or more after the first. */
  ghost predicate Expired(h: History, n: nat, expiry: nat)
    requires n <= |h|
  {
    exists i: nat :: LastAnswer(h, n) < i < n && h[i].lookup.Absent?
                     && Elapsed(h[FirstAbsent(h, LastAnswer(h, n), i + 1)].now, h[i].now) >= expiry
  }

  /** What a name is pinned to, told from its history alone. */
  ghost function Held(h: History, n: nat, expiry: nat): seq<Ip>
    requires n <= |h|
  {
    var a := LastAnswer(h, n);
    if a < 0 || Expired(h, n, expiry) then [] else SortDedup(h[a].lookup.addresses)
  }

  ghost predicate Refines(pin: Option<Pin>, h: History, n: nat, expiry: nat)
    requires n <= |h|
  {
    var p := if pin.Some? then pin.value else NEW_PIN;
    var a := LastAnswer(h, n);
    && p.addresses == Held(h, n, expiry)
    && (p.silentReported <==> n > 0 && h[n - 1].lookup.Silent?)
    && (p.addresses != [] ==>
          var f := FirstAbsent(h, a, n);
          && p.absentSince == (if f < n then Some(h[f].now) else None)
          && (p.absentReported <==> f < n))
  }

  lemma ExpiredGrows(h: History, n: nat, expiry: nat)
    requires n < |h| && !h[n].lookup.Addresses?
    ensures LastAnswer(h, n + 1) == LastAnswer(h, n)
    ensures var a := LastAnswer(h, n);
            Expired(h, n + 1, expiry)
            <==> Expired(h, n, expiry)
                 || (h[n].lookup.Absent? && Elapsed(h[FirstAbsent(h, a, n + 1)].now, h[n].now) >= expiry)
  {
  }

  lemma AnswerRefines(pin: Option<Pin>, h: History, n: nat, expiry: nat)
    requires n < |h| && h[n].lookup.Addresses?
    ensures Refines(Step(pin, h[n].lookup, h[n].now, expiry).0, h, n + 1, expiry)
  {
    assert LastAnswer(h, n + 1) == n;
    assert !Expired(h, n + 1, expiry);
  }

  lemma SilenceRefines(pin: Option<Pin>, h: History, n: nat, expiry: nat)
    requires n < |h| && h[n].lookup.Silent? && Refines(pin, h, n, expiry)
    ensures Refines(Step(pin, h[n].lookup, h[n].now, expiry).0, h, n + 1, expiry)
  {
    ExpiredGrows(h, n, expiry);
  }

  lemma AbsenceRefines(pin: Option<Pin>, h: History, n: nat, expiry: nat)
    requires n < |h| && h[n].lookup.Absent? && Refines(pin, h, n, expiry)
    ensures Refines(Step(pin, h[n].lookup, h[n].now, expiry).0, h, n + 1, expiry)
  {
    ExpiredGrows(h, n, expiry);
    assert FirstAbsent(h, LastAnswer(h, n), n + 1) <= n;
  }

  lemma StepRefines(pin: Option<Pin>, h: History, n: nat, expiry: nat)
    requires n < |h| && Refines(pin, h, n, expiry)
    ensures Refines(Step(pin, h[n].lookup, h[n].now, expiry).0, h, n + 1, expiry)
  {
    match h[n].lookup
    case Addresses(_) => AnswerRefines(pin, h, n, expiry);
    case Silent => SilenceRefines(pin, h, n, expiry);
    case Absent => AbsenceRefines(pin, h, n, expiry);
  }

  /** The pin table refines its history: the pinned addresses are the sorted set of the
    * last answer that carried any, unless an absence outlived the expiry since. */
  lemma {:induction false} TableRefinesHistory(h: History, n: nat, expiry: nat)
    requires n <= |h|
    ensures Refines(After(h[..n], expiry), h, n, expiry)
  {
    if n > 0 {
      TableRefinesHistory(h, n - 1, expiry);
      assert h[..n][..n - 1] == h[..n - 1];
      StepRefines(After(h[..n - 1], expiry), h, n - 1, expiry);
    }
  }

  // ----- drops and reports ---------------------------------------------------------------

  lemma StepReportsAbsence(before: Option<Pin>, lookup: Lookup, now: int, expiry: nat)
    ensures var pin := if before.Some? then before.value else NEW_PIN;
            (exists s :: AbsentSeen(s) in Step(before, lookup, now, expiry).1)
            <==> lookup.Absent? && pin.addresses != [] && !pin.absentReported
  {
    var pin := if before.Some? then before.value else NEW_PIN;
    var events := Step(before, lookup, now, expiry).1;
    if lookup.Absent? && pin.addresses != [] && !pin.absentReported {
      assert events[if pin.silentReported then 1 else 0] == AbsentSeen(pin.addresses);
    }
  }

  /** A pin is dropped exactly by an absent answer, over held addresses, the expiry or more
    * after the first absence since those addresses were given. Silence alone never does. */
  lemma DroppedExactlyWhenExpired(h: History, n: nat, expiry: nat)
    requires n < |h|
    ensures (exists d :: Dropped(d) in Reported(h, n, expiry))
            <==> && h[n].lookup.Absent? && Held(h, n, expiry) != []
                 && Elapsed(h[FirstAbsent(h, LastAnswer(h, n), n + 1)].now, h[n].now) >= expiry
  {
    TableRefinesHistory(h, n, expiry);
    var events := Reported(h, n, expiry);
    if h[n].lookup.Absent? {
      var d := Elapsed(h[FirstAbsent(h, LastAnswer(h, n), n + 1)].now, h[n].now);
      if Held(h, n, expiry) != [] && d >= expiry {
        assert events[|events| - 1] == Dropped(d);
      }
    }
  }

  /** A silent episode is reported by its first silent answer and by no other, and its end
    * by the first answer after it. */
  lemma SilenceIsReportedOnce(h: History, n: nat, expiry: nat)
    requires n < |h|
    ensures (exists s :: ResolverSilent(s) in Reported(h, n, expiry))
            <==> h[n].lookup.Silent? && (n == 0 || !h[n - 1].lookup.Silent?)
    ensures ResolverBack in Reported(h, n, expiry)
            <==> !h[n].lookup.Silent? && n > 0 && h[n - 1].lookup.Silent?
  {
    TableRefinesHistory(h, n, expiry);
    var events := Reported(h, n, expiry);
    if h[n].lookup.Silent? && (n == 0 || !h[n - 1].lookup.Silent?) {
      assert events[0] == ResolverSilent(Held(h, n, expiry));
    }
    if !h[n].lookup.Silent? && n > 0 && h[n - 1].lookup.Silent? {
      assert events[0] == ResolverBack;
    }
  }

  /** An absent episode of held addresses is reported by its first absent answer only. */
  lemma AbsenceIsReportedOnce(h: History, n: nat, expiry: nat)
    requires n < |h|
    ensures (exists s :: AbsentSeen(s) in Reported(h, n, expiry))
            <==> && h[n].lookup.Absent? && Held(h, n, expiry) != []
                 && forall i | LastAnswer(h, n) < i < n :: !h[i].lookup.Absent?
  {
    TableRefinesHistory(h, n, expiry);
    StepReportsAbsence(After(h[..n], expiry), h[n].lookup, h[n].now, expiry);
    var f := FirstAbsent(h, LastAnswer(h, n), n);
  }

  /** What an absent answer reports, told from the history: the first of an episode that the held
    * addresses are absent, and the one that outlives the expiry that they are dropped. */
  ghost function AbsenceReports(h: History, n: nat, expiry: nat): seq<Event>
    requires n < |h|
  {
    var a, held := LastAnswer(h, n), Held(h, n, expiry);
    if held == [] then []
    else
      var f := FirstAbsent(h, a, n + 1);
      var since := if f <= n then Elapsed(h[f].now, h[n].now) else 0;
      (if f >= n then [AbsentSeen(held)] else []) + (if since >= expiry then [Dropped(since)] else [])
  }

  /** Everything one answer reports, in order and with its contents: the resolver back after
    * silence, a changed set of addresses, the first silence, the first absence and the drop. */
  lemma ReportsAre(h: History, n: nat, expiry: nat)
    requires n < |h|
    ensures var back := if n > 0 && h[n - 1].lookup.Silent? then [ResolverBack] else [];
            var held := Held(h, n, expiry);
            Reported(h, n, expiry)
            == match h[n].lookup
               case Addresses(found) =>
                 back + if forall x :: x in found <==> x in held then [] else [Pinned(SortDedup(found))]
               case Silent => if back != [] then [] else [ResolverSilent(held)]
               case Absent => back + AbsenceReports(h, n, expiry)
  {
    TableRefinesHistory(h, n, expiry);
    if h[n].lookup.Addresses? {
      var found, held := h[n].lookup.addresses, Held(h, n, expiry);
      if forall x :: x in found <==> x in held {
        AscendingIsUnique(SortDedup(found), held);
      }
    }
  }

  // ----- names are independent -------------------------------------------------------------

  datatype Round = Round(name: string, look: Look)

  function TableAfter(rounds: seq<Round>, expiry: nat): map<string, Pin> {
    if rounds == [] then map[]
    else
      var t, r := TableAfter(rounds[..|rounds| - 1], expiry), rounds[|rounds| - 1];
      Updated(t, r.name, Step(Lookedup(t, r.name), r.look.lookup, r.look.now, expiry).0)
  }

  function Of(rounds: seq<Round>, name: string): History {
    if rounds == [] then []
    else
      var r := rounds[|rounds| - 1];
      Of(rounds[..|rounds| - 1], name) + (if r.name == name then [r.look] else [])
  }

  /** The table holds for each name what that name's own answers left, whatever was asked
    * about other names in between. */
  lemma {:induction false} NamesAreIndependent(rounds: seq<Round>, name: string, expiry: nat)
    ensures Lookedup(TableAfter(rounds, expiry), name) == After(Of(rounds, name), expiry)
  {
    if rounds != [] {
      var rest, r := rounds[..|rounds| - 1], rounds[|rounds| - 1];
      NamesAreIndependent(rest, name, expiry);
      if r.name == name {
        var h := Of(rest, name);
        assert (h + [r.look])[..|h|] == h;
      } else {
        assert Of(rounds, name) == Of(rest, name);
      }
    }
  }
}
