/** Coordinated password rotation: what each command does to one node, and the
  * operations (PREPARE, MEMBER, VERIFY, reconcile, container boot) as the command
  * sequences that the program sends.
  *
  * Redis and Sentinel commands are atomic and applied in order. An operation may stop
  * after any of its commands (refusal, timeout, crash). Passwords are compared, never
  * looked into. */
module Rotation {
  import opened Wrappers

  type Password = string

  datatype Journal = Journal(current: Password, target: Password)

  /** A Sentinel's credentials: what it accepts, what it dials peers with
    * (sentinel-pass) and what it dials the monitored master with (auth-pass). */
  datatype Creds = Creds(accepts: set<Password>, pass: Password, authPass: Password)

  /** One node. `pin` is the requirepass of redis.conf on the volume, `conf` what
    * sentinel.conf carries. */
  datatype Node = Node(
    dataAccepts: set<Password>, masterauth: Password, requirepass: Password,
    pin: Password, journal: Option<Journal>,
    sentinel: Creds, conf: Creds)

  datatype Command =
    | WriteJournal(journal: Journal)
    | AclAddData(p: Password)
    | SetMasterauth(p: Password)
    | SetMasterauthAndRequirepass(p: Password)
    | RewriteConfig
    | AclAddSentinel(p: Password)
    | SetSentinelPass(p: Password)
    | SetAuthPass(p: Password)
    | FlushConfig
    | RestartSentinelUnlessMoved(journal: Journal)
    | FinishVerify(journal: Journal)

  /** sentinel.conf as `rewrite_sentinel` leaves it for a conf that requires auth. */
  function RewrittenConf(p: Password): Creds {
    Creds({p}, p, p)
  }

  predicate SentinelMoved(n: Node, j: Journal) {
    j.target in n.sentinel.accepts && (j.current == j.target || j.current !in n.sentinel.accepts)
  }

  predicate VerifyPasses(n: Node, j: Journal) {
    && j.target in n.dataAccepts && j.target in n.sentinel.accepts && n.pin == j.target
    && (j.current != j.target ==> j.current !in n.dataAccepts && j.current !in n.sentinel.accepts)
  }

  function Exec(n: Node, c: Command): Node {
    match c
    case WriteJournal(j) => n.(journal := Some(j))
    case AclAddData(p) => n.(dataAccepts := n.dataAccepts + {p})
    case SetMasterauth(p) => n.(masterauth := p)
    case SetMasterauthAndRequirepass(p) => n.(masterauth := p, requirepass := p, dataAccepts := {p})
    case RewriteConfig => n.(pin := n.requirepass)
    case AclAddSentinel(p) => n.(sentinel := n.sentinel.(accepts := n.sentinel.accepts + {p}))
    case SetSentinelPass(p) =>
      var s := n.sentinel.(pass := p);
      n.(sentinel := s, conf := s)
    case SetAuthPass(p) =>
      var s := n.sentinel.(authPass := p);
      n.(sentinel := s, conf := s)
    case FlushConfig => n.(conf := n.sentinel)
    case RestartSentinelUnlessMoved(j) =>
      if SentinelMoved(n, j) then n
      else n.(sentinel := RewrittenConf(n.pin), conf := RewrittenConf(n.pin))
    case FinishVerify(j) => if VerifyPasses(n, j) then n.(journal := None) else n
  }

  function ExecAll(n: Node, cs: seq<Command>): Node
    decreases |cs|
  {
    if cs == [] then n else ExecAll(Exec(n, cs[0]), cs[1..])
  }

  // ----- operations as command sequences -----------------------------------------

  function PrepareDataCommands(j: Journal): seq<Command> {
    [WriteJournal(j), AclAddData(j.target), SetMasterauth(j.target), RewriteConfig]
  }

  function PrepareSentinelCommands(j: Journal): seq<Command> {
    [AclAddSentinel(j.target), SetSentinelPass(j.target), SetAuthPass(j.target), FlushConfig]
  }

  function PrepareCommands(j: Journal): seq<Command> {
    PrepareDataCommands(j) + PrepareSentinelCommands(j)
  }

  function MemberCommands(j: Journal): seq<Command> {
    [SetMasterauthAndRequirepass(j.target), RewriteConfig, RestartSentinelUnlessMoved(j)]
  }

  function VerifyCommands(j: Journal): seq<Command> {
    [FinishVerify(j)]
  }

  /** What a reconcile tick could read; None is "could not read". */
  datatype Observed = Observed(sentinelPass: Option<Password>, authPass: Option<Password>,
                               acceptsPin: Option<bool>)

  /** Live values against the pin and the staged password: the repairs, in order. */
  function Plan(o: Observed, pin: Password, stagedTarget: Option<Password>): seq<Command> {
    var stages := stagedTarget.Some? && stagedTarget.value != pin && stagedTarget.value != "";
    var staged := if stages then stagedTarget else None;
    var target := if staged.Some? then staged.value else pin;
    (if o.acceptsPin == Some(false) then [AclAddSentinel(pin)] else [])
    + (if o.sentinelPass.Some? && o.sentinelPass.value != pin && o.sentinelPass != staged
       then [SetSentinelPass(target)] else [])
    + (if o.authPass.Some? && o.authPass.value != pin && o.authPass != staged then [SetAuthPass(target)] else [])
  }

  /** What this node shows a tick: each password as it is, or unreadable, and whether the pin
    * opened the session. A pin that was accepted but timed out counts as refused. */
  predicate Shows(n: Node, o: Observed) {
    && (o.sentinelPass.Some? ==> o.sentinelPass.value == n.sentinel.pass)
    && (o.authPass.Some? ==> o.authPass.value == n.conf.authPass)
    && o.acceptsPin.Some? && (o.acceptsPin.value ==> n.pin in n.sentinel.accepts)
  }

  function ReconcileCommands(n: Node, o: Observed): seq<Command> {
    var repairs := Plan(o, n.pin, if n.journal.Some? then Some(n.journal.value.target) else None);
    if repairs == [] then [] else repairs + [FlushConfig]
  }

  // ----- container boot ----------------------------------------------------------

  function Candidate(n: Node, env: Password): Password {
    if n.journal.Some? then n.journal.value.target else env
  }

  /** The password this boot runs with: a proven candidate, else the persisted pin. */
  function BootPassword(n: Node, env: Password, proven: bool): Password {
    if proven then Candidate(n, env) else n.pin
  }

  /** sentinel.conf carries the staged password from this boot on. */
  predicate Completes(n: Node, p: Password) {
    n.journal.Some? && p == n.journal.value.target
  }

  /** `proven` is the outcome of the probe, which is only made for a candidate that
    * differs from the pin. */
  function Boot(n: Node, env: Password, proven: bool): Node {
    var p := BootPassword(n, env, proven);
    var overlap := n.journal.Some? && p != n.journal.value.target;
    var conf := if proven || Completes(n, p) then RewrittenConf(p) else n.conf;
    Node(if overlap then {n.journal.value.current, n.journal.value.target} else {p},
         if overlap then n.journal.value.target else p,
         p, p, n.journal, conf, conf)
  }

  /** What a boot that keeps the pin starts Sentinel with. */
  function Stored(n: Node): Creds {
    if Completes(n, n.pin) then RewrittenConf(n.pin) else n.conf
  }

  /** A boot killed between writing redis.conf and starting Sentinel, before or after it has
    * rewritten sentinel.conf. A Sentinel that does not run stands for the one that the next
    * boot starts if it keeps the pin. */
  function InterruptedBoot(n: Node, env: Password, proven: bool, rewritten: bool): Node {
    var booted := Boot(n, env, proven);
    var dead := n.(pin := booted.pin, conf := if rewritten then booted.conf else n.conf);
    dead.(sentinel := Stored(dead))
  }

  // ----- one node, with its state changed in place ----------------------------------

  class Member {
    var dataAccepts: set<Password>
    var masterauth: Password
    var requirepass: Password
    var pin: Password
    var journal: Option<Journal>
    var sentinel: Creds
    var conf: Creds

    function Abs(): Node
      reads this
    {
      Node(dataAccepts, masterauth, requirepass, pin, journal, sentinel, conf)
    }

    /** The node of a cluster that has used one password since its first boot. */
    constructor (p: Password)
      ensures Abs() == Settled(p)
    {
      dataAccepts, masterauth, requirepass, pin := {p}, p, p, p;
      journal, sentinel, conf := None, Creds({p}, p, p), Creds({p}, p, p);
    }

    /** The data half of PREPARE, with the `stop`-th command failing if there is one. */
    method PrepareData(j: Journal, stop: nat) returns (ok: bool)
      modifies this
      ensures ok == (stop >= 4)
      ensures Abs() == ExecAll(old(Abs()), PrepareDataCommands(j)[..if ok then 4 else stop])
    {
      ghost var n, cs := Abs(), PrepareDataCommands(j);
      if stop == 0 { return false; }
      journal := Some(j);
      assert Abs() == ExecAll(n, cs[..1]) by { ExecNext(n, cs, 0); }
      if stop == 1 { return false; }
      dataAccepts := dataAccepts + {j.target};
      assert Abs() == ExecAll(n, cs[..2]) by { ExecNext(n, cs, 1); }
      if stop == 2 { return false; }
      masterauth := j.target;
      assert Abs() == ExecAll(n, cs[..3]) by { ExecNext(n, cs, 2); }
      if stop == 3 { return false; }
      pin := requirepass;
      assert Abs() == ExecAll(n, cs[..4]) by { ExecNext(n, cs, 3); }
      return true;
    }

    /** The Sentinel half of PREPARE. */
    method PrepareSentinel(j: Journal, stop: nat) returns (ok: bool)
      modifies this
      ensures ok == (stop >= 4)
      ensures Abs() == ExecAll(old(Abs()), PrepareSentinelCommands(j)[..if ok then 4 else stop])
    {
      ghost var n, cs := Abs(), PrepareSentinelCommands(j);
      if stop == 0 { return false; }
      sentinel := sentinel.(accepts := sentinel.accepts + {j.target});
      assert Abs() == ExecAll(n, cs[..1]) by { ExecNext(n, cs, 0); }
      if stop == 1 { return false; }
      sentinel := sentinel.(pass := j.target);
      conf := sentinel;
      assert Abs() == ExecAll(n, cs[..2]) by { ExecNext(n, cs, 1); }
      if stop == 2 { return false; }
      sentinel := sentinel.(authPass := j.target);
      conf := sentinel;
      assert Abs() == ExecAll(n, cs[..3]) by { ExecNext(n, cs, 2); }
      if stop == 3 { return false; }
      conf := sentinel;
      assert Abs() == ExecAll(n, cs[..4]) by { ExecNext(n, cs, 3); }
      return true;
    }

    /** PREPARE, with the `stop`-th command failing if there is one. */
    method Prepare(j: Journal, stop: nat) returns (ok: bool)
      modifies this
      ensures ok == (stop >= 8)
      ensures Abs() == ExecAll(old(Abs()), PrepareCommands(j)[..if ok then 8 else stop])
    {
      ghost var n, data, rest := Abs(), PrepareDataCommands(j), PrepareSentinelCommands(j);
      ok := PrepareData(j, stop);
      if !ok {
        assert PrepareCommands(j)[..stop] == data[..stop];
        return;
      }
      assert data[..4] == data;
      ok := PrepareSentinel(j, stop - 4);
      ghost var k := if ok then 4 else stop - 4;
      ExecConcat(n, data, rest[..k]);
      assert PrepareCommands(j)[..4 + k] == data + rest[..k];
    }

    /** One reconcile pass over what it could read: the planned repairs and the flush, in
      * order, up to a failure after `stop` commands. A pass that fails reports nothing. */
    method ReconcileOnce(seen: Observed, stop: nat)
      modifies this
      ensures var cs := ReconcileCommands(old(Abs()), seen);
              Abs() == ExecAll(old(Abs()), if stop < |cs| then cs[..stop] else cs)
    {
      ghost var n, cs := Abs(), ReconcileCommands(Abs(), seen);
      var repairs := Plan(seen, pin, if journal.Some? then Some(journal.value.target) else None);
      if repairs == [] {
        return;
      }
      for k := 0 to |repairs|
        invariant k <= stop && Abs() == ExecAll(n, cs[..k])
      {
        if k == stop {
          return;
        }
        ApplyRepair(repairs[k]);
        ExecNext(n, cs, k);
      }
      if stop > |repairs| {
        conf := sentinel;
        ExecNext(n, cs, |repairs|);
        assert cs[..|repairs| + 1] == cs;
      }
    }

    method ApplyRepair(c: Command)
      requires c.AclAddSentinel? || c.SetSentinelPass? || c.SetAuthPass?
      modifies this
      ensures Abs() == Exec(old(Abs()), c)
    {
      match c
      case AclAddSentinel(p) => sentinel := sentinel.(accepts := sentinel.accepts + {p});
      case SetSentinelPass(p) =>
        sentinel := sentinel.(pass := p);
        conf := sentinel;
      case SetAuthPass(p) =>
        sentinel := sentinel.(authPass := p);
        conf := sentinel;
    }

    /** MEMBER, with the `stop`-th command failing if there is one: the new password on the
      * data side, Sentinel restarted on it unless it has moved already, one reconcile pass,
      * and the wait for the peers, which succeeds if they have `joined`. */
    method AdoptTarget(j: Journal, stop: nat, seen: Observed, joined: bool) returns (ok: bool)
      modifies this
      ensures ok == (stop >= 3 && joined)
      ensures stop < 3 ==> Abs() == ExecAll(old(Abs()), MemberCommands(j)[..stop])
      ensures stop >= 3 ==>
                var n := ExecAll(old(Abs()), MemberCommands(j));
                var cs := ReconcileCommands(n, seen);
                Abs() == ExecAll(n, if stop - 3 < |cs| then cs[..stop - 3] else cs)
    {
      ghost var n, cs := Abs(), MemberCommands(j);
      if stop == 0 { return false; }
      masterauth, requirepass, dataAccepts := j.target, j.target, {j.target};
      assert Abs() == ExecAll(n, cs[..1]) by { ExecNext(n, cs, 0); }
      if stop == 1 { return false; }
      pin := requirepass;
      assert Abs() == ExecAll(n, cs[..2]) by { ExecNext(n, cs, 1); }
      if stop == 2 { return false; }
      if j.target !in sentinel.accepts || (j.current != j.target && j.current in sentinel.accepts) {
        conf := RewrittenConf(pin);
        sentinel := conf;
      }
      assert cs[..3] == cs;
      assert Abs() == ExecAll(n, cs) by { ExecNext(n, cs, 2); }
      ReconcileOnce(seen, stop - 3);
      ok := joined;
    }

    /** VERIFY: the journal goes exactly when replication has caught up, Sentinel has its quorum,
      * and the node runs on the new password and refuses the old one; nothing else changes. */
    method Verify(j: Journal, replicated: bool, quorate: bool) returns (ok: bool)
      modifies this
      ensures ok <==> && replicated && quorate
                      && old(pin) == j.target && j.target in old(dataAccepts) && j.target in old(sentinel).accepts
                      && (j.current != j.target ==>
                            j.current !in old(dataAccepts) && j.current !in old(sentinel).accepts)
      ensures Abs() == old(Abs()).(journal := if ok then None else old(journal))
      ensures Abs() == ExecAll(old(Abs()), if replicated && quorate then VerifyCommands(j) else [])
    {
      ghost var n := Abs();
      if !replicated || !quorate {
        return false;
      }
      ok := j.target in dataAccepts && j.target in sentinel.accepts && pin == j.target
      && (j.current == j.target || (j.current !in dataAccepts && j.current !in sentinel.accepts));
      if ok {
        journal := None;
      }
      assert ExecAll(n, VerifyCommands(j)) == Exec(n, FinishVerify(j));
    }

    /** The boot sequence: adopt or keep the password, regenerate redis.conf (with the
      * staged overlap), rewrite sentinel.conf when due, start both servers. */
    method BootContainer(env: Password, proven: bool)
      requires proven ==> Candidate(Abs(), env) != pin
      modifies this
      ensures Abs() == Boot(old(Abs()), env, proven)
    {
      var password := pin;
      if proven {
        password := if journal.Some? then journal.value.target else env;
      }
      requirepass, pin, masterauth, dataAccepts := password, password, password, {password};
      if journal.Some? && password != journal.value.target {
        dataAccepts := {journal.value.current, journal.value.target};
        masterauth := journal.value.target;
      }
      if proven {
        conf := RewrittenConf(pin);
      }
      if journal.Some? && pin == journal.value.target {
        conf := RewrittenConf(pin);
      }
      sentinel := conf;
    }
  }

  function Settled(p: Password): Node {
    Node({p}, p, p, p, None, Creds({p}, p, p), Creds({p}, p, p))
  }

  lemma {:induction false} ExecSnoc(n: Node, cs: seq<Command>, c: Command)
    ensures ExecAll(n, cs + [c]) == Exec(ExecAll(n, cs), c)
    decreases |cs|
  {
    if cs != [] {
      assert (cs + [c])[1..] == cs[1..] + [c];
      ExecSnoc(Exec(n, cs[0]), cs[1..], c);
    }
  }

  lemma {:induction false} ExecConcat(n: Node, cs: seq<Command>, ds: seq<Command>)
    ensures ExecAll(n, cs + ds) == ExecAll(ExecAll(n, cs), ds)
    decreases |cs|
  {
    if cs == [] {
      assert cs + ds == ds;
    } else {
      assert (cs + ds)[1..] == cs[1..] + ds;
      ExecConcat(Exec(n, cs[0]), cs[1..], ds);
    }
  }

  lemma ExecNext(n: Node, cs: seq<Command>, k: nat)
    requires k < |cs|
    ensures ExecAll(n, cs[..k + 1]) == Exec(ExecAll(n, cs[..k]), cs[k])
  {
    assert cs[..k + 1] == cs[..k] + [cs[k]];
    ExecSnoc(n, cs[..k], cs[k]);
  }

  lemma ExecFour(n: Node, a: Command, b: Command, c: Command, d: Command)
    ensures ExecAll(n, [a, b, c, d]) == Exec(Exec(Exec(Exec(n, a), b), c), d)
  {
    ExecSnoc(n, [a, b, c], d);
    ExecSnoc(n, [a, b], c);
    ExecSnoc(n, [a], b);
    ExecSnoc(n, [], a);
    assert [a, b, c, d] == [a, b, c] + [d] && [a, b, c] == [a, b] + [c] && [a, b] == [a] + [b] && [a] == [] + [a];
  }

  /** The shape a member of an ordinary cluster has after PREPARE. */
  lemma PreparedNode(j: Journal)
    ensures var both := Creds({j.current, j.target}, j.target, j.target);
            ExecAll(Settled(j.current), PrepareCommands(j))
            == Node({j.current, j.target}, j.target, j.current, j.current, Some(j), both, both)
  {
    var n, t := Settled(j.current), j.target;
    ExecConcat(n, PrepareDataCommands(j), PrepareSentinelCommands(j));
    ExecFour(n, WriteJournal(j), AclAddData(t), SetMasterauth(t), RewriteConfig);
    ExecFour(ExecAll(n, PrepareDataCommands(j)), AclAddSentinel(t), SetSentinelPass(t), SetAuthPass(t), FlushConfig);
  }
}
