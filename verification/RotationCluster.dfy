/** A rotation from `j.current` to `j.target` over a whole cluster, command by command: the
  * events of a run and the two promises, overlap during PREPARE and acceptance after it. */
module RotationCluster {
  import opened Wrappers
  import opened Rotation

  /** A node, the rest of the operation that holds its rotation lock, and whether its
    * servers run. */
  datatype Process = Process(node: Node, pending: seq<Command>, up: bool)

  type Cluster = seq<Process>

  datatype Operation = Prepare | Member | Verify

  datatype Event =
    | Start(i: nat, op: Operation)
    | Advance(i: nat)
    | Abort(i: nat)
    | Tick(i: nat, seen: Observed)
    | Restart(i: nat, env: Password, proven: bool)
    | Interrupt(i: nat, env: Password, proven: bool, rewritten: bool)

  function Commands(op: Operation, j: Journal): seq<Command> {
    match op
    case Prepare => PrepareCommands(j)
    case Member => MemberCommands(j)
    case Verify => VerifyCommands(j)
  }

  /** A live Sentinel accepts `p` and names a live node whose Redis accepts it too. */
  ghost predicate ProbeSucceeds(c: Cluster, i: nat, p: Password) {
    exists s, m :: 0 <= s < |c| && 0 <= m < |c| && s != i && m != i && c[s].up && c[m].up
                   && p in c[s].node.sentinel.accepts && p in c[m].node.dataAccepts
  }

  ghost predicate BootPossible(c: Cluster, i: nat, env: Password, proven: bool)
    requires i < |c|
  {
    var candidate := Candidate(c[i].node, env);
    proven ==> candidate != c[i].node.pin && ProbeSucceeds(c, i, candidate)
  }

  ghost predicate Enabled(c: Cluster, e: Event) {
    && e.i < |c|
    && match e
       case Start(i, _) => c[i].up && c[i].pending == []
       case Advance(i) => c[i].up && c[i].pending != []
       case Abort(i) => true
       case Tick(i, seen) => c[i].up && c[i].pending == [] && Shows(c[i].node, seen)
       case Restart(i, env, proven) => BootPossible(c, i, env, proven)
       case Interrupt(i, env, proven, _) => BootPossible(c, i, env, proven)
  }

  function Step(j: Journal, p: Process, e: Event): Process {
    match e
    case Start(_, op) => p.(pending := Commands(op, j))
    case Advance(_) => if p.pending == [] then p else Process(Exec(p.node, p.pending[0]), p.pending[1..], p.up)
    case Abort(_) => p.(pending := [])
    case Tick(_, seen) => p.(pending := ReconcileCommands(p.node, seen))
    case Restart(_, env, proven) => Process(Boot(p.node, env, proven), [], true)
    case Interrupt(_, env, proven, rewritten) => Process(InterruptedBoot(p.node, env, proven, rewritten), [], false)
  }

  function Apply(j: Journal, c: Cluster, e: Event): Cluster
    requires e.i < |c|
  {
    c[e.i := Step(j, c[e.i], e)]
  }

  // ----- what is promised ----------------------------------------------------------

  /** One of two Sentinels can authenticate to the other. */
  predicate Meets(a: Creds, b: Creds) {
    a.pass in b.accepts || b.pass in a.accepts
  }

  ghost predicate PairwiseOverlap(c: Cluster) {
    forall x, y | 0 <= x < |c| && 0 <= y < |c| && x != y :: Meets(c[x].node.sentinel, c[y].node.sentinel)
  }

  ghost predicate EveryCredentialAccepted(c: Cluster) {
    forall x, y | 0 <= x < |c| && 0 <= y < |c| ::
      && c[x].node.masterauth in c[y].node.dataAccepts
      && c[x].node.sentinel.pass in c[y].node.sentinel.accepts
      && c[x].node.sentinel.authPass in c[y].node.dataAccepts
  }
}
