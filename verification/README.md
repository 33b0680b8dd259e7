# Models and proofs for redis-sentinel

This project models the decision logic of the `redis-sentinel` crate in Dafny and proves what
its comments and tests promise: that a partition never leaves two writable sides, that a
password rotation never locks the nodes out of each other, that an empty node is never
promoted, that files survive crashes whole, and that its codecs and rewriters round-trip.

Run `dafny verify dfyconfig.toml` to check everything.

## How it is built

| files | subject |
|---|---|
| `Quorum`, `QuorumHistory`, `DriftHistory`, `QuorumMajority`, `Partition` | the quorum-sync watcher, its justification over whole histories, and a cluster of them under a partition |
| `Rotation`, `RotationCluster`, `RotationOverlap`, `RotationSafety`, `RotationVerify` | PREPARE, MEMBER, VERIFY, reconcile ticks and boots, command by command, on any number of nodes |
| `SyncGate`, `BootRole`, `BootEnding`, `Tally`, `HostNames` | the first-sync gate over many boots, boot-time role resolution and how every boot ends, the two vote tallies, spellings of a host |
| `LinkHeal`, `LinkHealHistory`, `LinkHealDecision`, `GhostMaster`, `RollingWindow` | the two limiters that survive restarts |
| `PeerPins`, `HostsFile`, `Dns` | the pin table, the managed hosts block, the DNS codec of RFC 1035 |
| `ConfText`, `GeneratedConf`, `Rewriter`, `RewriterLaws`, `StagedConf` | quoting, generated files and their readers, rewriting credentials, the staged redis.conf |
| `RdbOwner`, `Adoption`, `AtomicWrite` | RDB ownership, choosing between RDB and AOF, the atomic write |
| `Switchover`, `SwitchoverPath` | the switchover handler and its settle watch as interleaved steps |
| `Text`, `Decimal`, `Wrappers` | the string and number functions the program takes from its standard library |

Code that updates state in place is a class or a method with loops, proved equal to a
specification function; the theorems are then about that function over whole runs. Network
replies, probe verdicts, clocks and failures are parameters with no restriction unless a
lemma names one. Rust `lines()`, `split_whitespace` and the number parsers are modelled as
documented, including `\r\n`, Unicode whitespace and the optional plus sign.

## Assumptions

- Redis and Sentinel commands are atomic and act in the order they are sent.
- A partition is fixed for the run, every fence has converged when it starts, `s_down` says
  exactly who is on another side, and restarts inside it may carry any quorum stamp except
  one low enough for the node's own side off the majority.
- A rotation is one pair of passwords over a fixed set of members. A Sentinel that does not
  run stands for the one its next boot starts if that boot keeps the pin.
- The disk loses, at a crash, any names changed since the last directory sync, independently
  of each other, and any data of files not synced; synced data stays.
- Times are unbounded integers; the clock does not go back where a lemma asks for it.

## Where the code does not keep the promise

The lemmas named give the exact condition under which the promise holds, a failing input, or both.

- **Switchover.** If Sentinel never shows the bias, the attempt empties the stash to restore
  the priority itself; the handler's timeout can drop it before the command lands, and the
  timeout arm then finds nothing to restore (`Switchover.TimeoutInsideTheRestoreKeepsTheBias`,
  `Switchover.OnlyTheTimeoutLosesThePriority`).
- **Switchover and the gate.** An unreadable `CONFIG GET` reply is read as priority 100, which
  passes the gate (`Switchover.GarbledReplyPassesTheGate`,
  `Switchover.GatedNodeIsNeverBiasedIff`) and is what the restore writes back
  (`Switchover.PriorityAfterwards`).
- **Sync gate.** A boot armed as master removes the pending marker before its server has
  started; a crash in between, over an empty manifest an earlier boot left, lets the next
  replica boot serve it at priority 100 (`SyncGate.HarmfulCrashUngatesABareNode`).
- **Rotation.** A node verified while another member still accepts the old password, then
  restarted with a variable that still carries it, goes back to the old password
  (`RotationSafety.VerifyBeforeTheLastMemberCanStrand`); a node that adopts the new password
  during PREPARE loses the pairs with members that do not accept it yet, at once or, if they
  do not accept it on disk, when they restart (`RotationOverlap.RunStaysLastingIffCareful`,
  `RotationOverlap.EarlyAdoptionCanLoseAPairLater`).
- **Ownership.** A crash between a save and the poll that records it leaves an RDB that counts as
  foreign; the next boot gives up a committed AOF for it exactly when no AOF file was written
  within the margin before the save, or after it (`Adoption.CrashIsAdoptedIff`,
  `Adoption.UnrecordedSaveCanWin`).
- **Boot role.** A `REPLICA_OF` that is set but is not host:port is neither a primary to the
  guard nor a replica to redis.conf (`BootRole.NoWipeIffReplicaOfParses`).
- **Rewriting.** A kept line that ends in a carriage return after line splitting loses one per
  rewrite (`RewriterLaws.DoubledReturnIsTakenTwice`).
- **Sentinel auth.** A password that starts with whitespace is enforced by the generated file
  but not seen by `conf_requires_auth` (`GeneratedConf.RequiresAuthIff`).
- **DNS.** Names of 254 and 255 characters are encoded beyond the 255 octets that section 2.3.4
  of RFC 1035 allows (`Dns.WireLimitIsMetUpTo253`).
- **Partition.** A restart inside a partition with a stale quorum stamp reopens the two-writer
  window until the watcher has dwelt, exactly when the stamp is no larger than the node's own
  side of two or more and some node of another side can admit writes at that moment: a
  majority, or, where the cut leaves no majority, a side that such a restart made writable
  before (`Partition.RestartReopensTheWindowIff`, `Partition.RestartBesideTheMajorityIff`).

## Model

| member | source | states |
|---|---|---|
| `Partition.NoTwoWritableSides` | redis-sentinel/src/quorum.rs:755-794 | Split-brain fence: over every run of polls, gossip, failed commands and restarts during one fixed partition that starts converged, no two sides are writable; a restart may carry any quorum stamp, except one that fits its own side off the majority side |
| `Partition.WritableExactlyOnMajoritySide` | redis-sentinel/src/quorum.rs:133-162 | In every reachable state a node that can collect the replicas its fence asks for is on a strict majority side, and every node there can, unless a majority-side node restarted with a stamp above its side’s size |
| `Partition.MinorityNeverResets` | redis-sentinel/src/quorum.rs:755-794 | The prune gate: a node without a live majority never sends SENTINEL RESET, whatever its windows hold, so its fence never shrinks |
| `Partition.RunKeepsInv` | redis-sentinel/src/quorum.rs:527-680 | The invariant of the partition kept by every run: minority nodes still know every member and their fence is above any replica count their side can reach; majority nodes never ask for more replicas than their side has while their restart stamps fit |
| `Partition.OneLowerIsUnsafe` | redis-sentinel/src/redis_conf.rs:224-236 | Majority − 1 is the least safe fence: for every odd membership of five or more, one lower leaves both sides of the cut writable |
| `Partition.RestartIsWritableIffStampFits` | redis-sentinel/src/redis_conf.rs:224-236 | For every stamp: a node restarted with it can admit writes if and only if its side has at least two members and the stamp is at most their number |
| `Partition.RestartReopensTheWindowIff` | redis-sentinel/src/redis_conf.rs:224-236 | In any state without two writable sides, whatever led to it: a restart makes two if and only if its stamp fits its own side and a node of another side can admit writes |
| `Partition.RestartBesideTheMajorityIff` | redis-sentinel/src/redis_conf.rs:224-236 | In every state that keeps the invariant, which every run reaches, that is: the restart is off the majority side, its stamp fits that side and the majority side is writable |
| `Partition.StaleStampReopensTheWindow` | redis-sentinel/src/redis_conf.rs:224-236 | An instance: five members cut two to three, and a founding node of a former three-member cluster restarting with quorum 2 |
| `Quorum.Watcher.Iteration` | redis-sentinel/src/quorum.rs:527-601 | One poll as the program runs it, updating its windows in place, leaves exactly the state and commands of the specification the history theorems are about |
| `Quorum.Watcher.StepPrune` | redis-sentinel/src/quorum.rs:266-281 | The in-place window update: windows exist afterwards exactly for the peers flagged down, old ones keep their start, and it reports whether one served the dwell |
| `Quorum.Watcher.StepGone` | redis-sentinel/src/quorum.rs:287-299 | The same for peers whose name is gone; any other verdict deletes the window |
| `Quorum.Watcher.SyncFenceNow` | redis-sentinel/src/quorum.rs:607-680 | The fence half of a poll: an unreadable fence clears the drift, a served drift sends the new value and clears only if the SET worked |
| `Quorum.Watcher.PruneDeadSentinels` | redis-sentinel/src/quorum.rs:719-836 | The prune half of a poll: the order of its tests, and that a failed RESET keeps the windows |
| `Quorum.Watcher.ClearObservations` | redis-sentinel/src/quorum.rs:365-370 | A failed observation forgets every window but not the last RESET |
| `QuorumHistory.ResetSentExactlyWhenDue` | redis-sentinel/src/quorum.rs:719-836 | For every history with a clock that does not go back, a RESET is sent at a poll if and only if some peer was down at every poll for the dwell, a live majority or gone names at every poll for the dwell allow it, the master is healthy and every earlier accepted RESET is the backoff behind |
| `QuorumHistory.EveryResetIsDue` | redis-sentinel/src/quorum.rs:308-321 | The forward half: a RESET implies all of that about the trace of polls, told without the watcher memory |
| `DriftHistory.WatcherSetsExactlyWhenDue` | redis-sentinel/src/quorum.rs:527-713 | For every history with a clock that does not go back, a quorum SET of v is sent at a poll if and only if that poll and every poll for the whole dwell before it wanted v, read something else and saw no SET accepted; the same for the fence |
| `DriftHistory.SetExactlyWhenDue` | redis-sentinel/src/quorum.rs:175-198 | The dwell rule itself, for any value: both directions over every sequence of polls |
| `DriftHistory.WatcherIsTwoChannels` | redis-sentinel/src/quorum.rs:607-713 | The watcher treats its two values as two independent uses of that rule, whatever else a poll does |
| `QuorumHistory.HistoryExplainsWindows` | redis-sentinel/src/quorum.rs:346-371 | Every open window stands for an uninterrupted run of polls in the history that began when it says |
| `QuorumMajority.QuorumSetIsTheMajority` | redis-sentinel/src/quorum.rs:133-139 | For every history with a clock that does not go back: a SET of quorum q is sent at a poll if and only if that poll and every poll for the dwell before it had a live peer, found q to be the smallest strict majority of this node and its live peers, but at least two, and read another quorum, and no SET was accepted among them; peers are counted row by row |
| `QuorumMajority.FenceSetIsBelowTheMajority` | redis-sentinel/src/quorum.rs:141-162 | The same for the fence: it is one below the smallest strict majority of all known members, live or not |
| `QuorumMajority.LivePlacesAreLivePeers` | redis-sentinel/src/quorum.rs:133-139 | Where ids are distinct, the rows counted are as many as the distinct live peers |
| `QuorumMajority.ResetSentByTheRows` | redis-sentinel/src/quorum.rs:719-836 | The RESET rule from the rows of the polls alone: who was flagged and whose name was gone at every poll for the dwell, and whether this node and its live peers are more than half of the members |
| `RotationOverlap.PrepareKeepsOneDirection` | redis-sentinel/src/credentials.rs:297-346 | During PREPARE, command by command and with refusals, retries, reconcile ticks, boots and boots that die interleaved on any number of nodes: as long as each event that settles a Sentinel on one password finds it accepted by every other Sentinel, live and stored, every two Sentinels can authenticate in at least one direction, now and after any restarts |
| `RotationOverlap.RunStaysLastingIffCareful` | redis-sentinel/src/credentials.rs:626-689 | That condition is exact: after any such run, whatever can happen next keeps the lasting overlap if and only if it meets the condition |
| `RotationOverlap.AdoptionLastsIff` | redis-sentinel/src/bin/redis_wrapper.rs:459-463 | The boots that adopt the new password: one that starts Sentinel, or dies after rewriting sentinel.conf, keeps the lasting overlap if and only if every other Sentinel accepts that password live and stored; one that dies with only redis.conf written, if and only if there is no journal or they do |
| `RotationOverlap.CarelessBootLosesAPair` | redis-sentinel/src/credentials.rs:626-689 | Any boot against the condition loses a pair at once or when one other member restarts with its pin |
| `RotationOverlap.PinKeepingRunIsCareful` | redis-sentinel/src/credentials.rs:610-621 | Runs whose boots prove nothing always meet the condition |
| `RotationOverlap.LastingIffAllFit` | redis-sentinel/src/credentials.rs:610-621 | The overlap outlasts every sequence of pin-keeping restarts if and only if every two members, each as it runs or as its next boot starts it, can authenticate in one direction |
| `RotationOverlap.EarlyAdoptionCanLoseAPair` | redis-sentinel/src/credentials.rs:626-689 | Counterexample: a run of PREPARE on one member of a settled cluster of three, after which another member whose variable was changed can restart and lose the third |
| `RotationOverlap.EarlyAdoptionCanLoseAPairLater` | redis-sentinel/src/credentials.rs:321-346 | Counterexample: a member five commands into PREPARE accepts the new password live but not on disk; the other adopts it, the overlap holds, and a pin-keeping restart of the first loses it |
| `RotationSafety.PrepareReachesTheBarrier` | redis-sentinel/src/credentials.rs:297-346 | From a settled cluster, in every interleaved run of PREPARE, ticks, retries and boots, adopting and dying ones included, in which each member has at some point executed a PREPARE to its end, every member is prepared and holds the journal |
| `RotationSafety.RotationKeepsAcceptance` | redis-sentinel/src/credentials.rs:297-468 | The whole rotation from a settled cluster: once every member has completed a PREPARE, in every state after any interleaving of MEMBER, VERIFY, ticks, retries and boots that adopt no third password, every credential is accepted by every node |
| `RotationSafety.OrderedRotationKeepsAcceptance` | redis-sentinel/src/credentials.rs:297-468 | The same with no condition on the variables, when VERIFY is held back until every MEMBER is done |
| `RotationSafety.EveryCredentialStaysAccepted` | redis-sentinel/src/credentials.rs:297-468 | Once all are prepared: in every state reached by any interleaving of MEMBER, VERIFY, reconcile ticks, retries and boots that do not adopt a third password, every masterauth, sentinel-pass and auth-pass is accepted by every node |
| `RotationSafety.BootKeepsAcceptanceIff` | redis-sentinel/src/credentials.rs:626-689 | A boot breaks that acceptance, by the next boot if it dies on the way, if and only if it adopts a password other than the new one: no journal left, a different variable, and a live Sentinel and primary that still accept it |
| `RotationSafety.BarrierOrderKeepsAcceptance` | redis-sentinel/src/credentials.rs:350-468 | With VERIFY and late journals held back until every MEMBER is done, acceptance holds for every run and every variable value |
| `RotationSafety.NothingElseIsProven` | redis-sentinel/src/credentials.rs:626-689 | Behind that barrier no boot can prove any password but the new one |
| `RotationSafety.VerifyBeforeTheLastMemberCanStrand` | redis-sentinel/src/credentials.rs:439-468 | Counterexample: one of two members verified first and then restarted with a variable that still carries the old password ends with a refused credential |
| `Rotation.Member.Prepare` | redis-sentinel/src/credentials.rs:297-346 | PREPARE on one node, stopped by a failure after any command, leaves exactly the effect of the commands sent so far |
| `Rotation.Member.PrepareData` | redis-sentinel/src/credentials.rs:298-320 | Its data half: journal first, then the ACL overlap, masterauth and the persisted conf |
| `Rotation.Member.PrepareSentinel` | redis-sentinel/src/credentials.rs:321-346 | Its Sentinel half: accept, dial peers, dial the master, flush |
| `Rotation.Member.AdoptTarget` | redis-sentinel/src/credentials.rs:350-437 | MEMBER on one node, stopped after any command: the Sentinel is rewritten and restarted unless it has moved already, then one reconcile pass runs, and the operation succeeds if the peers have joined |
| `Rotation.Member.ReconcileOnce` | redis-sentinel/src/credential_reconcile.rs:190-270 | A reconcile pass sends the planned repairs in order and then a flush, or nothing when there is none; a failure after any of them leaves the effect of those sent |
| `Rotation.Member.Verify` | redis-sentinel/src/credentials.rs:439-468 | VERIFY succeeds and deletes the journal, changing nothing else, if and only if replication has caught up, Sentinel has its quorum, and the node accepts the new password on both servers, pins it, and no longer accepts the old one |
| `Rotation.Member.BootContainer` | redis-sentinel/src/credentials.rs:574-621 | The container boot: which password it runs with, the overlap it stages, when sentinel.conf is rewritten |
| `Rotation.ExecConcat` | redis-sentinel/src/credentials.rs:283-475 | Commands act one after the other: an operation split at any point has the effect of its parts in order |
| `RotationSafety.ReconcileIsRunnable` | redis-sentinel/src/credential_reconcile.rs:90-109 | Whatever a reconcile tick could read, the repairs it plans, stopped anywhere, keep a prepared node prepared |
| `RotationOverlap.TickIsRunnable` | redis-sentinel/src/credential_reconcile.rs:90-109 | The same on a node still on its way through PREPARE |
| `RotationVerify.NoJournalDropsOverTheOldPassword` | redis-sentinel/src/credentials.rs:439-468 | In every run of a rotation, whatever it interleaves: an event that drops a journal is a command of an operation, and finds that node pinned to the new password, accepting it on both servers, and refusing the old one on both |
| `RotationVerify.MemberLeavesOnlyTarget` | redis-sentinel/src/credentials.rs:350-389 | MEMBER run to its end leaves the new password alone on the data side, and Sentinel restarted on it alone unless it had moved already |
| `RotationVerify.VerifySucceedsAfterMember` | redis-sentinel/src/credentials.rs:350-468 | On any node that holds the journal and has run MEMBER to its end, with the reconcile pass after it stopped anywhere, the command of VERIFY drops the journal and changes nothing else |
| `RotationVerify.PassRepairsWhatDiffers` | redis-sentinel/src/credential_reconcile.rs:90-109 | A reconcile pass sends nothing if and only if nothing it read differs; run to its end it leaves the pin accepted, each value it read acceptable or as wanted, and all else as it was |
| `SyncGate.EmptyNodeIsNeverACandidate` | redis-sentinel/src/sync_gate.rs:119-199 | Over every run of boots, server starts, syncs, lifts, switchovers and crashes from any volume: while the node is empty it runs only as a replica at priority 0, and a volume that looks loadable carries the pending marker |
| `SyncGate.OnlyASyncOrAMasterBootLiftsTheGate` | redis-sentinel/src/sync_gate.rs:306-354 | A gated node found off priority 0, or a master, has completed a sync or has been armed or run as a master |
| `SyncGate.RunKeepsGuard` | redis-sentinel/src/sync_gate.rs:222-230 | The invariant behind it, through every step of boot, watcher and switchover |
| `SyncGate.HarmfulCrashUngatesABareNode` | redis-sentinel/src/sync_gate.rs:151-199 | Wherever a run has a boot armed as master over a volume that looks loadable, and the node never synced, never ran as master and did not start from a real dataset: a crash there and one boot as replica end at priority 100, still never synced |
| `SyncGate.HarmfulCrashIsReachable` | redis-sentinel/src/sync_gate.rs:151-199 | A blank volume reaches such a crash in two boots |
| `SyncGate.OnePollLiftsASyncedReplica` | redis-sentinel/src/sync_gate.rs:306-354 | One poll of the watcher on a gated replica whose link is up restores priority 100 and then removes the marker |
| `SyncGate.PollEnds` | redis-sentinel/src/sync_gate.rs:306-354 | How one poll of the watcher ends on every node: lift, watch on, or leave, with the marker kept on a replica that somebody else has given a priority |
| `SyncGate.GatedServerIsWatched` | redis-sentinel/src/sync_gate.rs:222-260 | Over every run from every volume: a server at priority 0 is a replica whose watcher is still watching, untouched by any switchover |
| `SyncGate.SetPrioritySurvivesTheWatcher` | redis-sentinel/src/sync_gate.rs:306-354 | Over every run of the watcher and its server, a priority other than 0 that nobody changes is never overwritten by the watcher |
| `SyncGate.SparedEmptyNodeIsNeverACandidate` | redis-sentinel/src/sync_gate.rs:151-199 | On every run without a crash of exactly that kind, a running node that never synced, never ran as master and did not start from a real dataset is a replica at priority 0 with the marker present |
| `SyncGate.DataDir.Arm` | redis-sentinel/src/sync_gate.rs:151-190 | Arming returns the decision and leaves the marker present exactly when the boot is gated |
| `BootRole.EmptyBootEndsSafely` | redis-sentinel/src/boot_role.rs:845-876 | For every volume without a dataset and every peer and probe answer, with well-formed REPLICA_OF: refused, or a replica at priority 0, or a master that neither conf nor vetted peers named, or alone |
| `BootRole.NoWipeIffReplicaOfParses` | redis-sentinel/src/redis_conf.rs:197-222 | The wipe can be staged in some world if and only if REPLICA_OF is set to something that is not host:port while peers are configured |
| `BootRole.EndingWithAMalformedReplicaOf` | redis-sentinel/src/boot_role.rs:845-862 | With such a REPLICA_OF, the worlds that stage it are exactly those without a dataset and without local state where a vetted peer majority names this node |
| `BootRole.ResolutionEvidence` | redis-sentinel/src/boot_role.rs:587-682 | What the two evidence flags mean in each resolved role |
| `BootRole.BootMasterForThisBoot` | redis-sentinel/src/boot_role.rs:587-682 | Role resolution as it runs: local state, the self-master cross-check, then the peers |
| `BootRole.ContradictedMasterBootsAsReplica` | redis-sentinel/src/boot_role.rs:755-791 | A node whose conf still names itself boots as a replica of the master a vetted peer majority names |
| `BootEnding.NamedMasterIsFollowed` | redis-sentinel/src/boot_role.rs:602-630 | For every volume, REPLICA_OF, peer answer and kill switch of the guards: a node whose sentinel.conf names another address that the deployment names or that answers the probe boots as a replica of exactly that address, at priority 0 only without a dataset or with a first sync pending |
| `BootEnding.OwnConfEnds` | redis-sentinel/src/boot_role.rs:602-636 | A node whose sentinel.conf names itself follows the member most peers name, if it is another; else it is refused if it is empty with peers, and the master otherwise |
| `BootEnding.OtherConfEnds` | redis-sentinel/src/boot_role.rs:638-685 | Without a usable sentinel.conf, the member most peers name decides; if it is this node an empty primary is refused; else the deployment decides |
| `BootEnding.SwitchedOffEnds` | redis-sentinel/src/boot_role.rs:589-601 | With role resolution switched off the deployment decides, but an empty node that its conf names is refused when it has peers |
| `BootEnding.StandaloneEnds` | redis-sentinel/src/boot_role.rs:586-588 | Without Sentinel the deployment decides, with no gate |
| `BootEnding.GuardDecides` | redis-sentinel/src/boot_role.rs:845-863 | The guard lets every boot with a dataset or with nothing naming it proceed, and stops no volume without a peer to protect unless the peers name a primary |
| `BootEnding.MemberMeans` | redis-sentinel/src/boot_role.rs:415-436 | A member is a host named in SENTINEL_HOSTS, this node, the REPLICA_OF host, or an address that answers the probe while that is on |
| `BootEnding.PeersMeans` | redis-sentinel/src/boot_role.rs:441-483 | Peers exist if and only if some entry is a host and port of another host, and they name the earliest most-voted address of their answers |
| `BootEnding.HostPortIs` | redis-sentinel/src/redis_conf.rs:202-209 | What is read as host and port: a non-empty text up to the first colon and a port number after it |
| `HostNames.NormalisedHost` | redis-sentinel/src/boot_role.rs:139-141 | Whitespace around a host and final dots are dropped and ASCII capitals lowered, and nothing else |
| `HostNames.EveryTextIsPadded` | redis-sentinel/src/boot_role.rs:139-141 | Every text is a host with such padding, so that describes the normalisation of all of them |
| `HostNames.SameHostIff` | redis-sentinel/src/boot_role.rs:139-141 | Two unpadded hosts are one if and only if they agree but for case |
| `BootRole.DeclaredHosts` | redis-sentinel/src/boot_role.rs:166-180 | The loop lists every declared host once, normalised, and nothing else |
| `BootRole.DeclaredIsListed` | redis-sentinel/src/boot_role.rs:183-185 | The membership test agrees with that list for every spelling of a host |
| `Tally.TalliesAgree` | redis-sentinel/src/ghost_master.rs:193-209 | With no more answers than members, the stricter tally answers if and only if some address has at least two votes and more than half of the membership, and then both tallies give the same answer |
| `Tally.ConsensusIsUnique` | redis-sentinel/src/ghost_master.rs:193-209 | At most one address can be the consensus |
| `Tally.ConsensusMeans` | redis-sentinel/src/ghost_master.rs:187-223 | An answer given has at least two votes and more than half of the membership; where none is given no address has both |
| `Tally.MajorityAnswer` | redis-sentinel/src/boot_role.rs:462-480 | The loop returns an answer with the most votes up to normalisation, ties to the first seen, spelled as its first supporter spelled it |
| `Tally.ConsensusAnswer` | redis-sentinel/src/ghost_master.rs:193-209 | The loop returns a consensus in the spelling of its first supporter exactly when there is one; with no more answers than members that is the majority answer |
| `Tally.MajorityIsUnique` | redis-sentinel/src/boot_role.rs:462-480 | Most votes, then earliest seen, picks one address |
| `LinkHealHistory.LimiterHolds` | redis-sentinel/src/link_heal.rs:266-352 | Across restarts and crashes between any two file writes, those of an action and those of a recovery: between two recoveries any two commands are the backoff apart and no rolling window holds more than the cap |
| `LinkHealHistory.EventKeepsLimits` | redis-sentinel/src/link_heal.rs:480-535 | One event keeps the state file from under-reporting, with the two writes of an action and the two clears of a recovery as separate steps |
| `LinkHealHistory.EveryCommandIsJustified` | redis-sentinel/src/link_heal.rs:678-865 | Every command goes to a replica with no sync in flight, names Sentinel’s answer, and follows a full dwell in which every readable poll was stalled, or mismatched |
| `LinkHealHistory.CommandSentExactlyWhenDue` | redis-sentinel/src/link_heal.rs:266-352 | A command is sent if and only if one is due: a readable replica with no sync in flight and a target, stalled or mismatched at every readable poll for its dwell, and the attempts and last action the run wrote down within cap and backoff |
| `LinkHealHistory.CommandSentExactlyWhenDueBySent` | redis-sentinel/src/link_heal.rs:266-352 | Where no process died in the middle of an action, the same with cap and backoff counted over the commands sent since the last recovery |
| `LinkHealHistory.FileTellsTheRun` | redis-sentinel/src/link_heal.rs:480-535 | The state file holds exactly the attempts and the last action that the run wrote down since they were last cleared |
| `LinkHealHistory.HistoryExplainsWindows` | redis-sentinel/src/link_heal.rs:368-377 | Every open window stands for a run of polls of one process in which every readable one was stalled, or mismatched; failed connections neither open nor close it |
| `LinkHealHistory.RecordedFile` | redis-sentinel/src/link_heal.rs:480-535 | Recording an action makes it the last one and adds one attempt to every window that contains it |
| `LinkHealDecision.CommandIs` | redis-sentinel/src/link_heal.rs:323-351 | For every history: a command is REPLICAOF NO ONE if and only if Sentinel names this node, in any spelling, else it names exactly the address Sentinel does; its reason is a stall if and only if the link was down, with no sync, for the dwell |
| `LinkHealDecision.ReportIs` | redis-sentinel/src/link_heal.rs:274-292 | A recovery is reported if and only if a poll finds the replica up and attached where Sentinel says while an action is on record; giving up if and only if any other poll of a replica finds the attempts of the window at the cap |
| `LinkHealDecision.GaveUpIsRemembered` | redis-sentinel/src/link_heal.rs:286-292 | A process remembers that it gave up until a look at a replica finds room in the window again |
| `LinkHealDecision.OtherwiseItWaits` | redis-sentinel/src/link_heal.rs:294-321 | What is left waits while it backs off or something is wrong that no sync is mending |
| `LinkHealDecision.MismatchedIsAnother` | redis-sentinel/src/link_heal.rs:184-194 | Attached to the wrong master means following an address other than the one Sentinel names, spelling aside |
| `LinkHeal.Watcher.Iteration` | redis-sentinel/src/link_heal.rs:678-865 | One poll with its windows, flags and file updated in place equals the specification |
| `GhostMaster.RestartsAreCapped` | redis-sentinel/src/ghost_master.rs:308-328 | However often the process restarts, no rolling window holds more restarts than the cap |
| `GhostMaster.RestartExactlyWhenDue` | redis-sentinel/src/ghost_master.rs:231-244 | A restart is asked for if and only if one process confirmed the condition at every poll for its hold and the restarts of the last window, counted from the run, are below the cap |
| `GhostMaster.OtherwiseItGivesUpOrWaits` | redis-sentinel/src/ghost_master.rs:231-244 | The other decisions, both ways: it gives up exactly with the hold served and the cap reached, waits exactly while a confirmed condition has not served its hold, and else does nothing |
| `GhostMaster.GaveUpIsRemembered` | redis-sentinel/src/ghost_master.rs:231-244 | It remembers having given up exactly if it did at some poll of this process and of the episode still going on |
| `GhostMaster.EveryRestartServedItsHold` | redis-sentinel/src/ghost_master.rs:231-244 | Each restart follows confirmation at every poll of one process for dwell + rank × stagger |
| `GhostMaster.MarkersAreTheRestarts` | redis-sentinel/src/ghost_master.rs:308-328 | The marker file is the list of restarts asked for, oldest first |
| `GhostMaster.WindowIsExplained` | redis-sentinel/src/ghost_master.rs:556-624 | An open window stands for an uninterrupted run of confirmed polls |
| `GhostMaster.RanksAreStaggered` | redis-sentinel/src/ghost_master.rs:168-185 | Two declared replicas get different non-zero ranks, and every undeclared host ranks after them |
| `GhostMaster.SeedRankIs` | redis-sentinel/src/ghost_master.rs:168-185 | The primary has rank 0; a replica one more than the number of hosts the variable names before it, in its order, and a host it does not name comes after all |
| `GhostMaster.MergePeerAddrs` | redis-sentinel/src/ghost_master.rs:272-292 | The merged list holds every declared or known peer up to normalisation, once, and never this node |
| `GhostMaster.Watcher.Iteration` | redis-sentinel/src/ghost_master.rs:556-624 | One poll with its window, flag and marker file updated in place equals the specification |
| `PeerPins.TableRefinesHistory` | redis-sentinel/src/peer_pins.rs:185-257 | After any lookups of a name the table holds the sorted distinct addresses of its last answer that carried any, unless an absence outlived the expiry since |
| `PeerPins.DroppedExactlyWhenExpired` | redis-sentinel/src/peer_pins.rs:185-257 | A pin is dropped if and only if the answer is absent, addresses are held, and the first absence since they were given is the expiry or more ago; silence never drops |
| `PeerPins.SilenceIsReportedOnce` | redis-sentinel/src/peer_pins.rs:185-257 | A silent episode is reported exactly at its first lookup |
| `PeerPins.AbsenceIsReportedOnce` | redis-sentinel/src/peer_pins.rs:185-257 | An absent episode over held addresses is reported exactly once |
| `PeerPins.ReportsAre` | redis-sentinel/src/peer_pins.rs:185-256 | Everything an answer reports, in order and with its contents, told from the history: a changed set, the first silence, its end, the first absence and the drop |
| `PeerPins.NamesAreIndependent` | redis-sentinel/src/peer_pins.rs:185-257 | Lookups of other names do not change a name’s pin |
| `PeerPins.Pins.Observe` | redis-sentinel/src/peer_pins.rs:185-257 | The table entry updated in place equals the specification, events included |
| `PeerPins.SortDedup` | redis-sentinel/src/peer_pins.rs:262-281 | Rendering order: strictly ascending, same members |
| `PeerPins.AscendingIsUnique` | redis-sentinel/src/peer_pins.rs:262-281 | The ascending list of a set of addresses is unique, so an unchanged table renders identically |
| `HostsFile.LastSpliceWins` | redis-sentinel/src/peer_pins.rs:287-309 | For every file and any two blocks, the first of them rendered from hostname-shaped names: splicing one and then the other is splicing the other |
| `HostsFile.EmptySpliceRestores` | redis-sentinel/src/peer_pins.rs:287-309 | Splicing nothing over a spliced file gives back the lines outside the markers, the last one newline-terminated |
| `HostsFile.SpliceKeepsOutside` | redis-sentinel/src/peer_pins.rs:287-309 | Every line outside the markers survives a splice unchanged and in order |
| `HostsFile.OutsideIsUncovered` | redis-sentinel/src/peer_pins.rs:287-309 | The lines kept are exactly those that are no begin marker and have none before them without an end marker in between |
| `HostsFile.SpliceBlock` | redis-sentinel/src/peer_pins.rs:287-309 | The single pass with its in-block flag computes the splice |
| `HostsFile.RenderBlock` | redis-sentinel/src/peer_pins.rs:262-281 | The nested loops write the markers around one address-tab-name line per address, or nothing |
| `HostsFile.BlockMapsTheTable` | redis-sentinel/src/peer_pins.rs:262-281 | Read as a resolver does, line by line, the block pins each address of each entry, in order, to that entry’s name |
| `HostsFile.MarkersAreWellFormed` | redis-sentinel/src/peer_pins.rs:287-309 | The two marker lines of the program meet what the laws ask of markers |
| `Dns.WrittenReplyDecodes` | redis-sentinel/src/peer_pins.rs:422-474 | RFC 1035 sections 4.1.1 to 4.1.4: a successful response with any questions, any k records and any trailing sections decodes to exactly its A and AAAA addresses in order |
| `Dns.DecodedReplyWasWritten` | redis-sentinel/src/peer_pins.rs:422-474 | The converse: whatever decodes to records or to none is such a response, byte for byte |
| `Dns.DecodersAgree` | redis-sentinel/src/dns_probe.rs:191-203 | On every byte string the reply decoder says NxDomain if and only if the response-code probe reads 3, and Failed if and only if it reads another error |
| `Dns.SkipsWrittenName` | redis-sentinel/src/peer_pins.rs:407-418 | Skipping a name written anywhere stops exactly at its end |
| `Dns.SkippedIsName` | redis-sentinel/src/peer_pins.rs:407-418 | Wherever skipping stops, a well-formed name was passed |
| `Dns.QuestionReadsBack` | redis-sentinel/src/dns_probe.rs:164-187 | For every encodable name, skipping from octet 12 of the query stops exactly at QTYPE, followed by class IN |
| `Dns.QuestionIsTheName` | redis-sentinel/src/dns_probe.rs:164-187 | The parts on the wire, joined by dots, are the asked name without its final dot |
| `Dns.EncodeQuery` | redis-sentinel/src/dns_probe.rs:164-187 | A query is built exactly for the encodable names, with that layout |
| `Dns.WireLimitIsMetUpTo253` | redis-sentinel/src/dns_probe.rs:164-187 | Encoded names are two octets longer than their text: the 255-octet limit is met if and only if the text has at most 253, so texts of 254 and 255 are encoded beyond it |
| `Dns.Decode` | redis-sentinel/src/peer_pins.rs:422-474 | The decoding loops stay in bounds on every byte string, terminate and compute the specification |
| `Dns.WalkName` | redis-sentinel/src/peer_pins.rs:407-418 | The name loop stays in bounds, terminates and computes the specification |
| `Dns.BitsAreTheOctets` | redis-sentinel/src/peer_pins.rs:456-467 | The number an address is kept as determines its octets |
| `Dns.LookupVerdict` | redis-sentinel/src/peer_pins.rs:481-534 | From raw bytes to verdict: addresses if and only if a response carries one; absent if and only if none does and the name is denied or both types have no address; no answers are silence |
| `Dns.AddressesAreCarried` | redis-sentinel/src/peer_pins.rs:456-467 | The addresses decoded are those of the records of type 1 with four octets and of type 28 with sixteen, one each, in order, and no other record carries one |
| `Dns.QueryAsksOnce` | redis-sentinel/src/dns_probe.rs:164-187 | The query’s header carries the id, asks for recursion and counts one question and no records |
| `ConfText.UnquoteQuote` | redis-sentinel/src/redis_conf.rs:306-353 | Every value comes back from its quoted form |
| `ConfText.ValueStaysInside` | redis-sentinel/src/redis_conf.rs:341-353 | The first unescaped quote after the opening one is the closing one, whatever the value and whatever follows |
| `ConfText.QuoteConfValue` | redis-sentinel/src/redis_conf.rs:341-353 | The character loop computes the quoted form |
| `ConfText.UnquoteConfValue` | redis-sentinel/src/redis_conf.rs:306-322 | The character loop computes the inverse, with a lone trailing backslash dropped |
| `ConfText.RequirepassLineSets` | redis-sentinel/src/sentinel_conf.rs:34-44 | A written password line is seen as setting a password if and only if the password is not empty and does not start with whitespace |
| `GeneratedConf.PersistedPasswordReadsBack` | redis-sentinel/src/redis_conf.rs:286-301 | The next boot reads back the password a generated redis.conf carries, for every newline-free password and any other directives |
| `GeneratedConf.MonitorReadsBack` | redis-sentinel/src/boot_role.rs:114-134 | The monitor parser gets back the resolved master from a generated sentinel.conf, for every newline-free password |
| `GeneratedConf.RequiresAuthIff` | redis-sentinel/src/sentinel_conf.rs:34-44 | A generated sentinel.conf is seen as requiring auth if and only if its password is not empty and does not start with whitespace |
| `GeneratedConf.AuthPassReadsBack` | redis-sentinel/src/credential_reconcile.rs:113-127 | The reconcile loop reads the data password back from a generated sentinel.conf |
| `GeneratedConf.AuthLinesAre` | redis-sentinel/src/sentinel_conf.rs:126-132 | Without a password no line asks for one; with one it protects this Sentinel and is what it dials others with |
| `GeneratedConf.ReadsBackAsWritten` | redis-sentinel/src/sentinel_conf.rs:94-197 | The generated file reads back line by line |
| `GeneratedConf.GenerateSentinelConf` | redis-sentinel/src/sentinel_conf.rs:94-197 | The pushes and the known-sentinel loop produce that file |
| `GeneratedConf.SettingsReadBack` | redis-sentinel/src/sentinel_conf.rs:146-180 | Word by word the generated file gives Sentinel the resolved master with the configured quorum, and the configured times for it |
| `GeneratedConf.AnnouncementReadsBack` | redis-sentinel/src/sentinel_conf.rs:137-145 | It gives Sentinel its port and the name and port it announces |
| `GeneratedConf.HostnamesReadBack` | redis-sentinel/src/sentinel_conf.rs:132-135 | It makes Sentinel resolve and announce host names |
| `GeneratedConf.PeersReadBack` | redis-sentinel/src/sentinel_conf.rs:182-194 | One known-sentinel line for each entry that is a host and port, in order, and for no other |
| `GeneratedConf.MonitorsTheSource` | redis-sentinel/src/sentinel_conf.rs:99-103 | Sentinel monitors the very master redis.conf replicates from; a node that replicates from nobody as master or primary monitors itself |
| `RewriterLaws.SecondRewriteWins` | redis-sentinel/src/credentials.rs:488-559 | For every file, rewriting with one password and then another is rewriting with the other if and only if no kept line of the file ends in a carriage return |
| `RewriterLaws.DoubledReturnIsTakenTwice` | redis-sentinel/src/credentials.rs:488-559 | Counterexample: a kept line ended by two carriage returns |
| `RewriterLaws.LinesTwice` | redis-sentinel/src/credentials.rs:488-559 | On lines the law holds without exception |
| `RewriterLaws.OthersSurvive` | redis-sentinel/src/credentials.rs:488-559 | Every line that is no credential survives unchanged and in order |
| `RewriterLaws.EveryCredentialIsNew` | redis-sentinel/src/credentials.rs:488-559 | Every credential line carries the new secret as the readers understand it; a conf that requires auth names the outbound password; an open conf stays open |
| `RewriterLaws.ReconcileReadsNewPassword` | redis-sentinel/src/credential_reconcile.rs:113-127 | From the rewritten file the reconcile loop reads the new password for a master set if and only if the file had an auth-pass line for it |
| `RewriterLaws.AnswersOnlyForItsMaster` | redis-sentinel/src/credential_reconcile.rs:113-127 | The field-by-field reader answers only on lines the word-splitting rewrite treats as that master’s auth-pass |
| `RewriterLaws.KeywordsIgnoreCase` | redis-sentinel/src/credentials.rs:492-518 | Keywords are recognised in any case |
| `Rewriter.LineTwice` | redis-sentinel/src/credentials.rs:488-559 | A rewritten line is treated as its original was, and rewritten to the same |
| `Rewriter.UserLineReads` | redis-sentinel/src/credentials.rs:519-543 | The default user’s rule reads back as the kept permissions, a reset and the one new digest |
| `Rewriter.KeptAreTheOthers` | redis-sentinel/src/credentials.rs:524-535 | The rules kept are all but the password rules, in order |
| `Rewriter.RewriteSentinel` | redis-sentinel/src/credentials.rs:488-559 | The pass over the lines and the insertion compute the rewrite |
| `Rewriter.RewritePass` | redis-sentinel/src/credentials.rs:488-545 | The pass reports whether auth is required and whether the outbound password is named |
| `Rewriter.InsertAfterRequirepass` | redis-sentinel/src/credentials.rs:546-556 | The outbound password goes in just after the first requirepass line, or at the end |
| `StagedConf.StagingKeepsTheRest` | redis-sentinel/src/credentials.rs:584-606 | A staged redis.conf keeps every line that is neither the default user rule nor masterauth, in order; exactly one masterauth is left, last, with the new password |
| `StagedConf.OnlyPasswordsAreAdded` | redis-sentinel/src/credentials.rs:584-600 | The first rule of the default user is widened by the two passwords and nothing else, later rules stay; a file without one gets the unrestricted rule |
| `StagedConf.BothDigestsAreRead` | redis-sentinel/src/credentials.rs:586-600 | The widened rule reads as the old rule followed by both digests |
| `StagedConf.StagingKeepsThePin` | redis-sentinel/src/redis_conf.rs:286-301 | The persisted password read from the staged lines is the one read from the generated lines |
| `StagedConf.StagedConfig` | redis-sentinel/src/credentials.rs:574-607 | The search, the append and the retain compute the staged file; no journal, or a node already on the new password, leaves it unchanged |
| `RdbOwner.ParseOfRender` | redis-sentinel/src/rdb_owner.rs:79-103 | Every representable identity parses back from the text it renders to |
| `RdbOwner.RenderIsInjective` | redis-sentinel/src/rdb_owner.rs:79-84 | Two different saves never render alike |
| `RdbOwner.MarkerSays` | redis-sentinel/src/rdb_owner.rs:86-103 | A text records an identity if and only if its last time field and its last length field do and no field announces a value it does not carry |
| `RdbOwner.ParseIdentity` | redis-sentinel/src/rdb_owner.rs:86-103 | The field loop computes the parse, with early exit on a malformed field |
| `Adoption.AdoptionIsSticky` | redis-sentinel/src/redis_conf.rs:48-71 | Once a boot decides for the RDB, then after any boots, steps, saves, orphan files and crashes short of a manifest commit, the next boot decides for it again |
| `Adoption.NothingIsDeleted` | redis-sentinel/src/redis_conf.rs:134-189 | No append-only file on the volume, told apart by its inode, is deleted by these runs: it stays or is moved aside |
| `Adoption.OwnRdbNeverWins` | redis-sentinel/src/rdb_owner.rs:119-154 | Once a manifest has committed: over every run of saves, polls, appends, further commits, boots and crashes, short of a server crash over an unrecorded RDB that every AOF file is the margin older than, no boot adopts the RDB and nothing is moved aside |
| `Adoption.CrashIsAdoptedIff` | redis-sentinel/src/redis_conf.rs:48-71 | At any point of any such run, a crash makes the next boot give the AOF up if and only if it is such a crash |
| `Adoption.UnrecordedSaveCanWin` | redis-sentinel/src/redis_conf.rs:48-71 | Every running server with a readable AOF directory is one save away from such a crash |
| `Adoption.RecordedIsOwned` | redis-sentinel/src/rdb_owner.rs:135-154 | Right after a record the RDB is owned |
| `Adoption.RecordingFirstForgets` | redis-sentinel/src/bin/redis_wrapper.rs:357-399 | Why the order matters: recording before the quarantines would turn the same volume back to the stale AOF |
| `Adoption.NeedsRdbToAofMigration` | redis-sentinel/src/redis_conf.rs:48-71 | The decision: fails on anything that is not a regular file, else yes exactly when there is no committed AOF or the RDB is not owned and every AOF file is the margin older |
| `Adoption.NewestAofWrite` | redis-sentinel/src/redis_conf.rs:93-115 | The scan fails exactly on an empty listing or an irregular entry, and otherwise returns the greatest time |
| `Adoption.DataDir.PrepareAdoption` | redis-sentinel/src/redis_conf.rs:134-161 | The two quarantines move at most one directory under one name and leave none; a failure leaves the volume as it was |
| `Adoption.DataDir.QuarantineManifestlessAofDir` | redis-sentinel/src/redis_conf.rs:134-143 | Moves a directory without manifest aside, and nothing else |
| `Adoption.DataDir.QuarantineStaleAofDir` | redis-sentinel/src/redis_conf.rs:154-161 | Moves a committed directory aside, and nothing else |
| `Adoption.DataDir.RenameAofDirAside` | redis-sentinel/src/redis_conf.rs:166-189 | The rename, refused onto a directory that holds files |
| `Adoption.DataDir.RecordRdb` | redis-sentinel/src/rdb_owner.rs:135-154 | Writes the marker only when the identity changed and removes it when there is no RDB |
| `AtomicWrite.EveryCrashLeavesAWholeVersion` | redis-sentinel/src/atomic_write.rs:35-84 | Over every run of writes, faults and crashes at any effect, with names and unsynced data lost independently: the file comes back complete, as the last write that returned success or one begun since |
| `AtomicWrite.SuccessIsDurable` | redis-sentinel/src/atomic_write.rs:35-84 | After a write returned success every crash comes back to it until another write begins |
| `AtomicWrite.FileSystem.WriteAtomic` | redis-sentinel/src/atomic_write.rs:35-84 | For every disk and stale temporary file and every failing effect: it succeeds if and only if no effect it needs fails; a new target has the mode asked for from its first moment; every state on the way survives a crash, success leaves only the new contents with the mode asked for, failure before the directory sync leaves the target untouched and removes the temporary file |
| `AtomicWrite.CrashSurvives` | redis-sentinel/src/atomic_write.rs:35-84 | A crash of a surviving state reads as one of its versions |
| `AtomicWrite.UndisturbedWriteSucceeds` | redis-sentinel/src/atomic_write.rs:35-84 | A write that nothing disturbs returns success after its seven effects and not before |
| `Switchover.OneAttemptAtATime` | redis-sentinel/src/health_server.rs:939-986 | In every interleaving of requests, replies, timeouts and settle watches: at most one attempt, the latch held exactly while one is active, a free latch means an empty stash, and every stashed priority is taken exactly once |
| `Switchover.PriorityAfterwards` | redis-sentinel/src/health_server.rs:845-937 | When an attempt frees the latch, with nobody else setting the priority: the stash is empty, and the priority is the one before if and only if nothing was stashed, or the write-back landed and the priority had been read or is the default, or neither bias nor write-back landed or the bias is what it was; otherwise it is the bias after a lost write-back and the default after an unreadable read |
| `Switchover.OnlyTheTimeoutLosesThePriority` | redis-sentinel/src/health_server.rs:817-839 | With the priority readable and no write-back refused or lost, the priority comes back if and only if no timeout caught this attempt between its own take and its CONFIG SET, or it was the bias already |
| `Switchover.TimeoutInsideTheRestoreKeepsTheBias` | redis-sentinel/src/health_server.rs:970-985 | Counterexample run: the bias stays for good |
| `Switchover.GatedNodeIsNeverBiasedIff` | redis-sentinel/src/health_server.rs:862-886 | For every run: a gated node keeps priority 0 and an empty stash at every moment if and only if no attempt’s read of the priority comes back unreadable |
| `Switchover.GarbledReplyPassesTheGate` | redis-sentinel/src/health_server.rs:730-733 | Counterexample: an unreadable CONFIG GET reply reads as 100 and a gated node is biased |
| `SwitchoverPath.HandsOverIff` | redis-sentinel/src/health_server.rs:890-958 | For every run, once its visibility wait and FAILOVER are answered an attempt stands at the settle watch, with the bias in place and the priority it read stashed, if and only if none of its own steps failed, timed out or found this node master and that priority may be promoted |
| `SwitchoverPath.FailoverIsSentIff` | redis-sentinel/src/health_server.rs:890-911 | An attempt is about to send SENTINEL FAILOVER if and only if its first six replies all let it go on and the priority it read may be promoted |

## Left out

- Network and process I/O: sockets, the Redis client, HTTP routing, signals and task spawning are replies, events or nothing.
- Redis and Sentinel internals: elections, replication offsets and ACL parsing beyond which passwords a rule accepts.
- `common`, HAProxy templates, telemetry, logging and their rate limits.
- Environment reading, cgroup probing and defaults in `config.rs`; only the fields the modelled code reads are kept.
- Password and API credential hashing: a digest is an opaque text without whitespace.
- `volume_lock.rs`, `demote_on_shutdown.rs`, `sentinel_auth.rs`, `process_manager.rs`, `haproxy`: short boolean tables or supervision.
- The health endpoints other than the switchover, and `silent_sentinel_decision`: boolean tables over readings.
- Cancellation of a handler whose client disconnects: the switchover model knows the timeout only.
- File writes whose failure is only logged (pending marker, state file, marker files, RDB owner) succeed in the models.
- Saturating and wrapping of 64-bit time arithmetic; times are unbounded.
- The observation chain of the ghost-master watcher is one verdict per poll; only the tally and the peer merge inside it are modelled.
- Parsing of INFO replies and of Sentinel field lists: an observation arrives with its fields already read.
- `pinnable_host` and IP literals: the pin table takes names as given and the hosts block takes hostname-shaped ones.
- The JSON of the rotation journal: a journal is there with its two passwords, or not.
- The directives of redis.conf other than port and password, and the parts of redis-wrapper's boot that no modelled promise depends on.
- Reads and writes of the files a codec works on; the codecs are modelled on their contents.
- Two rotations at once, and members that join or leave during one.
- A symbolic link in place of `appendonlydir` is taken for a path that cannot be inspected.
- What Redis itself does to its append-only files after a manifest commit.
- Text encoding in DNS names: they are octets, which the program splits at the ASCII dot.
