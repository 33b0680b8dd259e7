/** Replacing a file through a temporary one: which contents the name can have after a crash
  * at any point, when nothing reaches the disk before it is synced. */
module AtomicWrite {
  import opened Wrappers

  /** An inode. `clean`: its data is on the disk; otherwise a crash leaves anything there. */
  datatype Node = Node(data: string, clean: bool, mode: nat)

  /** The two names as they read now, and `targets`: every inode the target name may turn
    * out to mean if the machine dies now, which is each one since the directory was synced. */
  datatype Disk = Disk(nodes: map<nat, Node>, target: Option<nat>, temp: Option<nat>, next: nat,
                       targets: set<Option<nat>>)

  ghost predicate Valid(d: Disk) {
    && (forall id | id in d.nodes :: id < d.next)
    && d.target in d.targets
    && (forall c | c in d.targets :: c.Some? ==> c.value in d.nodes)
    && (d.temp.Some? ==> d.temp.value in d.nodes)
  }

  /** What a name meaning `c` reads as. */
  function Read(d: Disk, c: Option<nat>): Option<string> {
    if c.Some? && c.value in d.nodes then Some(d.nodes[c.value].data) else None
  }

  /** Whatever the target name turns out to mean, it reads as one of `versions`, complete. */
  ghost predicate Survives(d: Disk, versions: iset<Option<string>>) {
    && Valid(d)
    && forall c | c in d.targets :: Read(d, c) in versions && (c.Some? ==> d.nodes[c.value].clean)
  }

  // ----- the effects -------------------------------------------------------------------

  datatype Op = Remove | Create(mode: nat) | Chmod(mode: nat) | Write(text: string) | SyncFile | Rename | SyncDir

  function OnTemp(d: Disk, node: Node): Disk {
    if d.temp.Some? then d.(nodes := d.nodes[d.temp.value := node]) else d
  }

  function Apply(d: Disk, op: Op): Disk {
    var open := if d.temp.Some? && d.temp.value in d.nodes then d.nodes[d.temp.value] else Node("", false, 0);
    match op
    case Remove => d.(temp := None)
    case Create(mode) =>
      if d.temp.Some? then d
      else d.(nodes := d.nodes[d.next := Node("", false, mode)], temp := Some(d.next), next := d.next + 1)
    case Chmod(mode) => OnTemp(d, open.(mode := mode))
    case Write(text) => OnTemp(d, Node(open.data + text, false, open.mode))
    case SyncFile => OnTemp(d, open.(clean := true))
    case Rename => if d.temp.Some? then d.(target := d.temp, temp := None, targets := d.targets + {d.temp}) else d
    case SyncDir => d.(targets := {d.target})
  }

  /** What one crash loses: the meaning each name falls back to, and what unsynced inodes
    * hold afterwards. The two names fall back independently of each other. */
  datatype Loss = Loss(target: Option<nat>, temp: Option<nat>, data: map<nat, string>)

  function Crash(d: Disk, loss: Loss): Disk {
    var target := if loss.target in d.targets then loss.target else d.target;
    d.(nodes := map id | id in d.nodes ::
                  if d.nodes[id].clean then d.nodes[id]
                  else Node(if id in loss.data then loss.data[id] else "", true, d.nodes[id].mode),
       target := target,
       temp := if loss.temp.Some? && loss.temp.value in d.nodes then loss.temp else None,
       targets := {target})
  }

  lemma CrashSurvives(d: Disk, loss: Loss, versions: iset<Option<string>>)
    requires Survives(d, versions)
    ensures Survives(Crash(d, loss), versions)
    ensures Read(Crash(d, loss), Crash(d, loss).target) in versions
  {
  }

  // ----- where an attempt stands ------------------------------------------------------------

  datatype Stage = Idle | Cleared | Created | Opened | Filled | Synced | Renamed | Durable

  /** The temporary name is an inode the target name cannot turn out to mean. */
  predicate Private(d: Disk) {
    d.temp.Some? && d.temp !in d.targets && d.temp.value in d.nodes
  }

  function Temp(d: Disk): Node
    requires Private(d)
  {
    d.nodes[d.temp.value]
  }

  /** Before the rename the target is what it was; from the rename to the directory sync it
    * may be the new contents; after the sync it is. */
  ghost predicate Staged(d: Disk, stage: Stage, versions: iset<Option<string>>, contents: string) {
    match stage
    case Idle => Survives(d, versions)
    case Cleared => Survives(d, versions) && d.temp.None?
    case Created => Survives(d, versions) && Private(d) && Temp(d).data == ""
    case Opened => Survives(d, versions) && Private(d) && Temp(d).data == ""
    case Filled => Survives(d, versions) && Private(d) && Temp(d).data == contents
    case Synced => Survives(d, versions) && Private(d) && Temp(d).data == contents && Temp(d).clean
    case Renamed => Survives(d, versions + iset{Some(contents)}) && Read(d, d.target) == Some(contents)
    case Durable => Survives(d, iset{Some(contents)})
  }

  /** The target still means and reads the same. */
  predicate Untouched(before: Disk, after: Disk) {
    after.target == before.target && Read(after, after.target) == Read(before, before.target)
  }

  lemma RemoveStages(d: Disk, versions: iset<Option<string>>, contents: string)
    requires Survives(d, versions)
    ensures Staged(Apply(d, Remove), Cleared, versions, contents)
    ensures Untouched(d, Apply(d, Remove))
  {
  }

  lemma CreateStages(d: Disk, mode: nat, versions: iset<Option<string>>, contents: string)
    requires Staged(d, Cleared, versions, contents)
    ensures Staged(Apply(d, Create(mode)), Created, versions, contents)
    ensures Untouched(d, Apply(d, Create(mode)))
  {
  }

  lemma ChmodStages(d: Disk, mode: nat, versions: iset<Option<string>>, contents: string)
    requires Staged(d, Created, versions, contents)
    ensures Staged(Apply(d, Chmod(mode)), Opened, versions, contents) && Temp(Apply(d, Chmod(mode))).mode == mode
    ensures Untouched(d, Apply(d, Chmod(mode)))
  {
  }

  lemma WriteStages(d: Disk, text: string, versions: iset<Option<string>>, contents: string)
    requires Staged(d, Opened, versions, contents)
    ensures Survives(Apply(d, Write(text)), versions)
    ensures text == contents ==> Staged(Apply(d, Write(text)), Filled, versions, contents)
    ensures Private(Apply(d, Write(text))) && Temp(Apply(d, Write(text))).mode == Temp(d).mode
    ensures Untouched(d, Apply(d, Write(text)))
  {
    assert "" + text == text;
  }

  lemma SyncStages(d: Disk, versions: iset<Option<string>>, contents: string)
    requires Staged(d, Filled, versions, contents)
    ensures Staged(Apply(d, SyncFile), Synced, versions, contents) && Temp(Apply(d, SyncFile)).mode == Temp(d).mode
    ensures Untouched(d, Apply(d, SyncFile))
  {
  }

  lemma RenameStages(d: Disk, versions: iset<Option<string>>, contents: string)
    requires Staged(d, Synced, versions, contents)
    ensures Staged(Apply(d, Rename), Renamed, versions, contents)
    ensures Apply(d, Rename).target == d.temp && Apply(d, Rename).nodes == d.nodes
  {
  }

  lemma SyncDirStages(d: Disk, versions: iset<Option<string>>, contents: string)
    requires Staged(d, Renamed, versions, contents)
    ensures Staged(Apply(d, SyncDir), Durable, versions, contents)
  {
  }

  // ----- the procedure ------------------------------------------------------------------------

  /** Which effect of an attempt fails, and how much of the contents is written first. */
  datatype Faults = Faults(remove: bool, create: bool, chmod: bool, write: Option<nat>, syncFile: bool,
                           rename: bool, syncDir: bool, cleanup: bool)

  predicate NoneFails(f: Faults, mode: Option<nat>) {
    !f.create && !(mode.Some? && f.chmod) && f.write.None? && !f.syncFile && !f.rename && !f.syncDir
  }

  /** A target that is no longer the one it was has the mode asked for, from its first moment. */
  predicate ModeIsExact(before: Disk, now: Disk, mode: Option<nat>) {
    now.target != before.target && mode.Some? ==>
      now.target.Some? && now.target.value in now.nodes && now.nodes[now.target.value].mode == mode.value
  }

  class FileSystem {
    var disk: Disk

    /** Every state the disk passed through. */
    ghost var past: seq<Disk>

    constructor (d: Disk)
      ensures disk == d && past == [d]
    {
      disk := d;
      past := [d];
    }

    method Do(op: Op)
      modifies this
      ensures disk == Apply(old(disk), op) && past == old(past) + [disk]
    {
      disk := Apply(disk, op);
      past := past + [disk];
    }

    /** For every disk, whatever stale temporary file is on it and whichever effect fails: in
      * every state on the way a crash leaves the target complete, as it was or as the new
      * contents; success makes the new contents the only outcome, with the mode asked for. */
    method WriteAtomic(contents: string, mode: Option<nat>, umasked: nat, faults: Faults,
                       ghost versions: iset<Option<string>>)
      returns (ok: bool)
      requires Survives(disk, versions)
      modifies this
      ensures old(past) <= past
      ensures forall i | |old(past)| <= i < |past| :: Survives(past[i], versions + iset{Some(contents)})
      ensures Survives(disk, versions + iset{Some(contents)})
      ensures ok ==> Survives(disk, iset{Some(contents)}) && Read(disk, disk.target) == Some(contents)
      ensures ok <==> !(old(disk).temp.Some? && faults.remove) && NoneFails(faults, mode)
      ensures forall i | |old(past)| <= i < |past| :: ModeIsExact(old(disk), past[i], mode)
      ensures ok && mode.Some? ==> disk.nodes[disk.target.value].mode == mode.value
      ensures !ok && !faults.syncDir
              ==> Survives(disk, versions) && Untouched(old(disk), disk)
      ensures !ok && !faults.remove && !faults.cleanup ==> disk.temp.None?
    {
      if disk.temp.Some? && faults.remove {
        return false;
      }
      Do(Remove);
      RemoveStages(old(disk), versions, contents);
      ok := Stage(contents, mode, umasked, faults, versions);
      if !ok && !faults.cleanup {
        Do(Remove);
      }
    }

    /** The effects after the stale temporary file is gone, up to the first that fails. */
    method Stage(contents: string, mode: Option<nat>, umasked: nat, faults: Faults,
                 ghost versions: iset<Option<string>>)
      returns (ok: bool)
      requires Staged(disk, Cleared, versions, contents)
      modifies this
      ensures old(past) <= past
      ensures forall i | |old(past)| <= i < |past| :: Survives(past[i], versions + iset{Some(contents)})
      ensures Survives(disk, versions + iset{Some(contents)})
      ensures ok ==> Survives(disk, iset{Some(contents)}) && Read(disk, disk.target) == Some(contents)
      ensures ok <==> NoneFails(faults, mode)
      ensures forall i | |old(past)| <= i < |past| :: ModeIsExact(old(disk), past[i], mode)
      ensures ModeIsExact(old(disk), disk, mode)
      ensures ok && mode.Some? ==> disk.nodes[disk.target.value].mode == mode.value
      ensures !ok && !faults.syncDir
              ==> Survives(disk, versions) && Untouched(old(disk), disk)
    {
      ok := OpenTemp(contents, mode, umasked, faults, versions);
      if !ok {
        return;
      }
      if faults.write.Some? {
        var upTo := if faults.write.value < |contents| then faults.write.value else |contents|;
        WriteStages(disk, contents[..upTo], versions, contents);
        Do(Write(contents[..upTo]));
        return false;
      }
      WriteStages(disk, contents, versions, contents);
      Do(Write(contents));
      ok := Publish(contents, faults, versions);
    }

    method OpenTemp(contents: string, mode: Option<nat>, umasked: nat, faults: Faults,
                    ghost versions: iset<Option<string>>)
      returns (ok: bool)
      requires Staged(disk, Cleared, versions, contents)
      modifies this
      ensures old(past) <= past
      ensures forall i | |old(past)| <= i < |past| :: Survives(past[i], versions) && past[i].target == old(disk).target
      ensures ok <==> !faults.create && !(mode.Some? && faults.chmod)
      ensures Survives(disk, versions) && Untouched(old(disk), disk)
      ensures ok ==> Staged(disk, Opened, versions, contents) && (mode.Some? ==> Temp(disk).mode == mode.value)
    {
      if faults.create {
        return false;
      }
      CreateStages(disk, umasked, versions, contents);
      Do(Create(umasked));
      if mode.Some? {
        if faults.chmod {
          return false;
        }
        ChmodStages(disk, mode.value, versions, contents);
        Do(Chmod(mode.value));
      }
      ok := true;
    }

    method Publish(contents: string, faults: Faults, ghost versions: iset<Option<string>>) returns (ok: bool)
      requires Staged(disk, Filled, versions, contents)
      modifies this
      ensures old(past) <= past
      ensures forall i | |old(past)| <= i < |past| :: Survives(past[i], versions + iset{Some(contents)})
      ensures Survives(disk, versions + iset{Some(contents)})
      ensures ok ==> Survives(disk, iset{Some(contents)}) && disk.target == old(disk).temp
                     && Read(disk, disk.target) == Some(contents)
                     && disk.nodes[disk.target.value].mode == Temp(old(disk)).mode
      ensures ok <==> !faults.syncFile && !faults.rename && !faults.syncDir
      ensures forall i | |old(past)| <= i < |past| :: ModeIsExact(old(disk), past[i], Some(Temp(old(disk)).mode))
      ensures ModeIsExact(old(disk), disk, Some(Temp(old(disk)).mode))
      ensures !ok && !faults.syncDir
              ==> Survives(disk, versions) && Untouched(old(disk), disk)
    {
      if faults.syncFile {
        return false;
      }
      SyncStages(disk, versions, contents);
      Do(SyncFile);
      if faults.rename {
        return false;
      }
      RenameStages(disk, versions, contents);
      Do(Rename);
      if faults.syncDir {
        return false;
      }
      SyncDirStages(disk, versions, contents);
      Do(SyncDir);
      ok := true;
    }
  }

  // ----- many writes, many crashes ----------------------------------------------------------------

  /** The node across attempts: the disk, and the attempt in flight, if any. */
  datatype Machine = Machine(disk: Disk, active: bool, stage: Stage, contents: string, mode: Option<nat>)

  datatype Event =
    | Begin(contents: string, mode: Option<nat>)
    | Step(umasked: nat)                          // the next effect of the attempt succeeds
    | Fault(written: nat, cleaned: bool)          // it fails; the best-effort cleanup may fail too
    | Die(loss: Loss)                             // the machine dies and comes back

  function StepDisk(m: Machine, umasked: nat): Disk {
    match m.stage
    case Idle => Apply(m.disk, Remove)
    case Cleared => Apply(m.disk, Create(umasked))
    case Created => if m.mode.Some? then Apply(m.disk, Chmod(m.mode.value)) else m.disk
    case Opened => Apply(m.disk, Write(m.contents))
    case Filled => Apply(m.disk, SyncFile)
    case Synced => Apply(m.disk, Rename)
    case Renamed => Apply(m.disk, SyncDir)
    case Durable => m.disk
  }

  function After(stage: Stage): Stage {
    match stage
    case Idle => Cleared
    case Cleared => Created
    case Created => Opened
    case Opened => Filled
    case Filled => Synced
    case Synced => Renamed
    case Renamed => Durable
    case Durable => Durable
  }

  function FaultDisk(m: Machine, written: nat, cleaned: bool): Disk {
    var torn := m.stage.Opened? && written < |m.contents|;
    var partial := if torn then Apply(m.disk, Write(m.contents[..written])) else m.disk;
    if cleaned then Apply(partial, Remove) else partial
  }

  predicate Finishes(m: Machine, e: Event) {
    e.Step? && m.active && m.stage.Renamed?
  }

  function Next(m: Machine, e: Event): Machine {
    match e
    case Begin(contents, mode) => if m.active then m else Machine(m.disk, true, Idle, contents, mode)
    case Step(umasked) =>
      if !m.active then m
      else m.(disk := StepDisk(m, umasked), stage := After(m.stage), active := !m.stage.Renamed?)
    case Fault(written, cleaned) => if m.active then m.(disk := FaultDisk(m, written, cleaned), active := false) else m
    case Die(loss) => m.(disk := Crash(m.disk, loss), active := false)
  }

  function Run(d: Disk, events: seq<Event>): Machine {
    if events == [] then Machine(d, false, Idle, "", None)
    else Next(Run(d, events[..|events| - 1]), events[|events| - 1])
  }

  /** What the file may read as after a crash now, from the history of calls alone: the
    * contents of the last call that returned success, or of a call begun since. */
  ghost function Possible(d: Disk, before: iset<Option<string>>, events: seq<Event>): iset<Option<string>> {
    if events == [] then before
    else
      var rest, e := events[..|events| - 1], events[|events| - 1];
      if e.Begin? then Possible(d, before, rest) + iset{Some(e.contents)}
      else if Finishes(Run(d, rest), e) then iset{Some(Run(d, rest).contents)}
      else Possible(d, before, rest)
  }

  ghost predicate Sound(m: Machine, versions: iset<Option<string>>) {
    if m.active then Some(m.contents) in versions && !m.stage.Durable? && Staged(m.disk, m.stage, versions, m.contents)
    else Survives(m.disk, versions)
  }

  lemma StagedSurvives(m: Machine, versions: iset<Option<string>>)
    requires Sound(m, versions)
    ensures Survives(m.disk, versions)
  {
    assert m.active && m.stage.Renamed? ==> versions + iset{Some(m.contents)} == versions;
  }

  lemma StepSound(m: Machine, umasked: nat, versions: iset<Option<string>>)
    requires m.active && Sound(m, versions)
    ensures Staged(StepDisk(m, umasked), After(m.stage), versions, m.contents)
  {
    match m.stage
    case Idle => RemoveStages(m.disk, versions, m.contents);
    case Cleared => CreateStages(m.disk, umasked, versions, m.contents);
    case Created =>
      if m.mode.Some? {
        ChmodStages(m.disk, m.mode.value, versions, m.contents);
      }
    case Opened => WriteStages(m.disk, m.contents, versions, m.contents);
    case Filled => SyncStages(m.disk, versions, m.contents);
    case Synced => RenameStages(m.disk, versions, m.contents);
    case Renamed => SyncDirStages(m.disk, versions, m.contents);
  }

  lemma FaultSound(m: Machine, written: nat, cleaned: bool, versions: iset<Option<string>>)
    requires m.active && Sound(m, versions)
    ensures Survives(FaultDisk(m, written, cleaned), versions)
  {
    StagedSurvives(m, versions);
    if m.stage.Opened? && written < |m.contents| {
      WriteStages(m.disk, m.contents[..written], versions, m.contents);
      RemoveStages(Apply(m.disk, Write(m.contents[..written])), versions, m.contents);
    } else {
      RemoveStages(m.disk, versions, m.contents);
    }
  }

  lemma EventSound(m: Machine, e: Event, versions: iset<Option<string>>)
    requires Sound(m, versions)
    ensures Sound(Next(m, e), if e.Begin? then versions + iset{Some(e.contents)}
                              else if Finishes(m, e) then iset{Some(m.contents)} else versions)
  {
    match e
    case Begin(contents, _) =>
      StagedSurvives(m, versions);
    case Step(umasked) =>
      if m.active {
        StepSound(m, umasked, versions);
      }
    case Fault(written, cleaned) =>
      if m.active {
        FaultSound(m, written, cleaned, versions);
      }
    case Die(loss) =>
      StagedSurvives(m, versions);
      CrashSurvives(m.disk, loss, versions);
  }

  function Steps(m: Machine, k: nat, umasked: nat): Machine {
    if k == 0 then m else Next(Steps(m, k - 1, umasked), Step(umasked))
  }

  lemma {:induction false} StepsStage(m: Machine, k: nat, umasked: nat, versions: iset<Option<string>>)
    requires k <= 6 && m.active && m.stage.Idle? && Sound(m, versions)
    ensures var now := Steps(m, k, umasked);
            && now.active && Sound(now, versions) && now.contents == m.contents && now.mode == m.mode
            && now.stage == [Idle, Cleared, Created, Opened, Filled, Synced, Renamed][k]
  {
    if k > 0 {
      StepsStage(m, k - 1, umasked, versions);
      EventSound(Steps(m, k - 1, umasked), Step(umasked), versions);
    }
  }

  /** A write that nothing disturbs returns success after seven effects, and not before. */
  lemma UndisturbedWriteSucceeds(m: Machine, contents: string, mode: Option<nat>, umasked: nat,
                                 versions: iset<Option<string>>)
    requires !m.active && Sound(m, versions)
    ensures var begun := Next(m, Begin(contents, mode));
            && (forall k: nat | k < 6 :: !Finishes(Steps(begun, k, umasked), Step(umasked)))
            && Finishes(Steps(begun, 6, umasked), Step(umasked))
            && Survives(Steps(begun, 7, umasked).disk, iset{Some(contents)})
  {
    var begun := Next(m, Begin(contents, mode));
    EventSound(m, Begin(contents, mode), versions);
    forall k: nat | k <= 6
      ensures Finishes(Steps(begun, k, umasked), Step(umasked)) <==> k == 6
    {
      StepsStage(begun, k, umasked, versions + iset{Some(contents)});
    }
    StepsStage(begun, 6, umasked, versions + iset{Some(contents)});
    EventSound(Steps(begun, 6, umasked), Step(umasked), versions + iset{Some(contents)});
  }

  /** Over every run of writes, faults and crashes: whatever dies next, the file comes back
    * complete, as the last write that returned success or one begun since; a stale temporary
    * file never shows through. */
  lemma {:induction false} EveryCrashLeavesAWholeVersion(d: Disk, before: iset<Option<string>>, events: seq<Event>,
                                                         loss: Loss)
    requires Survives(d, before)
    ensures Sound(Run(d, events), Possible(d, before, events))
    ensures var back := Crash(Run(d, events).disk, loss); Read(back, back.target) in Possible(d, before, events)
  {
    if events != [] {
      EveryCrashLeavesAWholeVersion(d, before, events[..|events| - 1], loss);
      EventSound(Run(d, events[..|events| - 1]), events[|events| - 1], Possible(d, before, events[..|events| - 1]));
    }
    StagedSurvives(Run(d, events), Possible(d, before, events));
    CrashSurvives(Run(d, events).disk, loss, Possible(d, before, events));
  }

  /** A write that returned success is what every later crash comes back to, until another begins. */
  lemma SuccessIsDurable(d: Disk, before: iset<Option<string>>, events: seq<Event>, umasked: nat, loss: Loss)
    requires Survives(d, before) && Finishes(Run(d, events), Step(umasked))
    ensures var back := Crash(Run(d, events + [Step(umasked)]).disk, loss);
            Read(back, back.target) == Some(Run(d, events).contents)
  {
    assert (events + [Step(umasked)])[..|events|] == events;
    EveryCrashLeavesAWholeVersion(d, before, events + [Step(umasked)], loss);
  }
}
