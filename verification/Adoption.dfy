/** Choosing between dump.rdb and the append-only directory at boot, moving the losing
  * directory aside, and what a crash at any later step leaves to the next boot. */
module Adoption {
  import opened Wrappers
  import opened RdbOwner

  /** How much newer dump.rdb must be before it outranks a committed AOF, in nanoseconds. */
  const STALE_AOF_MARGIN := 600_000_000_000
  const NANOS := 1_000_000_000

  /** What a look at a path gives: nothing there, a regular file, or something else, which
    * includes every path that cannot be inspected. */
  datatype Stat<+T> = Missing | Regular(file: T) | Unusable

  datatype Rdb = Rdb(mtime: int, len: nat, saved: nat)

  /** A file of an append-only directory: its inode, so that two files with the same time
    * and contents are still two, and `bytes` for its contents. */
  datatype AofFile = AofFile(inode: nat, mtime: int, bytes: nat)

  /** `appendonlydir`: its manifest, and its other entries in directory order. */
  datatype AofDir = AofDir(manifest: Stat<AofFile>, entries: seq<Stat<AofFile>>)

  /** The name a directory is moved to: the reason and the second it happened. */
  datatype Aside = Aside(reason: string, at: int)

  datatype Outcome<+T> = Done(value: T) | Failed

  datatype Volume = Volume(rdb: Stat<Rdb>, aof: Stat<AofDir>, marker: Option<string>, aside: map<Aside, AofDir>)

  // ----- the decision --------------------------------------------------------------------

  /** A regular file, nothing, or a refusal to guess. */
  function FileMetadata<T>(s: Stat<T>): Outcome<Option<T>> {
    match s
    case Missing => Done(None)
    case Regular(file) => Done(Some(file))
    case Unusable => Failed
  }

  function Manifest(v: Volume): Outcome<Option<AofFile>> {
    match v.aof
    case Missing => Done(None)
    case Regular(dir) => FileMetadata(dir.manifest)
    case Unusable => Failed
  }

  predicate Committed(v: Volume) {
    v.aof.Regular? && v.aof.file.manifest.Regular?
  }

  /** The identity of the dump.rdb there is now. */
  function Current(rdb: Stat<Rdb>): Option<Identity> {
    if rdb.Regular? && rdb.file.mtime >= 0
    then Some(Identity(rdb.file.mtime / NANOS, rdb.file.mtime % NANOS, rdb.file.len)) else None
  }

  predicate OwnsRdb(v: Volume) {
    var recorded := if v.marker.None? then None else Parse(v.marker.value);
    recorded.Some? && recorded == Current(v.rdb)
  }

  /** Everything `read_dir` lists. */
  function Listing(dir: AofDir): seq<Stat<AofFile>> {
    (if dir.manifest.Missing? then [] else [dir.manifest]) + dir.entries
  }

  /** `t` is the time of the last write to any of the files. */
  ghost predicate IsNewest(listing: seq<Stat<AofFile>>, t: int) {
    && (forall i | 0 <= i < |listing| :: listing[i].Regular? && listing[i].file.mtime <= t)
    && exists i :: 0 <= i < |listing| && listing[i].Regular? && listing[i].file.mtime == t
  }

  ghost predicate AllRegular(listing: seq<Stat<AofFile>>) {
    forall i | 0 <= i < |listing| :: listing[i].Regular?
  }

  /** One pass over the directory; an empty one, or an entry that is no regular file, fails. */
  method NewestAofWrite(listing: seq<Stat<AofFile>>) returns (r: Outcome<int>)
    ensures r.Done? <==> listing != [] && AllRegular(listing)
    ensures r.Done? ==> IsNewest(listing, r.value)
  {
    var newest: Option<int> := None;
    for i := 0 to |listing|
      invariant newest.None? <==> i == 0
      invariant newest.Some? ==> IsNewest(listing[..i], newest.value)
    {
      if !listing[i].Regular? {
        return Failed;
      }
      var modified := listing[i].file.mtime;
      ghost var before := newest;
      newest := Some(if newest.None? then modified else Max(newest.value, modified));
    }
    assert listing[..|listing|] == listing;
    r := if newest.None? then Failed else Done(newest.value);
  }

  /** No file of the directory was written within the margin before the RDB, or after it. */
  ghost predicate OutlivedBy(rdb: Rdb, listing: seq<Stat<AofFile>>) {
    forall i | 0 <= i < |listing| :: listing[i].Regular? && rdb.mtime - listing[i].file.mtime >= STALE_AOF_MARGIN
  }

  /** Whether this boot loads the RDB instead of the AOF, or cannot tell. */
  ghost function Decision(v: Volume): Outcome<bool> {
    if v.rdb.Unusable? then Failed
    else if v.rdb.Missing? then Done(false)
    else if Manifest(v) == Failed then Failed
    else if !Committed(v) then Done(true)
    else if OwnsRdb(v) then Done(false)
    else if !AllRegular(Listing(v.aof.file)) then Failed
    else Done(OutlivedBy(v.rdb.file, Listing(v.aof.file)))
  }

  /** The directory holds no manifest, or there is none. */
  predicate NoManifest(v: Volume) {
    v.aof.Missing? || (v.aof.Regular? && v.aof.file.manifest.Missing?)
  }

  method NeedsRdbToAofMigration(v: Volume) returns (r: Outcome<bool>)
    ensures r == Decision(v)
    ensures r == Done(true)
            <==> v.rdb.Regular?
                 && (NoManifest(v)
                     || (v.aof.Regular? && v.aof.file.manifest.Regular? && !OwnsRdb(v)
                         && forall i | 0 <= i < |Listing(v.aof.file)| ::
                              Listing(v.aof.file)[i].Regular?
                              && v.rdb.file.mtime - Listing(v.aof.file)[i].file.mtime >= 600_000_000_000))
    ensures r == Failed
            <==> || v.rdb.Unusable?
                 || (v.rdb.Regular? && (v.aof.Unusable? || (v.aof.Regular? && v.aof.file.manifest.Unusable?)))
                 || (v.rdb.Regular? && v.aof.Regular? && v.aof.file.manifest.Regular? && !OwnsRdb(v)
                     && exists i :: 0 <= i < |Listing(v.aof.file)| && !Listing(v.aof.file)[i].Regular?)
  {
    var rdb := FileMetadata(v.rdb);
    if rdb.Failed? {
      return Failed;
    }
    if rdb.value.None? {
      return Done(false);
    }
    var manifest := Manifest(v);
    if manifest.Failed? {
      return Failed;
    }
    if manifest.value.None? {
      return Done(true);
    }
    if OwnsRdb(v) {
      return Done(false);
    }
    var aof := NewestAofWrite(Listing(v.aof.file));
    if aof.Failed? {
      return Failed;
    }
    var gap := rdb.value.value.mtime - aof.value;
    r := Done(gap >= 0 && gap >= STALE_AOF_MARGIN);
  }

  // ----- moving a directory aside ------------------------------------------------------------

  /** A rename onto a directory that is not empty fails. */
  predicate Free(aside: map<Aside, AofDir>, name: Aside) {
    name !in aside || Listing(aside[name]) == []
  }

  function RenameAside(v: Volume, reason: string, at: int): Outcome<Volume> {
    match v.aof
    case Missing => Done(v)
    case Unusable => Failed
    case Regular(dir) =>
      if Free(v.aside, Aside(reason, at)) then Done(v.(aof := Missing, aside := v.aside[Aside(reason, at) := dir]))
      else Failed
  }

  function QuarantineManifestless(v: Volume, at: int): Outcome<Volume> {
    if Manifest(v) == Failed then Failed
    else if Committed(v) then Done(v)
    else RenameAside(v, "orphaned", at)
  }

  function QuarantineStale(v: Volume, at: int): Outcome<Volume> {
    if Manifest(v) == Failed then Failed
    else if !Committed(v) then Done(v)
    else RenameAside(v, "superseded", at)
  }

  /** Record the RDB there is now as this image's own; no RDB, no marker. */
  function Record(v: Volume): Volume {
    var current := Current(v.rdb);
    if current.None? then v.(marker := None)
    else if v.marker.Some? && Parse(v.marker.value) == current then v
    else v.(marker := Some(RenderIdentity(current.value)))
  }

  class DataDir {
    var rdb: Stat<Rdb>
    var aof: Stat<AofDir>
    var marker: Option<string>
    var aside: map<Aside, AofDir>

    ghost function Contents(): Volume
      reads this
    {
      Volume(rdb, aof, marker, aside)
    }

    method RenameAofDirAside(reason: string, at: int) returns (ok: bool)
      modifies this
      ensures var after := RenameAside(old(Contents()), reason, at);
              ok == after.Done? && Contents() == if ok then after.value else old(Contents())
    {
      if aof.Missing? {
        return true;
      }
      if aof.Unusable? || (Aside(reason, at) in aside && Listing(aside[Aside(reason, at)]) != []) {
        return false;
      }
      aside := aside[Aside(reason, at) := aof.file];
      aof := Missing;
      ok := true;
    }

    method QuarantineManifestlessAofDir(at: int) returns (ok: bool)
      modifies this
      ensures var after := QuarantineManifestless(old(Contents()), at);
              ok == after.Done? && Contents() == if ok then after.value else old(Contents())
    {
      var manifest := Manifest(Volume(rdb, aof, marker, aside));
      if manifest.Failed? {
        return false;
      }
      if manifest.value.Some? {
        return true;
      }
      ok := RenameAofDirAside("orphaned", at);
    }

    method QuarantineStaleAofDir(at: int) returns (ok: bool)
      modifies this
      ensures var after := QuarantineStale(old(Contents()), at);
              ok == after.Done? && Contents() == if ok then after.value else old(Contents())
    {
      var manifest := Manifest(Volume(rdb, aof, marker, aside));
      if manifest.Failed? {
        return false;
      }
      if manifest.value.None? {
        return true;
      }
      ok := RenameAofDirAside("superseded", at);
    }

    /** Both quarantines of an adopting boot: at most one directory moves, under one name,
      * and no append-only directory is left; a failure leaves the volume as it was. */
    method PrepareAdoption(at: int, later: int) returns (ok: bool)
      modifies this
      ensures rdb == old(rdb) && marker == old(marker)
      ensures ok <==> || old(aof).Missing?
                      || (old(aof).Regular? && !old(aof).file.manifest.Unusable?
                          && var name := if old(aof).file.manifest.Missing? then Aside("orphaned", at)
                                         else Aside("superseded", later);
                             name in old(aside) ==>
                               old(aside)[name].manifest.Missing? && old(aside)[name].entries == [])
      ensures ok ==> aof == Missing
      ensures ok && old(aof).Missing? ==> aside == old(aside)
      ensures ok && old(aof).Regular? ==>
                var name := if old(aof).file.manifest.Missing? then Aside("orphaned", at)
                            else Aside("superseded", later);
                Free(old(aside), name) && aside == old(aside)[name := old(aof).file]
      ensures !ok ==> aof == old(aof) && aside == old(aside)
    {
      ok := QuarantineManifestlessAofDir(at);
      if ok {
        if old(aof).Regular? && !Committed(old(Contents())) {
          assert aside == old(aside)[Aside("orphaned", at) := old(aof).file];
        }
        ok := QuarantineStaleAofDir(later);
        if ok && Committed(old(Contents())) {
          assert aside == old(aside)[Aside("superseded", later) := old(aof).file];
        }
      }
    }

    method RecordRdb()
      modifies this
      ensures Contents() == Record(old(Contents()))
      ensures Contents() == old(Contents()).(marker := marker)
      ensures marker == match Current(rdb)
                        case None => None
                        case Some(id) =>
                          if old(marker).Some? && Parse(old(marker).value) == Some(id) then old(marker)
                          else Some(RenderIdentity(id))
    {
      var current := Current(rdb);
      if current.None? {
        marker := None;
        return;
      }
      var recorded := None;
      if marker.Some? {
        recorded := ParseIdentity(marker.value);
      }
      if recorded != current {
        marker := Some(RenderIdentity(current.value));
      }
    }
  }

  /** After a record the RDB on the volume is owned, if its identity fits the marker's text. */
  lemma RecordedIsOwned(v: Volume)
    requires v.rdb.Regular? && v.rdb.file.mtime >= 0 && Representable(Current(v.rdb).value)
    ensures OwnsRdb(Record(v))
  {
    ParseOfRender(Current(v.rdb).value);
  }

  // ----- a boot, its crashes and the next boot --------------------------------------------------

  /** Where a boot stands: the decision made, each quarantine done, the RDB recorded, the
    * server running; `adopting` is carried from the decision on. */
  datatype Phase = Down | Decided | OrphansMoved | StaleMoved | Recorded | Running

  datatype State = State(v: Volume, phase: Phase, adopting: bool)

  datatype Event =
    | Boot                                       // decide where to load from
    | Advance(at: int)                           // the next boot step, at this second
    | Save(rdb: Rdb)                             // the server replaces dump.rdb
    | Append(file: AofFile)                      // an append-only file appears or grows
    | Commit(manifest: AofFile)                  // the server commits a manifest
    | Poll                                       // the owner watcher records
    | Crash                                      // the container dies, or the boot refuses

  /** The files of an adopting boot change before its manifest commits only by being moved. */
  ghost function NextStep(s: State, at: int): State {
    match s.phase
    case Down => s
    case Decided =>
      var after := if s.adopting then QuarantineManifestless(s.v, at) else Done(s.v);
      if after.Failed? then s.(phase := Down) else s.(v := after.value, phase := OrphansMoved)
    case OrphansMoved =>
      var after := if s.adopting then QuarantineStale(s.v, at) else Done(s.v);
      if after.Failed? then s.(phase := Down) else s.(v := after.value, phase := StaleMoved)
    case StaleMoved => s.(v := Record(s.v), phase := Recorded)
    case Recorded => s.(phase := Running)
    case Running => s
  }

  function WithEntry(aof: Stat<AofDir>, file: AofFile): Stat<AofDir> {
    match aof
    case Missing => Regular(AofDir(Missing, [Regular(file)]))
    case Regular(dir) => Regular(dir.(entries := dir.entries + [Regular(file)]))
    case Unusable => Unusable
  }

  function WithManifest(aof: Stat<AofDir>, manifest: AofFile): Stat<AofDir> {
    match aof
    case Missing => Regular(AofDir(Regular(manifest), []))
    case Regular(dir) => Regular(dir.(manifest := Regular(manifest)))
    case Unusable => Unusable
  }

  ghost function Next(s: State, e: Event): State {
    match e
    case Boot =>
      if !s.phase.Down? then s
      else if Decision(s.v).Failed? then s
      else s.(phase := Decided, adopting := Decision(s.v).value)
    case Advance(at) => NextStep(s, at)
    case Save(rdb) => if s.phase.Running? then s.(v := s.v.(rdb := Regular(rdb))) else s
    case Append(file) => if s.phase.Running? then s.(v := s.v.(aof := WithEntry(s.v.aof, file))) else s
    case Commit(manifest) => if s.phase.Running? then s.(v := s.v.(aof := WithManifest(s.v.aof, manifest))) else s
    case Poll => if s.phase.Running? then s.(v := Record(s.v)) else s
    case Crash => s.(phase := Down)
  }

  ghost function Run(s: State, events: seq<Event>): State {
    if events == [] then s else Next(Run(s, events[..|events| - 1]), events[|events| - 1])
  }

  predicate NoCommit(events: seq<Event>) {
    forall i | 0 <= i < |events| :: !events[i].Commit?
  }

  /** The evidence still decides for the RDB, and once the quarantines are done no
    * append-only directory of before is left to weigh against it. */
  ghost predicate Adopts(s: State) {
    && Decision(s.v) == Done(true)
    && (!s.phase.Down? ==> s.adopting)
    && (s.phase.OrphansMoved? ==> Committed(s.v) || s.v.aof.Missing?)
    && (s.phase.StaleMoved? || s.phase.Recorded? ==> s.v.aof.Missing?)
    && (s.phase.Running? ==> !Committed(s.v))
  }

  lemma EventKeepsAdopting(s: State, e: Event)
    requires Adopts(s) && !e.Commit?
    ensures Adopts(Next(s, e))
  {
  }

  /** Adoption is sticky: once a boot decides for the RDB, then whatever happens short of a
    * manifest commit, any crash at any step and any number of boots, the next boot decides
    * for it again. */
  lemma {:induction false} AdoptionIsSticky(s: State, events: seq<Event>)
    requires Decision(s.v) == Done(true) && s.phase.Down? && NoCommit(events)
    ensures Adopts(Run(s, events)) && Decision(Run(s, events).v) == Done(true)
  {
    if events != [] {
      AdoptionIsSticky(s, events[..|events| - 1]);
      EventKeepsAdopting(Run(s, events[..|events| - 1]), events[|events| - 1]);
    }
  }

  // ----- nothing is lost -----------------------------------------------------------------------

  ghost predicate Holds(v: Volume, file: Stat<AofFile>) {
    || (v.aof.Regular? && file in Listing(v.aof.file))
    || exists name :: name in v.aside && file in Listing(v.aside[name])
  }

  lemma RenameKeepsFiles(v: Volume, reason: string, at: int, file: Stat<AofFile>)
    requires RenameAside(v, reason, at).Done? && Holds(v, file)
    ensures Holds(RenameAside(v, reason, at).value, file)
  {
    var after := RenameAside(v, reason, at).value;
    if v.aof.Regular? {
      if file in Listing(v.aof.file) {
        assert after.aside[Aside(reason, at)] == v.aof.file;
      } else {
        var name :| name in v.aside && file in Listing(v.aside[name]);
        assert name != Aside(reason, at) && after.aside[name] == v.aside[name];
      }
    }
  }

  lemma EventKeepsFiles(s: State, e: Event, file: Stat<AofFile>)
    requires Holds(s.v, file) && !e.Commit?
    ensures Holds(Next(s, e).v, file)
  {
    if e.Advance? && s.phase.Decided? && s.adopting
              && QuarantineManifestless(s.v, e.at).Done? && !Committed(s.v) {
      RenameKeepsFiles(s.v, "orphaned", e.at, file);
    } else if e.Advance? && s.phase.OrphansMoved? && s.adopting && QuarantineStale(s.v, e.at).Done? && Committed(s.v) {
      RenameKeepsFiles(s.v, "superseded", e.at, file);
    } else if !e.Append? {
      assert Next(s, e).v.aof == s.v.aof && Next(s, e).v.aside == s.v.aside;
    }
  }

  /** No append-only file that was on the volume is ever deleted by these steps: it stays
    * where it was, or in a directory moved aside. */
  lemma {:induction false} NothingIsDeleted(s: State, events: seq<Event>, file: Stat<AofFile>)
    requires Holds(s.v, file) && NoCommit(events)
    ensures Holds(Run(s, events).v, file)
  {
    if events != [] {
      NothingIsDeleted(s, events[..|events| - 1], file);
      EventKeepsFiles(Run(s, events[..|events| - 1]), events[|events| - 1], file);
    }
  }

  // ----- after the manifest has committed ---------------------------------------------------

  function AofListing(v: Volume): seq<Stat<AofFile>> {
    if v.aof.Regular? then Listing(v.aof.file) else []
  }

  /** The server dies with a dump.rdb that nobody recorded and that has outlived every
    * append-only file beside it. */
  ghost predicate HarmfulCrash(s: State, e: Event) {
    && e.Crash? && s.phase.Running? && s.v.rdb.Regular?
    && !OwnsRdb(s.v) && OutlivedBy(s.v.rdb.file, AofListing(s.v))
  }

  ghost predicate SparedRun(s: State, events: seq<Event>) {
    events != [] ==>
      && SparedRun(s, events[..|events| - 1])
      && !HarmfulCrash(Run(s, events[..|events| - 1]), events[|events| - 1])
  }

  /** A boot cannot weigh this RDB against a committed AOF: it is no regular file, or it is not
    * owned and some entry of the directory is no regular file. */
  ghost predicate Unweighable(v: Volume) {
    v.rdb.Unusable? || (v.rdb.Regular? && !OwnsRdb(v) && !AllRegular(AofListing(v)))
  }

  /** A committed AOF that outside a running server no boot gives up. */
  ghost predicate Trusted(s: State) {
    && Committed(s.v)
    && (!s.phase.Running? ==> Decision(s.v) == if Unweighable(s.v) then Failed else Done(false))
    && (!s.phase.Running? && !s.phase.Down? ==> !s.adopting)
  }

  lemma EventKeepsTrust(s: State, e: Event)
    requires Trusted(s) && !HarmfulCrash(s, e)
    ensures Trusted(Next(s, e)) && Next(s, e).v.aside == s.v.aside
  {
  }

  /** Once a manifest has committed, the AOF stays the source over every run of saves, polls,
    * appends, further commits, boots and crashes, short of a crash that finds an unrecorded
    * RDB which has outlived the AOF: no boot adopts the RDB, and nothing is moved aside. */
  lemma {:induction false} OwnRdbNeverWins(s: State, events: seq<Event>)
    requires Committed(s.v) && s.phase.Running? && SparedRun(s, events)
    ensures var end := Run(s, events);
            && Trusted(end) && end.v.aside == s.v.aside
            && (!end.phase.Running? ==> Decision(end.v) == if Unweighable(end.v) then Failed else Done(false))
    decreases |events|
  {
    if events != [] {
      OwnRdbNeverWins(s, events[..|events| - 1]);
      EventKeepsTrust(Run(s, events[..|events| - 1]), events[|events| - 1]);
    }
  }

  /** And that crash is the one that matters: at any point of such a run, a crash makes the next
    * boot give the AOF up if and only if the server was running on it with such an RDB. */
  lemma CrashIsAdoptedIff(s: State, events: seq<Event>)
    requires Committed(s.v) && s.phase.Running? && SparedRun(s, events)
    ensures var next := Next(Next(Run(s, events), Crash), Boot);
            next.phase.Decided? && next.adopting <==> HarmfulCrash(Run(s, events), Crash)
  {
    OwnRdbNeverWins(s, events);
  }

  /** No file of the listing was written after `t`. */
  lemma {:induction false} WrittenBy(listing: seq<Stat<AofFile>>) returns (t: nat)
    requires AllRegular(listing)
    ensures forall i | 0 <= i < |listing| :: listing[i].file.mtime <= t
  {
    if listing == [] {
      t := 0;
    } else {
      assert forall i | 0 <= i < |listing| - 1 :: listing[1..][i] == listing[i + 1];
      var rest := WrittenBy(listing[1..]);
      t := if listing[0].file.mtime > rest then listing[0].file.mtime else rest;
      forall i | 0 <= i < |listing|
        ensures listing[i].file.mtime <= t
      {
        if i > 0 {
          assert listing[i] == listing[1..][i - 1];
        }
      }
    }
  }

  /** Such a crash is always within reach of a running server: a save the margin later than the
    * AOF's last write, and a crash before the poll that would have recorded it. */
  lemma UnrecordedSaveCanWin(s: State) returns (rdb: Rdb)
    requires Committed(s.v) && s.phase.Running? && AllRegular(AofListing(s.v))
    ensures HarmfulCrash(Next(s, Save(rdb)), Crash)
  {
    var last := WrittenBy(AofListing(s.v));
    var recorded := if s.v.marker.None? then None else Parse(s.v.marker.value);
    rdb := Rdb(last + STALE_AOF_MARGIN, if recorded.Some? then recorded.value.len + 1 else 0, 0);
  }

  /** Why the record comes after the quarantines: made before them, it would turn the same
    * volume back to the stale AOF at the next boot. */
  lemma RecordingFirstForgets(v: Volume)
    requires Decision(v) == Done(true) && Committed(v)
    requires v.rdb.file.mtime >= 0 && Representable(Current(v.rdb).value)
    ensures Decision(Record(v)) == Done(false)
  {
    RecordedIsOwned(v);
  }
}
