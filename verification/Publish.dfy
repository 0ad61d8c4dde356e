/**
 Publishing an object: a finished payload and its metadata are moved into place by renames, with the
 previous pair kept aside until both moves have succeeded. Any system call may fail, and the process may
 stop after any of them.
 */
module Publish {
  import opened Base

  type Path = string
  datatype Node = File(bytes: seq<Byte>) | Dir(entries: map<string, seq<Byte>>)
  type Files = map<Path, Node>

  /** What is at a path. */
  function At(fs: Files, p: Path): Option<Node> {
    if p in fs then Some(fs[p]) else None
  }

  predicate OfKind(node: Option<Node>, isDir: bool) {
    node.Some? && node.value.Dir? == isDir
  }

  /** Which system calls fail. A call that fails has no effect. */
  datatype Faults = Faults(
    createDirs: bool,
    payloadExists: bool, payloadBackup: bool,
    metaExists: bool, metaBackup: bool,
    payloadRename: bool, metaRename: bool,
    undoPayload: bool,
    undoMetaRemove: bool, undoMetaRename: bool,
    undoPayloadRemove: bool, undoPayloadRename: bool,
    cleanPayload: bool, cleanMeta: bool)

  /**
   The calls that take a failed publication back do not fail themselves: the removal of the new payload and the two
   renames. The removals before those renames find nothing to remove, so they may fail.
   */
  predicate UndoWorks(f: Faults) {
    !f.undoPayload && !f.undoMetaRename && !f.undoPayloadRename
  }

  datatype Outcome = Published | FailedDirs | FailedFirstBackup | FailedSecondBackup | FailedPayload | FailedMeta

  /** How a publication ends, as its input and the failing calls decide it. */
  function OutcomeOf(fs: Files, j: Job, f: Faults): Outcome {
    if f.createDirs then FailedDirs
    else if f.payloadExists || (At(fs, j.finalPayload).Some? && f.payloadBackup) then FailedFirstBackup
    else if f.metaExists || (At(fs, j.finalMeta).Some? && f.metaBackup) then FailedSecondBackup
    else if f.payloadRename || At(fs, j.tmpPayload).None? then FailedPayload
    else if f.metaRename || At(fs, j.tmpMeta).None? then FailedMeta
    else Published
  }

  /** Both final paths hold the new files, or both hold what they held before. */
  predicate AllOrNothing(fs: Files, now: Files, j: Job) {
    || (At(fs, j.tmpPayload).Some? && At(now, j.finalPayload) == At(fs, j.tmpPayload)
        && At(fs, j.tmpMeta).Some? && At(now, j.finalMeta) == At(fs, j.tmpMeta))
    || (At(now, j.finalPayload) == At(fs, j.finalPayload) && At(now, j.finalMeta) == At(fs, j.finalMeta))
  }

  /** There is an old payload, and the calls that set it aside succeed. */
  predicate PayloadSetAside(fs: Files, j: Job, f: Faults) {
    At(fs, j.finalPayload).Some? && !f.createDirs && !f.payloadExists && !f.payloadBackup
  }

  /** There is an old metadata file, and the calls up to the one that sets it aside succeed. */
  predicate MetaSetAside(fs: Files, j: Job, f: Faults) {
    && At(fs, j.finalMeta).Some? && !f.createDirs && !f.payloadExists && (At(fs, j.finalPayload).Some? ==> !f.payloadBackup)
    && !f.metaExists && !f.metaBackup
  }

  /** Some state since `before` does not hold at a path what `fs` held there. */
  ghost predicate Moved(before: seq<Files>, after: seq<Files>, fs: Files, path: Path) {
    exists i :: |before| <= i < |after| && At(after[i], path) != At(fs, path)
  }

  lemma MovedLater(a: seq<Files>, b: seq<Files>, c: seq<Files>, fs: Files, path: Path)
    requires a <= b <= c && Moved(a, b, fs, path)
    ensures Moved(a, c, fs, path)
  {
    var i :| |a| <= i < |b| && At(b[i], path) != At(fs, path);
    assert At(c[i], path) != At(fs, path);
  }

  lemma MovedNow(a: seq<Files>, b: seq<Files>, now: Files, fs: Files, path: Path)
    requires a <= b
    ensures Moved(a, b + [now], fs, path) <==> Moved(a, b, fs, path) || At(now, path) != At(fs, path)
    ensures !Moved(a, a, fs, path)
  {
    var c := b + [now];
    if Moved(a, b, fs, path) {
      MovedLater(a, b, c, fs, path);
    }
    if At(now, path) != At(fs, path) {
      assert At(c[|b|], path) != At(fs, path);
    }
    hide At;
    if Moved(a, c, fs, path) {
      var i :| |a| <= i < |c| && At(c[i], path) != At(fs, path);
      assert i < |b| ==> c[i] == b[i];
    }
  }

  /** The two final paths, the finished temporaries, and the fresh names used for backups. */
  datatype Job = Job(tmpPayload: Path, finalPayload: Path, payloadIsDir: bool, tmpMeta: Path, finalMeta: Path,
                     payloadBackup: Path, metaBackup: Path)

  predicate Distinct(j: Job) {
    && j.tmpPayload !in {j.finalPayload, j.tmpMeta, j.finalMeta, j.payloadBackup, j.metaBackup}
    && j.finalPayload !in {j.tmpMeta, j.finalMeta, j.payloadBackup, j.metaBackup}
    && j.tmpMeta !in {j.finalMeta, j.payloadBackup, j.metaBackup}
    && j.finalMeta !in {j.payloadBackup, j.metaBackup}
    && j.payloadBackup != j.metaBackup
  }

  function Paths(j: Job): set<Path> {
    {j.tmpPayload, j.finalPayload, j.tmpMeta, j.finalMeta, j.payloadBackup, j.metaBackup}
  }

  /** The new payload is of the announced kind, and the backup names are unused. */
  predicate WellPrepared(fs: Files, j: Job) {
    && Distinct(j)
    && At(fs, j.payloadBackup).None? && At(fs, j.metaBackup).None?
    && (At(fs, j.tmpPayload).Some? ==> At(fs, j.tmpPayload).value.Dir? == j.payloadIsDir)
  }

  /** What `fs` held at `path` is, in the state `now`, at the same path or at the backup path. */
  predicate Kept(fs: Files, now: Files, path: Path, backup: Path) {
    At(fs, path).Some? ==> At(now, path) == At(fs, path) || At(now, backup) == At(fs, path)
  }

  /** Neither the old payload nor the old metadata is lost. */
  predicate Safe(fs: Files, now: Files, j: Job) {
    Kept(fs, now, j.finalPayload, j.payloadBackup) && Kept(fs, now, j.finalMeta, j.metaBackup)
  }

  /** The history went on from `before` through safe states only. */
  ghost predicate SafelyExtends(before: seq<Files>, after: seq<Files>, fs: Files, j: Job) {
    before <= after && forall i :: |before| <= i < |after| ==> Safe(fs, after[i], j)
  }

  lemma SafeOnwards(a: seq<Files>, b: seq<Files>, c: seq<Files>, fs: Files, j: Job)
    requires SafelyExtends(a, b, fs, j) && SafelyExtends(b, c, fs, j)
    ensures SafelyExtends(a, c, fs, j)
  {
    hide Safe;
    assert forall i :: |a| <= i < |b| ==> c[i] == b[i];
  }

  lemma SafeStep(a: seq<Files>, b: seq<Files>, now: Files, fs: Files, j: Job)
    requires SafelyExtends(a, b, fs, j) && Safe(fs, now, j)
    ensures SafelyExtends(a, b + [now], fs, j)
  {
    hide Safe;
  }

  lemma SafeSoFar(a: seq<Files>, fs: Files, j: Job)
    ensures SafelyExtends(a, a, fs, j)
  {
  }

  /** Both old files, or their absence, are recorded at the backup paths. */
  predicate BothAside(fs: Files, now: Files, j: Job) {
    At(now, j.payloadBackup) == At(fs, j.finalPayload) && At(now, j.metaBackup) == At(fs, j.finalMeta)
  }

  /** Nothing but the paths of the job differs. */
  ghost predicate OthersSame(fs: Files, now: Files, j: Job) {
    forall p {:trigger At(now, p)} :: p !in Paths(j) ==> At(now, p) == At(fs, p)
  }

  /** Whether `rename` can replace what is at the destination. */
  predicate Replaceable(moved: Node, dest: Option<Node>) {
    match dest
    case None => true
    case Some(File(_)) => moved.File?
    case Some(Dir(entries)) => moved.Dir? && entries == map[]
  }

  predicate CanRename(fs: Files, from: Path, dest: Path) {
    At(fs, from).Some? && Replaceable(At(fs, from).value, At(fs, dest))
  }

  /** There is something to move, and nothing in its place, or a file for a file, or an empty directory for a directory. */
  lemma CanRenameIff(fs: Files, from: Path, dest: Path)
    ensures CanRename(fs, from, dest) <==>
              && from in fs
              && (|| dest !in fs || (fs[from].File? && fs[dest].File?)
                  || (fs[from].Dir? && fs[dest].Dir? && fs[dest].entries == map[]))
  {
  }

  /** A disk that remembers every state it has been in. */
  class Disk {
    var files: Files
    ghost var history: seq<Files>

    constructor (files: Files)
      ensures this.files == files && history == [files]
    {
      this.files := files;
      history := [files];
    }

    /** `fs::rename`. */
    method Rename(from: Path, dest: Path, fault: bool) returns (ok: bool)
      requires from != dest
      modifies this
      ensures ok <==> !fault && CanRename(old(files), from, dest)
      ensures ok ==> At(files, dest) == At(old(files), from) && At(files, from).None?
      ensures !ok ==> files == old(files)
      ensures forall p {:trigger At(files, p)} :: p !in {from, dest} ==> At(files, p) == At(old(files), p)
      ensures history == old(history) + [files]
    {
      ok := !fault && CanRename(files, from, dest);
      if ok {
        files := files[dest := files[from]] - {from};
      }
      history := history + [files];
    }

    /** `remove_path_if_exists`: errors are ignored, also that of a path of the other kind. */
    method RemoveIfExists(path: Path, isDir: bool, fault: bool)
      modifies this
      ensures At(files, path) ==
              if !fault && OfKind(At(old(files), path), isDir) then None else At(old(files), path)
      ensures forall p {:trigger At(files, p)} :: p != path ==> At(files, p) == At(old(files), p)
      ensures history == old(history) + [files]
    {
      if !fault && path in files && files[path].Dir? == isDir {
        files := files - {path};
      }
      history := history + [files];
    }

    /** `backup_existing`; `None` is an error. */
    method BackupExisting(path: Path, backup: Path, existsFault: bool, renameFault: bool) returns (taken: Option<bool>)
      requires path != backup && At(files, backup).None?
      modifies this
      ensures taken.None? <==> existsFault || (At(old(files), path).Some? && renameFault)
      ensures taken.None? ==> files == old(files)
      ensures taken.Some? ==>
                && taken.value == At(old(files), path).Some?
                && At(files, path).None? && At(files, backup) == At(old(files), path)
      ensures forall p {:trigger At(files, p)} :: p !in {path, backup} ==> At(files, p) == At(old(files), p)
      ensures history == old(history) || history == old(history) + [files]
      ensures taken == Some(true) ==> history == old(history) + [files]
    {
      if existsFault {
        return None;
      }
      if path !in files {
        return Some(false);
      }
      var ok := Rename(path, backup, renameFault);
      return if ok then Some(true) else None;
    }

    /** `restore_backup`. It never loses what was at the backup path. */
    method RestoreBackup(path: Path, backup: Path, taken: bool, isDir: bool, removeFault: bool, renameFault: bool, ghost fs: Files, ghost j: Job)
      requires path != backup && taken == At(fs, path).Some? && At(files, backup) == At(fs, path)
      requires Distinct(j) && Safe(fs, files, j)
      requires (path == j.finalPayload && backup == j.payloadBackup) || (path == j.finalMeta && backup == j.metaBackup)
      modifies this
      ensures SafelyExtends(old(history), history, fs, j) && Safe(fs, files, j)
      ensures !renameFault && At(old(files), path).None? ==> At(files, path) == At(fs, path)
      ensures !taken ==> files == old(files)
      ensures forall p {:trigger At(files, p)} :: p !in {path, backup} ==> At(files, p) == At(old(files), p)
    {
      hide At, SafelyExtends, Paths;
      SafeSoFar(history, fs, j);
      if taken {
        RemoveIfExists(path, isDir, removeFault);
        SafeStep(old(history), old(history), files, fs, j);
        ghost var middle := history;
        var _ := Rename(backup, path, renameFault);
        SafeStep(old(history), middle, files, fs, j);
      }
    }
  }

  /** The common tail of both error paths: metadata first, then the payload. */
  method RestoreBoth(disk: Disk, j: Job, payloadTaken: bool, metaTaken: bool, f: Faults, ghost fs: Files)
    requires Distinct(j) && BothAside(fs, disk.files, j) && OthersSame(fs, disk.files, j) && At(disk.files, j.finalMeta).None?
    requires payloadTaken == At(fs, j.finalPayload).Some? && metaTaken == At(fs, j.finalMeta).Some?
    modifies disk
    ensures SafelyExtends(old(disk.history), disk.history, fs, j) && OthersSame(fs, disk.files, j)
    ensures UndoWorks(f) && At(old(disk.files), j.finalPayload).None? ==>
              At(disk.files, j.finalPayload) == At(fs, j.finalPayload) && At(disk.files, j.finalMeta) == At(fs, j.finalMeta)
  {
    hide At, SafelyExtends;
    disk.RestoreBackup(j.finalMeta, j.metaBackup, metaTaken, false, f.undoMetaRemove, f.undoMetaRename, fs, j);
    ghost var middle := disk.history;
    disk.RestoreBackup(j.finalPayload, j.payloadBackup, payloadTaken, j.payloadIsDir, f.undoPayloadRemove, f.undoPayloadRename, fs, j);
    SafeOnwards(old(disk.history), middle, disk.history, fs, j);
  }

  /** The two backups that come first. `None` in `stop` means both succeeded. */
  method SetAside(disk: Disk, j: Job, f: Faults) returns (stop: Option<Outcome>, payloadTaken: bool, metaTaken: bool)
    requires WellPrepared(disk.files, j) && !f.createDirs
    modifies disk
    ensures SafelyExtends(old(disk.history), disk.history, old(disk.files), j) && OthersSame(old(disk.files), disk.files, j)
    ensures stop.None? ==>
              && BothAside(old(disk.files), disk.files, j)
              && At(disk.files, j.finalPayload).None? && At(disk.files, j.finalMeta).None?
              && At(disk.files, j.tmpPayload) == At(old(disk.files), j.tmpPayload)
              && At(disk.files, j.tmpMeta) == At(old(disk.files), j.tmpMeta)
              && payloadTaken == At(old(disk.files), j.finalPayload).Some?
              && metaTaken == At(old(disk.files), j.finalMeta).Some?
    ensures stop == var r := OutcomeOf(old(disk.files), j, f);
                    if r.FailedFirstBackup? || r.FailedSecondBackup? then Some(r) else None
    // which old files were away at some moment
    ensures At(old(disk.files), j.finalPayload).Some? ==>
              (Moved(old(disk.history), disk.history, old(disk.files), j.finalPayload) <==> PayloadSetAside(old(disk.files), j, f))
    ensures At(old(disk.files), j.finalMeta).Some? ==>
              (Moved(old(disk.history), disk.history, old(disk.files), j.finalMeta) <==> MetaSetAside(old(disk.files), j, f))
    ensures stop == Some(FailedFirstBackup) ==> disk.files == old(disk.files)
    ensures stop == Some(FailedSecondBackup) ==>
              && At(disk.files, j.finalMeta) == At(old(disk.files), j.finalMeta)
              && At(disk.files, j.finalPayload).None?
              && At(disk.files, j.payloadBackup) == At(old(disk.files), j.finalPayload)
  {
    hide At, SafelyExtends, Moved;
    ghost var fs, start := disk.files, disk.history;
    SafeSoFar(start, fs, j);
    payloadTaken, metaTaken := false, false;
    MovedNow(start, start, fs, fs, j.finalPayload);
    MovedNow(start, start, fs, fs, j.finalMeta);
    var payload := disk.BackupExisting(j.finalPayload, j.payloadBackup, f.payloadExists, f.payloadBackup);
    SafeStep(start, start, disk.files, fs, j);
    MovedNow(start, start, disk.files, fs, j.finalPayload);
    MovedNow(start, start, disk.files, fs, j.finalMeta);
    if payload.None? {
      return Some(FailedFirstBackup), payloadTaken, metaTaken;
    }
    payloadTaken := payload.value;
    ghost var middle := disk.history;
    var meta := disk.BackupExisting(j.finalMeta, j.metaBackup, f.metaExists, f.metaBackup);
    SafeStep(start, middle, disk.files, fs, j);
    MovedNow(start, middle, disk.files, fs, j.finalPayload);
    MovedNow(start, middle, disk.files, fs, j.finalMeta);
    if meta.None? {
      return Some(FailedSecondBackup), payloadTaken, metaTaken;
    }
    metaTaken := meta.value;
    return None, payloadTaken, metaTaken;
  }

  /** The two renames and, if one of them fails, the way back. */
  method MoveIn(disk: Disk, j: Job, payloadTaken: bool, metaTaken: bool, f: Faults, ghost fs: Files) returns (r: Outcome)
    requires WellPrepared(fs, j) && BothAside(fs, disk.files, j) && OthersSame(fs, disk.files, j)
    requires At(disk.files, j.finalPayload).None? && At(disk.files, j.finalMeta).None?
    requires At(disk.files, j.tmpPayload) == At(fs, j.tmpPayload) && At(disk.files, j.tmpMeta) == At(fs, j.tmpMeta)
    requires payloadTaken == At(fs, j.finalPayload).Some? && metaTaken == At(fs, j.finalMeta).Some?
    modifies disk
    ensures SafelyExtends(old(disk.history), disk.history, fs, j) && OthersSame(fs, disk.files, j)
    ensures r == if f.payloadRename || At(fs, j.tmpPayload).None? then FailedPayload
                 else if f.metaRename || At(fs, j.tmpMeta).None? then FailedMeta else Published
    ensures r == Published ==>
              && At(disk.files, j.finalPayload) == At(fs, j.tmpPayload) && At(disk.files, j.tmpPayload).None?
              && At(disk.files, j.finalMeta) == At(fs, j.tmpMeta) && At(disk.files, j.tmpMeta).None?
              && BothAside(fs, disk.files, j)
    ensures r != Published && UndoWorks(f) ==>
              At(disk.files, j.finalPayload) == At(fs, j.finalPayload) && At(disk.files, j.finalMeta) == At(fs, j.finalMeta)
  {
    hide At, SafelyExtends;
    ghost var start := disk.history;
    SafeSoFar(start, fs, j);
    var moved := disk.Rename(j.tmpPayload, j.finalPayload, f.payloadRename);
    ghost var h1 := disk.history;
    SafeStep(start, start, disk.files, fs, j);
    if !moved {
      RestoreBoth(disk, j, payloadTaken, metaTaken, f, fs);
      SafeOnwards(start, h1, disk.history, fs, j);
      return FailedPayload;
    }
    moved := disk.Rename(j.tmpMeta, j.finalMeta, f.metaRename);
    ghost var h2 := disk.history;
    SafeStep(start, h1, disk.files, fs, j);
    if !moved {
      disk.RemoveIfExists(j.finalPayload, j.payloadIsDir, f.undoPayload);
      ghost var h3 := disk.history;
      SafeStep(start, h2, disk.files, fs, j);
      RestoreBoth(disk, j, payloadTaken, metaTaken, f, fs);
      SafeOnwards(start, h3, disk.history, fs, j);
      return FailedMeta;
    }
    return Published;
  }

  /** `cleanup_backup` of both backups, whose errors are ignored. */
  method CleanUp(disk: Disk, j: Job, payloadTaken: bool, metaTaken: bool, f: Faults)
    requires Distinct(j)
    modifies disk
    ensures old(disk.history) <= disk.history
    ensures At(disk.files, j.payloadBackup) ==
            if payloadTaken && !f.cleanPayload && OfKind(At(old(disk.files), j.payloadBackup), j.payloadIsDir)
            then None else At(old(disk.files), j.payloadBackup)
    ensures At(disk.files, j.metaBackup) ==
            if metaTaken && !f.cleanMeta && OfKind(At(old(disk.files), j.metaBackup), false)
            then None else At(old(disk.files), j.metaBackup)
    ensures forall p {:trigger At(disk.files, p)} :: p !in {j.payloadBackup, j.metaBackup} ==> At(disk.files, p) == At(old(disk.files), p)
  {
    hide At;
    if payloadTaken {
      disk.RemoveIfExists(j.payloadBackup, j.payloadIsDir, f.cleanPayload);
    }
    if metaTaken {
      disk.RemoveIfExists(j.metaBackup, false, f.cleanMeta);
    }
  }

  /** From the two renames to the end. The ghost result is the history up to where cleanup begins. */
  method Finish(disk: Disk, j: Job, payloadTaken: bool, metaTaken: bool, f: Faults, ghost fs: Files)
    returns (r: Outcome, ghost beforeCleanup: seq<Files>)
    requires WellPrepared(fs, j) && BothAside(fs, disk.files, j) && OthersSame(fs, disk.files, j)
    requires At(disk.files, j.finalPayload).None? && At(disk.files, j.finalMeta).None?
    requires At(disk.files, j.tmpPayload) == At(fs, j.tmpPayload) && At(disk.files, j.tmpMeta) == At(fs, j.tmpMeta)
    requires payloadTaken == At(fs, j.finalPayload).Some? && metaTaken == At(fs, j.finalMeta).Some?
    modifies disk
    ensures SafelyExtends(old(disk.history), beforeCleanup, fs, j) && OthersSame(fs, disk.files, j)
    ensures beforeCleanup <= disk.history && (r != Published ==> beforeCleanup == disk.history)
    ensures r == if f.payloadRename || At(fs, j.tmpPayload).None? then FailedPayload
                 else if f.metaRename || At(fs, j.tmpMeta).None? then FailedMeta else Published
    ensures r == Published ==>
              && At(disk.files, j.finalPayload) == At(fs, j.tmpPayload) && At(disk.files, j.tmpPayload).None?
              && At(disk.files, j.finalMeta) == At(fs, j.tmpMeta) && At(disk.files, j.tmpMeta).None?
              && (At(disk.files, j.payloadBackup).None? <==>
                    At(fs, j.finalPayload).None? || (!f.cleanPayload && OfKind(At(fs, j.finalPayload), j.payloadIsDir)))
              && (At(disk.files, j.metaBackup).None? <==>
                    At(fs, j.finalMeta).None? || (!f.cleanMeta && OfKind(At(fs, j.finalMeta), false)))
    ensures r != Published && UndoWorks(f) ==>
              At(disk.files, j.finalPayload) == At(fs, j.finalPayload) && At(disk.files, j.finalMeta) == At(fs, j.finalMeta)
  {
    hide At, SafelyExtends, UndoWorks, Safe, OfKind;
    r := MoveIn(disk, j, payloadTaken, metaTaken, f, fs);
    beforeCleanup := disk.history;
    if r == Published {
      CleanUp(disk, j, payloadTaken, metaTaken, f);
    }
  }

  /**
   `publish_temp_payload_and_meta`. The ghost result is the history up to where cleanup begins.
   */
  method PublishPair(disk: Disk, j: Job, f: Faults) returns (r: Outcome, ghost beforeCleanup: seq<Files>)
    requires WellPrepared(disk.files, j)
    modifies disk
    ensures r == OutcomeOf(old(disk.files), j, f)
    // whatever fails, and wherever the process stops before cleanup, both old files are still there
    ensures SafelyExtends(old(disk.history), beforeCleanup, old(disk.files), j) && beforeCleanup <= disk.history
    ensures r != Published ==> beforeCleanup == disk.history
    // success puts both new files in place
    ensures r == Published ==>
              && At(old(disk.files), j.tmpPayload).Some? && At(old(disk.files), j.tmpMeta).Some?
              && At(disk.files, j.finalPayload) == At(old(disk.files), j.tmpPayload)
              && At(disk.files, j.finalMeta) == At(old(disk.files), j.tmpMeta)
              && At(disk.files, j.tmpPayload).None? && At(disk.files, j.tmpMeta).None?
    // and leaves no backup behind, unless cleanup fails or the old file is of the other kind
    ensures r == Published ==>
              && (At(disk.files, j.payloadBackup).None? <==>
                    At(old(disk.files), j.finalPayload).None? ||
                    (!f.cleanPayload && OfKind(At(old(disk.files), j.finalPayload), j.payloadIsDir)))
              && (At(disk.files, j.metaBackup).None? <==>
                    At(old(disk.files), j.finalMeta).None? ||
                    (!f.cleanMeta && OfKind(At(old(disk.files), j.finalMeta), false)))
    // every error takes everything back, unless the way back fails, or unless the metadata cannot be set
    // aside once an old payload has been: that error returns at once
    ensures UndoWorks(f) ==>
              (AllOrNothing(old(disk.files), disk.files, j) <==>
                 !(PayloadSetAside(old(disk.files), j, f) && (f.metaExists || (At(old(disk.files), j.finalMeta).Some? && f.metaBackup))))
    ensures UndoWorks(f) && r != Published && r != FailedSecondBackup ==>
              && At(disk.files, j.finalPayload) == At(old(disk.files), j.finalPayload)
              && At(disk.files, j.finalMeta) == At(old(disk.files), j.finalMeta)
    ensures r == FailedSecondBackup ==>
              && At(disk.files, j.finalMeta) == At(old(disk.files), j.finalMeta)
              && At(disk.files, j.finalPayload).None?
              && At(disk.files, j.payloadBackup) == At(old(disk.files), j.finalPayload)
    // which old files are away at some moment before cleanup
    ensures At(old(disk.files), j.finalPayload).Some? ==>
              (Moved(old(disk.history), beforeCleanup, old(disk.files), j.finalPayload) <==> PayloadSetAside(old(disk.files), j, f))
    ensures At(old(disk.files), j.finalMeta).Some? ==>
              (Moved(old(disk.history), beforeCleanup, old(disk.files), j.finalMeta) <==> MetaSetAside(old(disk.files), j, f))
    ensures OthersSame(old(disk.files), disk.files, j)
  {
    hide *;
    ghost var fs, start := disk.files, disk.history;
    SafeSoFar(start, fs, j);
    OutcomeIs(fs, j, f);
    Unchanged(fs, j);
    beforeCleanup := disk.history;
    if f.createDirs {
      NoDirs(start, fs, j, f);
      return FailedDirs, beforeCleanup;
    }
    var stop, payloadTaken, metaTaken := SetAside(disk, j, f);
    beforeCleanup := disk.history;
    if stop.Some? {
      Verdict(fs, disk.files, j, f);
      return stop.value, beforeCleanup;
    }
    ghost var middle := disk.history;
    r, beforeCleanup := Finish(disk, j, payloadTaken, metaTaken, f, fs);
    AwayStays(start, middle, beforeCleanup, fs, j);
    SafeOnwards(start, middle, beforeCleanup, fs, j);
    Verdict(fs, disk.files, j, f);
  }

  lemma Unchanged(fs: Files, j: Job)
    ensures OthersSame(fs, fs, j)
  {
  }

  lemma OutcomeIs(fs: Files, j: Job, f: Faults)
    ensures var r := OutcomeOf(fs, j, f);
            && (f.createDirs <==> r == FailedDirs)
            && (!f.createDirs && !r.FailedFirstBackup? && !r.FailedSecondBackup? ==>
                  && (At(fs, j.finalPayload).Some? ==> PayloadSetAside(fs, j, f))
                  && (At(fs, j.finalMeta).Some? ==> MetaSetAside(fs, j, f))
                  && r == if f.payloadRename || At(fs, j.tmpPayload).None? then FailedPayload
                          else if f.metaRename || At(fs, j.tmpMeta).None? then FailedMeta else Published)
  {
  }

  lemma NoDirs(start: seq<Files>, fs: Files, j: Job, f: Faults)
    requires f.createDirs
    ensures AllOrNothing(fs, fs, j) && !PayloadSetAside(fs, j, f) && !MetaSetAside(fs, j, f)
    ensures !Moved(start, start, fs, j.finalPayload) && !Moved(start, start, fs, j.finalMeta)
  {
  }

  /** What became of the two final paths, put together. */
  lemma Verdict(fs: Files, now: Files, j: Job, f: Faults)
    requires var r := OutcomeOf(fs, j, f);
             && (r == Published ==> At(now, j.finalPayload) == At(fs, j.tmpPayload) && At(now, j.finalMeta) == At(fs, j.tmpMeta))
             && (r == FailedSecondBackup ==> At(now, j.finalMeta) == At(fs, j.finalMeta) && At(now, j.finalPayload).None?)
             && (r != Published && r != FailedSecondBackup && UndoWorks(f) ==>
                   At(now, j.finalPayload) == At(fs, j.finalPayload) && At(now, j.finalMeta) == At(fs, j.finalMeta))
    ensures UndoWorks(f) ==>
              (AllOrNothing(fs, now, j) <==>
                 !(PayloadSetAside(fs, j, f) && (f.metaExists || (At(fs, j.finalMeta).Some? && f.metaBackup))))
  {
    hide At;
  }

  lemma AwayStays(a: seq<Files>, b: seq<Files>, c: seq<Files>, fs: Files, j: Job)
    requires SafelyExtends(a, b, fs, j) && SafelyExtends(b, c, fs, j)
    ensures Moved(a, b, fs, j.finalPayload) ==> Moved(a, c, fs, j.finalPayload)
    ensures Moved(a, b, fs, j.finalMeta) ==> Moved(a, c, fs, j.finalMeta)
  {
    hide Moved, Safe;
    if Moved(a, b, fs, j.finalPayload) {
      MovedLater(a, b, c, fs, j.finalPayload);
    }
    if Moved(a, b, fs, j.finalMeta) {
      MovedLater(a, b, c, fs, j.finalMeta);
    }
  }

  // ---------------------------------------------------------------- a crash, and then housekeeping

  const TEMPNAME: string := ".maxio-tmp-"
  const TEMP: string := "/" + TEMPNAME

  /** A leftover that housekeeping finds: an entry with a temporary name, directly in the bucket's directory. */
  predicate LeftOver(dir: Path, p: Path) {
    |dir + TEMP| <= |p| && p[..|dir + TEMP|] == dir + TEMP && '/' !in p[|dir + TEMP|..]
  }

  /** `sweep_temp_files`: every such entry goes, whatever its age. */
  function WithoutLeftOvers(fs: Files, dir: Path): Files {
    map p | p in fs && !LeftOver(dir, p) :: fs[p]
  }

  /** What was at a path is neither there nor at its backup any more. */
  predicate Lost(fs: Files, now: Files, path: Path, backup: Path) {
    At(fs, path).Some? && At(now, path) != At(fs, path) && At(now, backup) != At(fs, path)
  }

  /** A stop somewhere in the history, followed by housekeeping, loses what was at the path. */
  ghost predicate CrashLoses(before: seq<Files>, after: seq<Files>, fs: Files, dir: Path, path: Path, backup: Path) {
    exists i :: |before| <= i < |after| && Lost(fs, WithoutLeftOvers(after[i], dir), path, backup)
  }

  /** After a stop the old files are still on disk; housekeeping then deletes those that are away, if their backup is directly in the bucket. */
  lemma CrashLosesIff(before: seq<Files>, after: seq<Files>, fs: Files, j: Job, dir: Path, meta: bool)
    requires SafelyExtends(before, after, fs, j)
    requires !LeftOver(dir, j.finalPayload) && !LeftOver(dir, j.finalMeta)
    ensures var path, backup := if meta then j.finalMeta else j.finalPayload, if meta then j.metaBackup else j.payloadBackup;
            CrashLoses(before, after, fs, dir, path, backup)
            <==> At(fs, path).Some? && LeftOver(dir, backup) && Moved(before, after, fs, path)
  {
    var path, backup := if meta then j.finalMeta else j.finalPayload, if meta then j.metaBackup else j.payloadBackup;
    forall i | |before| <= i < |after|
      ensures Lost(fs, WithoutLeftOvers(after[i], dir), path, backup)
              <==> At(fs, path).Some? && LeftOver(dir, backup) && At(after[i], path) != At(fs, path)
    {
      assert Safe(fs, after[i], j);
      SweptAt(after[i], dir, path);
      SweptAt(after[i], dir, backup);
      hide At, LeftOver;
    }
    hide At, LeftOver, Lost, Safe;
  }

  lemma SweptAt(fs: Files, dir: Path, p: Path)
    ensures At(WithoutLeftOvers(fs, dir), p) == if LeftOver(dir, p) then None else At(fs, p)
  {
    hide LeftOver;
  }

  // ---------------------------------------------------------------- the files of a key

  /** `Path::parent`, on text. */
  function Parent(p: Path): Path {
    if p == "" then "" else
    var front := p[..|p| - 1];
    if p[|p| - 1] == '/' then front else Parent(front)
  }

  /** `temp_sibling_path`, with the random part as a parameter. */
  function TempSibling(p: Path, id: string): Path {
    Parent(p) + TEMP + id
  }

  /** `trim_end_matches('/')`. */
  function TrimEnd(key: string): string {
    if key != "" && key[|key| - 1] == '/' then TrimEnd(key[..|key| - 1]) else key
  }

  /** The object file or the chunk directory of a key, and its metadata file, in a bucket's directory. */
  function PayloadPath(dir: Path, key: string, isDir: bool): Path {
    if isDir then dir + "/" + (key + ".ec")
    else if key != "" && key[|key| - 1] == '/' then dir + "/" + TrimEnd(key) + "/" + ".folder"
    else dir + "/" + key
  }

  function MetaPath(dir: Path, key: string): Path {
    if key != "" && key[|key| - 1] == '/' then dir + "/" + TrimEnd(key) + "/" + ".folder.meta.json"
    else dir + "/" + (key + ".meta.json")
  }

  /** A key that ends in slashes is a folder, whose files are inside. */
  lemma FolderPaths(dir: Path, stem: string)
    requires stem != "" && stem[|stem| - 1] != '/'
    ensures PayloadPath(dir, stem + "/", false) == dir + "/" + stem + "/" + ".folder"
    ensures MetaPath(dir, stem + "/") == dir + "/" + stem + "/" + ".folder.meta.json"
  {
    assert (stem + "/")[..|stem|] == stem;
    assert TrimEnd(stem + "/") == stem;
  }

  /** The random parts of the four temporary names. */
  datatype Ids = Ids(payload: string, meta: string, payloadBackup: string, metaBackup: string)

  function JobOf(dir: Path, key: string, isDir: bool, ids: Ids): Job {
    var payload, meta := PayloadPath(dir, key, isDir), MetaPath(dir, key);
    Job(TempSibling(payload, ids.payload), payload, isDir, TempSibling(meta, ids.meta), meta,
        TempSibling(payload, ids.payloadBackup), TempSibling(meta, ids.metaBackup))
  }

  lemma {:induction false} ParentOf(dir: Path, name: string)
    requires '/' !in name
    ensures Parent(dir + "/" + name) == dir
  {
    var p := dir + "/" + name;
    if name == "" {
      assert p[..|p| - 1] == dir;
    } else {
      ParentOf(dir, name[..|name| - 1]);
      assert p[..|p| - 1] == dir + "/" + name[..|name| - 1];
    }
  }

  /** The parent reaches at least to any given slash. */
  lemma {:induction false} ParentReaches(p: Path, i: nat)
    requires i < |p| && p[i] == '/'
    ensures |Parent(p)| >= i
  {
    if p[|p| - 1] != '/' {
      ParentReaches(p[..|p| - 1], i);
    }
  }

  /** Directly in the bucket's directory are the files of the keys without a slash. */
  lemma DirectlyIn(dir: Path, key: string, suffix: string)
    requires '/' !in suffix
    ensures Parent(dir + "/" + (key + suffix)) == dir <==> '/' !in key
  {
    if '/' in key {
      var i :| 0 <= i < |key| && key[i] == '/';
      ParentReaches(dir + "/" + (key + suffix), |dir| + 1 + i);
    } else {
      ParentOf(dir, key + suffix);
    }
  }

  lemma KeyDirectlyIn(dir: Path, key: string, isDir: bool)
    ensures Parent(PayloadPath(dir, key, isDir)) == dir <==> '/' !in key
    ensures Parent(MetaPath(dir, key)) == dir <==> '/' !in key
  {
    DirectlyIn(dir, key, ".ec");
    DirectlyIn(dir, key, "");
    DirectlyIn(dir, key, ".meta.json");
    assert key + "" == key;
    ParentOf(dir + "/" + TrimEnd(key), ".folder");
    ParentOf(dir + "/" + TrimEnd(key), ".folder.meta.json");
    hide Parent, TrimEnd;
  }

  /** Housekeeping takes a temporary name for its own iff it stands beside a file directly in the bucket. */
  lemma SiblingIsLeftOverIff(dir: Path, p: Path, id: string)
    requires '/' !in id
    ensures LeftOver(dir, TempSibling(p, id)) <==> Parent(p) == dir
  {
    var t := TempSibling(p, id);
    hide Parent;
    assert t == Parent(p) + "/" + (TEMPNAME + id);
    ParentOf(Parent(p), TEMPNAME + id);
    if LeftOver(dir, t) {
      var x := t[|dir + TEMP|..];
      assert t == dir + "/" + (TEMPNAME + x);
      ParentOf(dir, TEMPNAME + x);
    }
    if Parent(p) == dir {
      assert t[..|dir + TEMP|] == dir + TEMP;
      assert t[|dir + TEMP|..] == id;
    }
  }

  /** A key that is not itself a temporary name has no leftover among its files. */
  lemma NoLeftOver(dir: Path, name: string)
    requires !(TEMPNAME <= name)
    ensures !LeftOver(dir, dir + "/" + name)
  {
    var p := dir + "/" + name;
    assert p[|dir| + 1..] == name;
  }

  /** A longer name begins like a temporary name only if the key itself does. */
  lemma BeginsLikeTheKey(key: string, suffix: string)
    requires !(TEMPNAME <= key) && |suffix| > 0 && suffix[0] in {'.', '/'} && !(TEMPNAME <= suffix)
    ensures !(TEMPNAME <= key + suffix)
  {
    assert key == "" ==> key + suffix == suffix;
    assert (key + suffix)[|key|] == suffix[0];
    assert |TEMPNAME| <= |key| ==> (key + suffix)[..|TEMPNAME|] == key[..|TEMPNAME|];
  }

  /** Trailing slashes go, and nothing else. */
  lemma {:induction false} TrimEndIs(key: string)
    ensures TrimEnd(key) <= key && (TrimEnd(key) != "" ==> TrimEnd(key)[|TrimEnd(key)| - 1] != '/')
    ensures forall i :: |TrimEnd(key)| <= i < |key| ==> key[i] == '/'
  {
    if key != "" && key[|key| - 1] == '/' {
      TrimEndIs(key[..|key| - 1]);
    }
  }

  lemma PlainFileIsNoLeftOver(dir: Path, key: string, suffix: string)
    requires !(TEMPNAME <= key) && suffix in {".ec", ".meta.json"}
    ensures !LeftOver(dir, dir + "/" + (key + suffix))
  {
    BeginsLikeTheKey(key, suffix);
    hide *;
    NoLeftOver(dir, key + suffix);
  }

  lemma FolderFileIsNoLeftOver(dir: Path, key: string, name: string)
    requires !(TEMPNAME <= key)
    ensures !LeftOver(dir, dir + "/" + TrimEnd(key) + "/" + name)
  {
    var stem := TrimEnd(key);
    TrimEndIs(key);
    hide LeftOver, TrimEnd;
    assert !(TEMPNAME <= stem);
    BeginsLikeTheKey(stem, "/" + name);
    NoLeftOver(dir, stem + ("/" + name));
    assert dir + "/" + stem + "/" + name == dir + "/" + (stem + ("/" + name));
  }

  lemma FilesAreNoLeftOvers(dir: Path, key: string, isDir: bool)
    requires !(TEMPNAME <= key)
    ensures !LeftOver(dir, PayloadPath(dir, key, isDir)) && !LeftOver(dir, MetaPath(dir, key))
  {
    hide LeftOver, TrimEnd;
    NoLeftOver(dir, key);
    PlainFileIsNoLeftOver(dir, key, ".ec");
    PlainFileIsNoLeftOver(dir, key, ".meta.json");
    FolderFileIsNoLeftOver(dir, key, ".folder");
    FolderFileIsNoLeftOver(dir, key, ".folder.meta.json");
  }

  /** What a stop does to the two old files, over a history whose moves are known. */
  lemma KeyLosesIff(before: seq<Files>, after: seq<Files>, fs: Files, dir: Path, key: string, isDir: bool, ids: Ids)
    requires !(TEMPNAME <= key) && '/' !in ids.payloadBackup && '/' !in ids.metaBackup
    requires var j := JobOf(dir, key, isDir, ids); SafelyExtends(before, after, fs, j)
    ensures var j := JobOf(dir, key, isDir, ids);
            && (CrashLoses(before, after, fs, dir, j.finalPayload, j.payloadBackup)
                <==> '/' !in key && At(fs, j.finalPayload).Some? && Moved(before, after, fs, j.finalPayload))
            && (CrashLoses(before, after, fs, dir, j.finalMeta, j.metaBackup)
                <==> '/' !in key && At(fs, j.finalMeta).Some? && Moved(before, after, fs, j.finalMeta))
  {
    var j := JobOf(dir, key, isDir, ids);
    JobIs(dir, key, isDir, ids);
    hide *;
    FilesAreNoLeftOvers(dir, key, isDir);
    KeyDirectlyIn(dir, key, isDir);
    SiblingIsLeftOverIff(dir, j.finalPayload, ids.payloadBackup);
    SiblingIsLeftOverIff(dir, j.finalMeta, ids.metaBackup);
    CrashLosesIff(before, after, fs, j, dir, false);
    CrashLosesIff(before, after, fs, j, dir, true);
  }

  lemma JobIs(dir: Path, key: string, isDir: bool, ids: Ids)
    ensures var j := JobOf(dir, key, isDir, ids);
            && j.finalPayload == PayloadPath(dir, key, isDir) && j.finalMeta == MetaPath(dir, key)
            && j.payloadBackup == TempSibling(j.finalPayload, ids.payloadBackup)
            && j.metaBackup == TempSibling(j.finalMeta, ids.metaBackup)
  {
  }

  /**
   Publishing over a key: a stop before cleanup, followed by housekeeping, can lose the old payload iff there is
   one, it is set aside, and the key has no slash; and likewise the old metadata.
   */
  method PublishKey(disk: Disk, dir: Path, key: string, isDir: bool, ids: Ids, f: Faults) returns (r: Outcome, ghost beforeCleanup: seq<Files>)
    requires !(TEMPNAME <= key) && '/' !in ids.payloadBackup && '/' !in ids.metaBackup
    requires WellPrepared(disk.files, JobOf(dir, key, isDir, ids))
    modifies disk
    ensures var j := JobOf(dir, key, isDir, ids);
            && r == OutcomeOf(old(disk.files), j, f) && beforeCleanup <= disk.history
            && (CrashLoses(old(disk.history), beforeCleanup, old(disk.files), dir, j.finalPayload, j.payloadBackup)
                <==> '/' !in key && PayloadSetAside(old(disk.files), j, f))
            && (CrashLoses(old(disk.history), beforeCleanup, old(disk.files), dir, j.finalMeta, j.metaBackup)
                <==> '/' !in key && MetaSetAside(old(disk.files), j, f))
  {
    var j := JobOf(dir, key, isDir, ids);
    ghost var fs, start := disk.files, disk.history;
    r, beforeCleanup := PublishPair(disk, j, f);
    AsideIs(fs, j, f);
    hide *;
    KeyLosesIff(start, beforeCleanup, fs, dir, key, isDir, ids);
  }

  lemma AsideIs(fs: Files, j: Job, f: Faults)
    ensures PayloadSetAside(fs, j, f) ==> At(fs, j.finalPayload).Some?
    ensures MetaSetAside(fs, j, f) ==> At(fs, j.finalMeta).Some?
  {
  }

  const NOFAULT: Faults :=
    Faults(false, false, false, false, false, false, false, false, false, false, false, false, false, false)

  /** Overwriting a plain key, with no failing call at all: a stop at the wrong moment loses the old object. */
  method OverwriteCanLose() returns (r: Outcome, disk: Disk, ghost fs: Files, ghost beforeCleanup: seq<Files>)
    ensures fresh(disk) && r == Published
    ensures fs == map["b/k" := File([1]), "b/k.meta.json" := File([2]), "b/.maxio-tmp-1" := File([3]), "b/.maxio-tmp-2" := File([4])]
    ensures CrashLoses([fs], beforeCleanup, fs, "b", "b/k", "b/.maxio-tmp-3")
    ensures CrashLoses([fs], beforeCleanup, fs, "b", "b/k.meta.json", "b/.maxio-tmp-4")
  {
    fs := map["b/k" := File([1]), "b/k.meta.json" := File([2]), "b/.maxio-tmp-1" := File([3]), "b/.maxio-tmp-2" := File([4])];
    disk := new Disk(map["b/k" := File([1]), "b/k.meta.json" := File([2]), "b/.maxio-tmp-1" := File([3]), "b/.maxio-tmp-2" := File([4])]);
    PlainJob();
    PlainStart(fs, JobOf("b", "k", false, Ids("1", "2", "3", "4")));
    hide *;
    r, beforeCleanup := PublishKey(disk, "b", "k", false, Ids("1", "2", "3", "4"), NOFAULT);
  }

  lemma SiblingOf(dir: Path, name: string, id: string)
    requires '/' !in name
    ensures TempSibling(dir + "/" + name, id) == dir + TEMP + id
  {
    ParentOf(dir, name);
  }

  lemma PlainPaths()
    ensures PayloadPath("b", "k", false) == "b/k" && MetaPath("b", "k") == "b/k.meta.json"
    ensures TempSibling("b/k", "1") == "b/.maxio-tmp-1" && TempSibling("b/k", "3") == "b/.maxio-tmp-3"
    ensures TempSibling("b/k.meta.json", "2") == "b/.maxio-tmp-2" && TempSibling("b/k.meta.json", "4") == "b/.maxio-tmp-4"
  {
    hide Parent, TempSibling, TrimEnd;
    assert "b/k" == "b" + "/" + "k";
    assert "b/k.meta.json" == "b" + "/" + ("k" + ".meta.json");
    SiblingOf("b", "k", "1");
    SiblingOf("b", "k", "3");
    SiblingOf("b", "k" + ".meta.json", "2");
    SiblingOf("b", "k" + ".meta.json", "4");
    assert "b" + TEMP == "b/.maxio-tmp-";
  }

  lemma PlainJob()
    ensures JobOf("b", "k", false, Ids("1", "2", "3", "4"))
         == Job("b/.maxio-tmp-1", "b/k", false, "b/.maxio-tmp-2", "b/k.meta.json", "b/.maxio-tmp-3", "b/.maxio-tmp-4")
  {
    PlainPaths();
    hide TempSibling, PayloadPath, MetaPath;
  }

  lemma PlainStart(fs: Files, j: Job)
    requires fs == map["b/k" := File([1]), "b/k.meta.json" := File([2]), "b/.maxio-tmp-1" := File([3]), "b/.maxio-tmp-2" := File([4])]
    requires j == Job("b/.maxio-tmp-1", "b/k", false, "b/.maxio-tmp-2", "b/k.meta.json", "b/.maxio-tmp-3", "b/.maxio-tmp-4")
    ensures WellPrepared(fs, j) && OutcomeOf(fs, j, NOFAULT) == Published
    ensures PayloadSetAside(fs, j, NOFAULT) && MetaSetAside(fs, j, NOFAULT)
  {
  }
}
