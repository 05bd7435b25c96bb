/** The replacement transaction: `writeReader`, `replace`, and the `commit` they share. */
module DurableFile {
  import opened Wrappers
  import opened Disks
  import opened CrashSafety
  import opened ReplacementSpec
  import opened FileSystem

  /** nil, a plain error, and a *CommittedError. */
  datatype Outcome = Success | PlainError | CommittedError

  /** The missing ancestors, found by walking up until something exists; then all are created. */
  method CreateParentDirectories(fs: FileSystem, directory: Path) returns (created: Option<seq<Path>>)
    requires fs.Valid()
    modifies fs
    ensures fs.Valid() && fs.syncs == old(fs.syncs) && fs.unremoved == old(fs.unremoved)
    ensures Grown(old(fs.disk), fs.disk, directory)
    ensures old(fs.history) <= fs.history
    ensures forall i :: |old(fs.history)| <= i < |fs.history| ==> Grown(old(fs.disk), fs.history[i], directory)
    ensures created.Some? ==> created.value == MissingFrom(old(fs.disk), directory) && Live(fs.disk, directory).Directory?
    ensures fs.Justified(created.Some?, Live(old(fs.disk), directory).File? || FileAbove(old(fs.disk), directory))
  {
    var missing: seq<Path>, current := [], directory;
    while true
      modifies fs`faults
      invariant old(fs.faults) <= fs.faults
      invariant FileAbove(fs.disk, current) ==> FileAbove(fs.disk, directory)
      invariant missing + MissingFrom(fs.disk, current) == MissingFrom(fs.disk, directory)
      decreases |current|
    {
      var r := fs.Stat(current);
      if r.Found? {
        break;
      }
      if r.StatFailed? {
        return None;
      }
      missing := missing + [current];
      if Dir(current) == current {
        break;
      }
      FileAboveParent(fs.disk, current);
      current := Dir(current);
    }
    var ok := fs.MkdirAll(directory);
    created := if ok then Some(missing) else None;
  }

  ghost predicate AllDirectories(run: SyncRun) {
    forall x :: x in run.directories ==> Live(run.start, x).Directory?
  }

  /** The next sync of a run; `k` syncs went before it. */
  method SyncNext(fs: FileSystem, directory: Path, ghost run: SyncRun, ghost k: nat) returns (ok: bool)
    requires fs.Valid() && Reached(run, k, fs.disk, fs.syncs)
    requires k < |run.directories| && run.directories[k] == directory
    modifies fs
    ensures fs.Valid() && fs.unremoved == old(fs.unremoved)
    ensures if ok then Reached(run, k + 1, fs.disk, fs.syncs) else Stopped(run, k, fs.disk, fs.syncs)
    ensures fs.history == old(fs.history) + [fs.disk]
    ensures PartlySynced(run.start, run.directories, fs.disk)
    ensures fs.Justified(ok, !AllDirectories(run))
  {
    SyncOneMore(run.start, run.directories, k);
    SyncAllMayHold(run.start, run.directories[..k], directory);
    ok := fs.SyncDirectory(directory);
    assert SyncedUpTo(run.start, run.directories, fs.disk, if ok then k + 1 else k);
  }

  /** Syncs every created directory's parent once, and stops at the first failure. */
  method SyncCreatedDirectoryParents(fs: FileSystem, created: seq<Path>, ghost run: SyncRun, ghost k: nat)
    returns (ok: bool, ghost reached: nat)
    requires fs.Valid() && Reached(run, k, fs.disk, fs.syncs)
    requires run.directories[k..] == Parents(created, {})
    modifies fs
    ensures fs.Valid() && fs.unremoved == old(fs.unremoved)
    ensures if ok then reached == |run.directories| && Reached(run, reached, fs.disk, fs.syncs)
            else Stopped(run, reached, fs.disk, fs.syncs)
    ensures old(fs.history) <= fs.history
    ensures forall i :: |old(fs.history)| <= i < |fs.history| ==> PartlySynced(run.start, run.directories, fs.history[i])
    ensures fs.Justified(ok, !AllDirectories(run))
  {
    var synced: set<Path> := {};
    reached := k;
    assert created[0..] == created;
    for i := 0 to |created|
      invariant fs.Valid() && fs.unremoved == old(fs.unremoved) && Reached(run, reached, fs.disk, fs.syncs)
      invariant run.directories[reached..] == Parents(created[i..], synced)
      invariant old(fs.history) <= fs.history && old(fs.faults) <= fs.faults
      invariant forall j :: |old(fs.history)| <= j < |fs.history| ==> PartlySynced(run.start, run.directories, fs.history[j])
    {
      var parent := Dir(created[i]);
      assert created[i..][1..] == created[i + 1..];
      if parent in synced {
        continue;
      }
      assert run.directories[reached] == run.directories[reached..][0] == parent;
      ok := SyncNext(fs, parent, run, reached);
      if !ok {
        return false, reached;
      }
      assert run.directories[reached + 1..] == run.directories[reached..][1..];
      reached := reached + 1;
      synced := synced + {parent};
    }
    ok := true;
  }

  /** The syncs that follow a replacement by `commit`. */
  ghost function CommitRun(d: Disk, log: seq<DirectorySync>, source: Path, destination: Path, directories: seq<Path>): SyncRun {
    SyncRun(Rename(d, source, destination), log, directories)
  }

  /** What one call of `commit` may have done to the disk and to the log of syncs. */
  ghost predicate Committed(d: Disk, log: seq<DirectorySync>, source: Path, destination: Path, directories: seq<Path>,
                            outcome: Outcome, d': Disk, log': seq<DirectorySync>) {
    var run := CommitRun(d, log, source, destination, directories);
    match outcome
    case PlainError => d' == d && log' == log
    case Success => RenameAllowed(d, source, destination) && Reached(run, |directories|, d', log')
    case CommittedError => RenameAllowed(d, source, destination) && exists k: nat :: Stopped(run, k, d', log')
  }

  /** The disks that may be seen during `commit`. */
  ghost predicate DuringCommit(d: Disk, source: Path, destination: Path, directories: seq<Path>, outcome: Outcome, seen: Disk) {
    || seen == d
    || (&& !outcome.PlainError? && RenameAllowed(d, source, destination)
        && PartlySynced(Rename(d, source, destination), directories, seen))
  }

  /** The source's directory, if it is another one, and then the created directories' parents. */
  method SyncSourceAndParents(fs: FileSystem, sourceDir: Path, destinationDir: Path, created: seq<Path>, ghost run: SyncRun)
    returns (ok: bool, ghost reached: nat)
    requires fs.Valid() && run.directories == RequiredSyncs(destinationDir, sourceDir, created)
    requires Reached(run, 1, fs.disk, fs.syncs)
    modifies fs
    ensures fs.Valid() && fs.unremoved == old(fs.unremoved)
    ensures if ok then Reached(run, |run.directories|, fs.disk, fs.syncs) else Stopped(run, reached, fs.disk, fs.syncs)
    ensures old(fs.history) <= fs.history
    ensures forall i :: |old(fs.history)| <= i < |fs.history| ==> PartlySynced(run.start, run.directories, fs.history[i])
    ensures fs.Justified(ok, !AllDirectories(run))
  {
    reached := 1;
    if sourceDir != destinationDir {
      ok := SyncNext(fs, sourceDir, run, 1);
      if !ok {
        return;
      }
      reached := 2;
    }
    assert run.directories[reached..] == Parents(created, {});
    ok, reached := SyncCreatedDirectoryParents(fs, created, run, reached);
  }

  /** The directory syncs of `commit`, in their order. */
  method SyncAffectedDirectories(fs: FileSystem, sourceDir: Path, destinationDir: Path, created: seq<Path>, ghost run: SyncRun)
    returns (ok: bool, ghost reached: nat)
    requires fs.Valid() && fs.disk == run.start && fs.syncs == run.log
    requires run.directories == RequiredSyncs(destinationDir, sourceDir, created)
    modifies fs
    ensures fs.Valid() && fs.unremoved == old(fs.unremoved)
    ensures if ok then Reached(run, |run.directories|, fs.disk, fs.syncs) else Stopped(run, reached, fs.disk, fs.syncs)
    ensures old(fs.history) <= fs.history
    ensures forall i :: |old(fs.history)| <= i < |fs.history| ==> PartlySynced(run.start, run.directories, fs.history[i])
    ensures fs.Justified(ok, !AllDirectories(run))
  {
    assert run.directories[0] == destinationDir;
    reached := 0;
    ok := SyncNext(fs, destinationDir, run, 0);
    if !ok {
      return;
    }
    ok, reached := SyncSourceAndParents(fs, sourceDir, destinationDir, created, run);
  }

  /** The critical section of `commit`; the destination's lock is the subject of DestinationLocks. */
  method Commit(fs: FileSystem, source: Path, destination: Path, sourceDir: Path, destinationDir: Path, created: seq<Path>)
    returns (outcome: Outcome)
    requires fs.Valid()
    modifies fs
    ensures fs.Valid() && fs.unremoved == old(fs.unremoved)
    ensures Committed(old(fs.disk), old(fs.syncs), source, destination, RequiredSyncs(destinationDir, sourceDir, created),
                      outcome, fs.disk, fs.syncs)
    ensures old(fs.history) <= fs.history
    ensures forall i :: |old(fs.history)| <= i < |fs.history| ==>
              DuringCommit(old(fs.disk), source, destination, RequiredSyncs(destinationDir, sourceDir, created), outcome, fs.history[i])
    ensures fs.Justified(!outcome.PlainError?, !RenameAllowed(old(fs.disk), source, destination))
    ensures fs.Justified(!outcome.CommittedError?, !AllDirectories(CommitRun(old(fs.disk), old(fs.syncs), source, destination,
                                                                             RequiredSyncs(destinationDir, sourceDir, created))))
  {
    ghost var run := CommitRun(fs.disk, fs.syncs, source, destination, RequiredSyncs(destinationDir, sourceDir, created));
    var ok := fs.RenameFile(source, destination);
    if !ok {
      return PlainError;
    }
    assert SyncedUpTo(run.start, run.directories, fs.disk, 0);
    ghost var reached: nat;
    ok, reached := SyncAffectedDirectories(fs, sourceDir, destinationDir, created, run);
    outcome := if ok then Success else CommittedError;
  }

  // --------------------------------------------------------------- what a commit means

  /** The disk on which a commit starts, seen from the start of the whole replacement. */
  ghost predicate Ready(before: Disk, d: Disk, source: Path, p: Path, c: Content) {
    && WellFormed(before) && WellFormed(d)
    && Safe(before, d, p, Some(c), Moved(source, p, PlainError))
    && Unchanged(before, d, p)
    && (p != [] ==> ReadyToRename(before, d, p))
    && OnlyStaged(before, d, source, p)
    && (Live(d, source).File? ==> IsNew(d, Live(d, source), Some(c)))
  }

  /** What a call of this outcome has worked on and moved: nothing is moved unless the destination was replaced. */
  ghost function Moved(source: Path, p: Path, outcome: Outcome): Scope {
    Scope(Dir(p), {source, p}, if outcome.PlainError? then {} else {source, p})
  }

  /** Running processes see at `p` what they saw before. */
  ghost predicate Unchanged(before: Disk, d: Disk, p: Path) {
    Live(d, p) == Live(before, p) && Contents(d, p) == Contents(before, p)
  }

  lemma UnchangedIfKept(before: Disk, d: Disk, p: Path)
    requires WellFormed(before) && WellFormed(d) && Live(d, p) == Live(before, p)
    requires Live(d, p).File? && Live(d, p).inode in before.data && Live(d, p).inode in d.data ==>
               d.data[Live(d, p).inode] == before.data[Live(d, p).inode]
    ensures Unchanged(before, d, p)
  {
    if Live(d, p).File? {
      LiveFileIsRead(d, p);
      LiveFileIsRead(before, p);
    }
  }

  lemma DuringCommitIsSafe(before: Disk, d: Disk, source: Path, p: Path, c: Content, directories: seq<Path>, outcome: Outcome, seen: Disk)
    requires Ready(before, d, source, p, c) && DuringCommit(d, source, p, directories, outcome, seen)
    ensures Safe(before, seen, p, Some(c), Moved(source, p, outcome))
  {
    SafeWithMore(before, d, p, Some(c), Moved(source, p, PlainError), Moved(source, p, outcome));
    if seen != d {
      RenameSafe(before, d, source, p, Some(c), Moved(source, p, outcome));
      var k: nat :| SyncedUpTo(Rename(d, source, p), directories, seen, k);
      SyncAllSafe(before, Rename(d, source, p), p, Some(c), Moved(source, p, outcome), directories[..k]);
    }
  }

  /** Whatever became durable, after a replacement the new contents are visible. */
  lemma ReplacedIsVisible(d: Disk, source: Path, p: Path, c: Content, d': Disk, directories: seq<Path>, k: nat)
    requires WellFormed(d) && RenameAllowed(d, source, p) && IsNew(d, Live(d, source), Some(c))
    requires SyncedUpTo(Rename(d, source, p), directories, d', k)
    ensures WellFormed(d') && Contents(d', p) == Some(c)
    ensures forall q :: Live(d', q) == Live(Rename(d, source, p), q)
  {
    RenameKeepsWellFormed(d, source, p);
    SyncAllKeepsWellFormed(Rename(d, source, p), directories[..k]);
    forall q ensures Live(d', q) == Live(Rename(d, source, p), q) {
      SyncAllMayHold(Rename(d, source, p), directories[..k], q);
    }
    SyncAllMayHold(Rename(d, source, p), directories[..k], p);
    if Live(d, source) != Live(d, p) {
      RenameMayHold(d, source, p, p);
    }
    LiveFileIsRead(d', p);
  }

  /**
   The outcome of a replacement says what happened.  nil: the new contents are visible, every
   required sync succeeded, no crash can undo any change that was made, and the contents are
   durable exactly when the existing directories above were.  *CommittedError: the new
   contents are visible and a required sync failed.  Any other error: nothing changed at the
   destination and no directory was synced.
   */
  ghost predicate Meaning(before: Disk, log: seq<DirectorySync>, source: Path, p: Path, staged: Option<Content>,
                          outcome: Outcome, after: Disk, log': seq<DirectorySync>) {
    var directories := RequiredSyncs(Dir(p), Dir(source), MissingFrom(before, Dir(p)));
    match outcome
    case PlainError => Unchanged(before, after, p) && log' == log
    case CommittedError =>
      && staged.Some? && Contents(after, p) == staged
      && exists k: nat :: StoppedAt(log, log', directories, k)
    case Success =>
      && staged.Some? && Contents(after, p) == staged
      && log' == log + AllOk(directories)
      && ChangesSettled(before, after, source)
      && (Durable(after, p, staged.value) <==> AncestorsSettled(before, p, Dir(source)))
  }

  lemma CommitMeaning(before: Disk, d: Disk, log: seq<DirectorySync>, source: Path, p: Path, c: Content,
                      outcome: Outcome, after: Disk, log': seq<DirectorySync>)
    requires Ready(before, d, source, p, c)
    requires Committed(d, log, source, p, RequiredSyncs(Dir(p), Dir(source), MissingFrom(before, Dir(p))), outcome, after, log')
    ensures Meaning(before, log, source, p, Some(c), outcome, after, log')
    ensures !outcome.PlainError? ==>
              RenameAllowed(d, source, p) && forall q :: Live(after, q) == Live(Rename(d, source, p), q)
  {
    var directories := RequiredSyncs(Dir(p), Dir(source), MissingFrom(before, Dir(p)));
    var run := CommitRun(d, log, source, p, directories);
    match outcome
    case PlainError =>
    case CommittedError =>
      var k: nat :| Stopped(run, k, after, log');
      ReplacedIsVisible(d, source, p, c, after, directories, k);
    case Success =>
      assert directories[..|directories|] == directories;
      ReplacedIsVisible(d, source, p, c, after, directories, |directories|);
      DurableIffAncestorsSettled(before, d, p, source, Dir(source), c);
      ChangesAreSettled(before, d, p, source);
  }

  /** The parents of the created directories exist by the time of the commit. */
  lemma ParentExists(before: Disk, d: Disk, p: Path, x: Path)
    requires WellFormed(before) && ReadyToRename(before, d, p) && x in Parents(MissingFrom(before, Dir(p)), {})
    ensures Live(d, x).Directory?
  {
    ParentsOfMissing(before, Dir(p), x);
    assert x == p[..|x|];
  }

  /** The directories that a commit syncs all exist, so only a fault can make a sync fail. */
  lemma SyncedDirectoriesExist(before: Disk, d: Disk, log: seq<DirectorySync>, source: Path, p: Path)
    requires WellFormed(before) && WellFormed(d) && ReadyToRename(before, d, p) && RenameAllowed(d, source, p)
    ensures AllDirectories(CommitRun(d, log, source, p, RequiredSyncs(Dir(p), Dir(source), MissingFrom(before, Dir(p)))))
  {
    var created := MissingFrom(before, Dir(p));
    assert EntryOk(d, source, Live(d, source));
    forall x | x in RequiredSyncs(Dir(p), Dir(source), created) ensures Live(Rename(d, source, p), x).Directory? {
      if x != Dir(p) && x != Dir(source) {
        assert x in Parents(created, {});
        ParentExists(before, d, p, x);
      }
      if Live(d, source) != Live(d, p) {
        RenameMayHold(d, source, p, x);
      }
    }
  }

  // ------------------------------------------------------------------ staging

  /** Only the data of one inode changed. */
  ghost predicate DataOnly(d: Disk, d': Disk, inode: nat) {
    && d'.live == d.live && d'.stale == d.stale && d'.next == d.next
    && d'.data.Keys == d.data.Keys
    && (forall i :: i in d.data && i != inode ==> d'.data[i] == d.data[i])
    && d.flushed - {inode} <= d'.flushed <= d.flushed + {inode}
  }

  /** A new file, named `temporary`, that nothing else refers to. */
  ghost predicate FreshFile(d: Disk, d': Disk, temporary: Path, inode: nat) {
    && inode !in d.data && inode in d'.data && inode == d.next
    && d.data.Keys <= d'.data.Keys && (forall i :: i in d.data ==> d'.data[i] == d.data[i])
    && d.flushed <= d'.flushed
    && Live(d, temporary).Absent? && Live(d', temporary) == File(inode)
    && forall q :: q != temporary ==> SameEntry(d, d', q)
  }

  /** Sets the mode, copies the contents, flushes and closes a new temporary file. */
  method FillTemporary(fs: FileSystem, inode: nat, content: Content) returns (ok: bool)
    requires fs.Valid() && inode in fs.disk.data && inode !in fs.disk.flushed
    modifies fs
    ensures fs.Valid() && fs.syncs == old(fs.syncs) && fs.unremoved == old(fs.unremoved)
    ensures DataOnly(old(fs.disk), fs.disk, inode)
    ensures ok ==> inode in fs.disk.flushed && fs.disk.data[inode] == content
    ensures fs.Justified(ok, false)
    ensures old(fs.history) <= fs.history
    ensures forall i :: |old(fs.history)| <= i < |fs.history| ==> DataOnly(old(fs.disk), fs.history[i], inode)
  {
    ok := fs.Attempt();
    if !ok {
      return false;
    }
    ghost var copied: Content;
    ok, copied := fs.CopyInto(inode, content);
    if !ok {
      return false;
    }
    ok := fs.SyncFile(inode);
    if !ok {
      return false;
    }
    ok := fs.Attempt();
  }

  ghost predicate AllSafe(before: Disk, history: seq<Disk>, from: nat, p: Path, staged: Option<Content>, scope: Scope) {
    forall i :: from <= i < |history| ==> Safe(before, history[i], p, staged, scope)
  }

  /**
   At every disk recorded since `from` a crash shows at `p` what it could have shown before,
   or the complete new contents, and at every bystander nothing new.
   */
  ghost predicate AllCrashSafe(before: Disk, history: seq<Disk>, from: nat, p: Path, staged: Option<Content>, scope: Scope) {
    forall i :: from <= i < |history| ==> CrashSafe(before, history[i], p, staged) && OthersCrashSafe(before, history[i], scope)
  }

  lemma AllSafeIsCrashSafe(before: Disk, history: seq<Disk>, from: nat, p: Path, staged: Option<Content>, scope: Scope)
    requires WellFormed(before) && AllSafe(before, history, from, p, staged, scope)
    ensures AllCrashSafe(before, history, from, p, staged, scope)
  {
    forall i | from <= i < |history|
      ensures CrashSafe(before, history[i], p, staged) && OthersCrashSafe(before, history[i], scope) {
      SafeIsCrashSafe(before, history[i], p, staged, scope);
    }
  }

  /** After the parents have been created nothing has happened at the destination. */
  lemma GrownIsReady(before: Disk, d: Disk, p: Path)
    requires WellFormed(before) && WellFormed(d) && Grown(before, d, Dir(p)) && Live(d, Dir(p)).Directory?
    ensures Unchanged(before, d, p)
    ensures p != [] ==> ReadyToRename(before, d, p)
  {
    assert SameEntry(before, d, p);
    UnchangedIfKept(before, d, p);
    if p != [] {
      forall n | 0 <= n < |p| ensures Live(d, p[..n]).Directory? && (SameEntry(before, d, p[..n]) || MadeDirectory(before, d, p[..n])) {
        if n < |p| - 1 {
          LiveAncestors(d, Dir(p), n);
        }
        assert p[..n] == Dir(p)[..n];
        assert n == |p| - 1 ==> p[..n] == Dir(p);
      }
    }
  }

  lemma MakeFileSafe(before: Disk, d: Disk, p: Path, staged: Option<Content>, temporary: Path)
    requires WellFormed(d) && Safe(before, d, p, staged, Moved(temporary, p, PlainError)) && temporary !in Prefixes(p)
    requires Live(d, temporary).Absent? && Live(before, temporary).Absent?
    ensures Safe(before, MakeFile(d, temporary), p, staged, Moved(temporary, p, PlainError))
    ensures d.next !in d.flushed
  {
    var d1 := d.(data := d.data[d.next := ""], next := d.next + 1);
    DataElsewhere(before, d, d1, p, staged);
    BindElsewhere(before, d1, p, staged, temporary, File(d.next));
    BindKeepsOthers(before, d, Moved(temporary, p, PlainError), temporary, File(d.next));
    DataKeepsOthers(before, Bind(d, temporary, File(d.next)), MakeFile(d, temporary), Moved(temporary, p, PlainError));
  }

  lemma MakeFileIsFresh(d: Disk, temporary: Path)
    requires WellFormed(d) && Live(d, temporary).Absent?
    ensures FreshFile(d, MakeFile(d, temporary), temporary, d.next)
  {
    var d1 := d.(data := d.data[d.next := ""], next := d.next + 1);
    forall q | q != temporary ensures SameEntry(d, MakeFile(d, temporary), q) {
      BindMayHold(d1, temporary, File(d.next), q);
    }
    BindMayHold(d1, temporary, File(d.next), temporary);
  }

  lemma DataOnlySafe(before: Disk, d: Disk, d': Disk, p: Path, staged: Option<Content>, inode: nat, scope: Scope)
    requires WellFormed(d) && Safe(before, d, p, staged, scope) && DataOnly(d, d', inode) && inode !in d.flushed
    ensures Safe(before, d', p, staged, scope)
  {
    DataElsewhere(before, d, d', p, staged);
    DataKeepsOthers(before, d, d', scope);
  }

  lemma ReadyIfSame(before: Disk, d: Disk, d': Disk, p: Path)
    requires ReadyToRename(before, d, p)
    requires forall n :: 0 <= n < |p| ==> Live(d', p[..n]) == Live(d, p[..n]) && MayHold(d', p[..n]) == MayHold(d, p[..n])
    ensures ReadyToRename(before, d', p)
  {
    forall n | 0 <= n < |p| ensures SameEntry(before, d', p[..n]) || MadeDirectory(before, d', p[..n]) {
      assert SameEntry(before, d, p[..n]) || MadeDirectory(before, d, p[..n]);
    }
  }

  /** The staged file leaves everything but its own name alone. */
  lemma StagedIsReady(before: Disk, d1: Disk, d2: Disk, d3: Disk, temporary: Path, p: Path)
    requires WellFormed(before) && WellFormed(d1) && WellFormed(d2) && WellFormed(d3)
    requires Unchanged(before, d1, p) && (p != [] ==> ReadyToRename(before, d1, p))
    requires FreshFile(d1, d2, temporary, d1.next) && DataOnly(d2, d3, d1.next)
    requires temporary !in Prefixes(p)
    ensures Unchanged(before, d3, p) && (p != [] ==> ReadyToRename(before, d3, p))
    ensures Live(d3, temporary) == File(d1.next) && d1.next !in d1.data
    ensures forall q :: q != temporary ==> Live(d3, q) == Live(d1, q)
  {
    assert p == p[..|p|];
    assert forall n :: 0 <= n <= |p| ==> p[..n] in Prefixes(p);
    forall q | q != temporary ensures Live(d3, q) == Live(d1, q) && MayHold(d3, q) == MayHold(d1, q) {
      assert SameEntry(d1, d2, q);
    }
    if p != [] {
      ReadyIfSame(before, d1, d3, p);
    }
    if Live(d1, p).File? {
      assert EntryOk(d1, p, Live(d1, p));
    }
    UnchangedIfKept(d1, d3, p);
  }

  // -------------------------------------------------------------- the two entry points

  /** A mode without type bits, as os.FileMode.Perm leaves it. */
  predicate PermissionOnly(mode: bv32) {
    mode == mode & 0x1FF
  }

  /** The nine permission bits. */
  lemma PermissionBits(mode: bv32)
    ensures PermissionOnly(mode) <==> mode < 512
  {
  }

  /** filepath.Base of the empty path and of "." is "."; the root is named "/". */
  predicate DestinationGiven(destination: Path, workingDirectory: bool) {
    destination != [] || !workingDirectory
  }

  /** There is no room for a file at `p`. */
  ghost predicate Blocked(d: Disk, p: Path) {
    p == [] || Live(d, p).Directory? || FileAbove(d, p)
  }

  /** The deferred cleanup: removes the temporary file, which must not be the destination. */
  method RemoveTemporary(fs: FileSystem, temporary: Path, ghost before: Disk, ghost p: Path, ghost staged: Option<Content>, ghost outcome: Outcome)
    requires fs.Valid() && WellFormed(before) && Safe(before, fs.disk, p, staged, Moved(temporary, p, outcome))
    requires temporary !in Prefixes(p) && Live(before, temporary).Absent?
    modifies fs
    ensures fs.Valid() && fs.syncs == old(fs.syncs) && old(fs.faults) <= fs.faults
    ensures fs.history == old(fs.history) + [fs.disk] && Safe(before, fs.disk, p, staged, Moved(temporary, p, outcome))
    ensures !Live(old(fs.disk), temporary).File? ==> fs.disk == old(fs.disk)
    ensures Unchanged(before, old(fs.disk), p) ==> Unchanged(before, fs.disk, p)
    ensures Live(fs.disk, temporary).Absent? || fs.unremoved == old(fs.unremoved) + [temporary]
    ensures Live(old(fs.disk), temporary).Absent? ==> fs.unremoved == old(fs.unremoved)
  {
    var removed := fs.RemoveFile(temporary);
    if removed {
      BindElsewhere(before, old(fs.disk), p, staged, temporary, Absent);
      BindKeepsOthers(before, old(fs.disk), Moved(temporary, p, outcome), temporary, Absent);
      assert p == p[..|p|] && p in Prefixes(p);
      UnchangedIfKept(old(fs.disk), fs.disk, p);
    }
  }

  predicate WriteAccepted(destination: Path, workingDirectory: bool, reader: Option<Content>, fileMode: bv32, directoryMode: bv32) {
    DestinationGiven(destination, workingDirectory) && PermissionOnly(directoryMode) && PermissionOnly(fileMode) && reader.Some?
  }

  /**
   `writeReader`.  `reader` is None for a nil reader.  The random name of the temporary
   file must not be the destination's own.  Nothing else is touched, now or after any crash,
   and the temporary file stays behind only if its removal failed.  Without a fault it
   succeeds, unless its arguments are rejected or there is no room for one of the files.
   */
  method WriteReader(fs: FileSystem, destination: Path, workingDirectory: bool, reader: Option<Content>,
                     fileMode: bv32, directoryMode: bv32, temporaryName: Name)
    returns (outcome: Outcome)
    requires fs.Valid()
    requires Dir(destination) + [temporaryName] != destination
    modifies fs
    ensures fs.Valid()
    ensures !WriteAccepted(destination, workingDirectory, reader, fileMode, directoryMode) ==>
              outcome.PlainError? && fs.disk == old(fs.disk) && fs.history == old(fs.history) && fs.syncs == old(fs.syncs)
    ensures var temporary := Dir(destination) + [temporaryName];
            && Meaning(old(fs.disk), old(fs.syncs), temporary, destination, reader, outcome, fs.disk, fs.syncs)
            && AllCrashSafe(old(fs.disk), fs.history, |old(fs.history)|, destination, reader, Moved(temporary, destination, outcome))
            && OthersKept(old(fs.disk), fs.disk, Moved(temporary, destination, outcome))
            && (!Live(old(fs.disk), temporary).Absent? ==> outcome.PlainError?)
            && (Live(fs.disk, temporary) == Live(old(fs.disk), temporary) || fs.unremoved == old(fs.unremoved) + [temporary])
            && fs.Justified(outcome.Success?, || !WriteAccepted(destination, workingDirectory, reader, fileMode, directoryMode)
                                              || Blocked(old(fs.disk), destination) || !Live(old(fs.disk), temporary).Absent?)
    ensures old(fs.history) <= fs.history
  {
    ghost var before, from := fs.disk, |fs.history|;
    if !DestinationGiven(destination, workingDirectory) || !PermissionOnly(directoryMode) || !PermissionOnly(fileMode) {
      return PlainError;
    }
    if reader.None? {
      return PlainError;
    }
    var temporary := Dir(destination) + [temporaryName];
    outcome := WriteStaged(fs, destination, reader.value, temporary);
    AllSafeIsCrashSafe(before, fs.history, from, destination, reader, Moved(temporary, destination, outcome));
  }

  /** `writeReader` after its arguments have been checked. */
  method WriteStaged(fs: FileSystem, destination: Path, content: Content, temporary: Path) returns (outcome: Outcome)
    requires fs.Valid()
    requires temporary != destination && temporary != [] && Dir(temporary) == Dir(destination)
    modifies fs
    ensures fs.Valid()
    ensures Meaning(old(fs.disk), old(fs.syncs), temporary, destination, Some(content), outcome, fs.disk, fs.syncs)
    ensures old(fs.history) <= fs.history
    ensures AllSafe(old(fs.disk), fs.history, |old(fs.history)|, destination, Some(content), Moved(temporary, destination, outcome))
    ensures Safe(old(fs.disk), fs.disk, destination, Some(content), Moved(temporary, destination, outcome))
    ensures Live(fs.disk, temporary) == Live(old(fs.disk), temporary) || fs.unremoved == old(fs.unremoved) + [temporary]
    ensures !Live(old(fs.disk), temporary).Absent? ==> outcome.PlainError?
    ensures fs.Justified(outcome.Success?, Blocked(old(fs.disk), destination) || !Live(old(fs.disk), temporary).Absent?)
  {
    ghost var before := fs.disk;
    var directory := Dir(destination);
    var created := CreateParentDirectories(fs, directory);
    forall d | Grown(before, d, directory) ensures Safe(before, d, destination, Some(content), Moved(temporary, destination, PlainError)) {
      GrownSafe(before, d, destination, Some(content), {temporary, destination});
    }
    ghost var grown := fs.history;
    assert SameEntry(before, fs.disk, temporary);
    if created.None? {
      if destination != [] {
        FileAboveParent(before, destination);
      }
      assert SameEntry(before, fs.disk, destination);
      UnchangedIfKept(before, fs.disk, destination);
      return PlainError;
    }
    GrownIsReady(before, fs.disk, destination);
    GrownIsStaged(before, fs.disk, temporary, destination);
    outcome := StageAndCommit(fs, destination, content, temporary, created.value, before);
    AllSafeJoined(before, grown, fs.history, |old(fs.history)|, destination, Some(content), temporary, outcome);
  }

  lemma GrownIsStaged(before: Disk, d: Disk, source: Path, p: Path)
    requires Grown(before, d, Dir(p))
    ensures OnlyStaged(before, d, source, p)
  {
    forall q | q != source && Live(d, q) != Live(before, q) ensures Live(before, q).Absent? && q <= Dir(p) {
      assert SameEntry(before, d, q) || MadeDirectory(before, d, q);
    }
  }

  /** Creates and fills the temporary file. */
  method StageTemporary(fs: FileSystem, destination: Path, content: Content, temporary: Path, ghost before: Disk)
    returns (created: bool, ok: bool)
    requires fs.Valid() && WellFormed(before) && temporary !in Prefixes(destination)
    requires Safe(before, fs.disk, destination, Some(content), Moved(temporary, destination, PlainError))
    requires Unchanged(before, fs.disk, destination) && Live(fs.disk, temporary) == Live(before, temporary)
    requires destination != [] ==> ReadyToRename(before, fs.disk, destination)
    requires OnlyStaged(before, fs.disk, temporary, destination)
    modifies fs
    ensures fs.Valid() && fs.syncs == old(fs.syncs) && fs.unremoved == old(fs.unremoved)
    ensures created ==> Live(before, temporary).Absent?
    ensures created ==> Live(fs.disk, temporary).File? && Live(fs.disk, temporary) != Live(fs.disk, destination)
    ensures !created ==> !ok && fs.disk == old(fs.disk)
    ensures ok ==> Ready(before, fs.disk, temporary, destination, content)
    ensures Safe(before, fs.disk, destination, Some(content), Moved(temporary, destination, PlainError))
    ensures Unchanged(before, fs.disk, destination)
    ensures old(fs.history) <= fs.history
    ensures AllSafe(before, fs.history, |old(fs.history)|, destination, Some(content), Moved(temporary, destination, PlainError))
    ensures fs.Justified(ok, !Live(old(fs.disk), temporary).Absent? || !Live(old(fs.disk), Dir(temporary)).Directory?)
  {
    ghost var d1 := fs.disk;
    var inode := fs.CreateFile(temporary);
    if inode.None? {
      return false, false;
    }
    ghost var d2 := fs.disk;
    MakeFileSafe(before, d1, destination, Some(content), temporary);
    MakeFileIsFresh(d1, temporary);
    created := true;
    ok := FillTemporary(fs, inode.value, content);
    forall d | DataOnly(d2, d, inode.value) ensures Safe(before, d, destination, Some(content), Moved(temporary, destination, PlainError)) {
      DataOnlySafe(before, d2, d, destination, Some(content), inode.value, Moved(temporary, destination, PlainError));
    }
    StagedIsReady(before, d1, d2, fs.disk, temporary, destination);
    assert Live(d1, destination).File? ==> EntryOk(d1, destination, Live(d1, destination));
  }

  /** From the creation of the temporary file on, with the deferred cleanup. */
  method StageAndCommit(fs: FileSystem, destination: Path, content: Content, temporary: Path, created: seq<Path>, ghost before: Disk)
    returns (outcome: Outcome)
    requires fs.Valid() && WellFormed(before)
    requires temporary != destination && temporary != [] && Dir(temporary) == Dir(destination)
    requires created == MissingFrom(before, Dir(destination))
    requires Safe(before, fs.disk, destination, Some(content), Moved(temporary, destination, PlainError))
    requires Unchanged(before, fs.disk, destination) && Live(fs.disk, temporary) == Live(before, temporary)
    requires Live(fs.disk, Dir(destination)).Directory? && (destination != [] ==> ReadyToRename(before, fs.disk, destination))
    requires OnlyStaged(before, fs.disk, temporary, destination)
    modifies fs
    ensures fs.Valid()
    ensures Meaning(before, old(fs.syncs), temporary, destination, Some(content), outcome, fs.disk, fs.syncs)
    ensures old(fs.history) <= fs.history
    ensures AllSafe(before, fs.history, |old(fs.history)|, destination, Some(content), Moved(temporary, destination, outcome))
    ensures Safe(before, fs.disk, destination, Some(content), Moved(temporary, destination, outcome))
    ensures Live(fs.disk, temporary) == Live(before, temporary) || fs.unremoved == old(fs.unremoved) + [temporary]
    ensures !Live(before, temporary).Absent? ==> outcome.PlainError?
    ensures fs.Justified(outcome.Success?, destination == [] || Live(before, destination).Directory? || !Live(before, temporary).Absent?)
  {
    assert temporary !in Prefixes(destination) by {
      assert destination == destination[..|destination|];
    }
    var staged, ok := StageTemporary(fs, destination, content, temporary, before);
    if !staged {
      return PlainError;
    }
    ghost var earlier := fs.history;
    outcome := CommitOrDiscard(fs, destination, content, temporary, created, ok, before);
    AllSafeJoined(before, earlier, fs.history, |old(fs.history)|, destination, Some(content), temporary, outcome);
  }

  /** Nothing had moved at the earlier disks. */
  lemma AllSafeJoined(before: Disk, earlier: seq<Disk>, history: seq<Disk>, from: nat, p: Path, staged: Option<Content>,
                      source: Path, outcome: Outcome)
    requires from <= |earlier| && earlier <= history
    requires AllSafe(before, earlier, from, p, staged, Moved(source, p, PlainError))
    requires AllSafe(before, history, |earlier|, p, staged, Moved(source, p, outcome))
    ensures AllSafe(before, history, from, p, staged, Moved(source, p, outcome))
  {
    forall i | from <= i < |history| ensures Safe(before, history[i], p, staged, Moved(source, p, outcome)) {
      if i < |earlier| {
        assert history[i] == earlier[i];
        SafeWithMore(before, earlier[i], p, staged, Moved(source, p, PlainError), Moved(source, p, outcome));
      }
    }
  }

  /** Commits a temporary file that was filled, and removes it unless that succeeded. */
  method CommitOrDiscard(fs: FileSystem, destination: Path, content: Content, temporary: Path, created: seq<Path>, filled: bool,
                         ghost before: Disk)
    returns (outcome: Outcome)
    requires fs.Valid() && WellFormed(before)
    requires temporary !in Prefixes(destination) && temporary != destination
    requires created == MissingFrom(before, Dir(destination)) && Dir(temporary) == Dir(destination)
    requires Live(before, temporary).Absent? && Live(fs.disk, temporary).File? && Live(fs.disk, temporary) != Live(fs.disk, destination)
    requires filled ==> Ready(before, fs.disk, temporary, destination, content)
    requires Safe(before, fs.disk, destination, Some(content), Moved(temporary, destination, PlainError))
    requires Unchanged(before, fs.disk, destination)
    modifies fs
    ensures fs.Valid()
    ensures Meaning(before, old(fs.syncs), temporary, destination, Some(content), outcome, fs.disk, fs.syncs)
    ensures old(fs.history) <= fs.history
    ensures AllSafe(before, fs.history, |old(fs.history)|, destination, Some(content), Moved(temporary, destination, outcome))
    ensures Safe(before, fs.disk, destination, Some(content), Moved(temporary, destination, outcome))
    ensures Live(fs.disk, temporary).Absent? || fs.unremoved == old(fs.unremoved) + [temporary]
    ensures fs.Justified(outcome.Success?, !filled || destination == [] || Live(before, destination).Directory?)
  {
    outcome := PlainError;
    if filled {
      outcome := CommitTemporary(fs, destination, content, temporary, created, before);
    }
    if !outcome.Success? {
      RemoveTemporary(fs, temporary, before, destination, Some(content), outcome);
    }
  }

  method CommitTemporary(fs: FileSystem, destination: Path, content: Content, temporary: Path, created: seq<Path>, ghost before: Disk)
    returns (outcome: Outcome)
    requires fs.Valid() && Ready(before, fs.disk, temporary, destination, content)
    requires created == MissingFrom(before, Dir(destination)) && Dir(temporary) == Dir(destination)
    requires temporary != destination && Live(fs.disk, temporary).File? && Live(fs.disk, temporary) != Live(fs.disk, destination)
    modifies fs
    ensures fs.Valid() && fs.unremoved == old(fs.unremoved)
    ensures Meaning(before, old(fs.syncs), temporary, destination, Some(content), outcome, fs.disk, fs.syncs)
    ensures old(fs.history) <= fs.history
    ensures AllSafe(before, fs.history, |old(fs.history)|, destination, Some(content), Moved(temporary, destination, outcome))
    ensures Safe(before, fs.disk, destination, Some(content), Moved(temporary, destination, outcome))
    ensures !outcome.PlainError? ==> Live(fs.disk, temporary).Absent?
    ensures fs.Justified(outcome.Success?, destination == [] || Live(before, destination).Directory?)
  {
    ghost var d := fs.disk;
    var directory := Dir(destination);
    if destination != [] && !Live(d, destination).Directory? {
      assert destination[..|destination| - 1] == directory;
      SyncedDirectoriesExist(before, d, fs.syncs, temporary, destination);
    }
    outcome := Commit(fs, temporary, destination, directory, directory, created);
    CommitIsSafe(before, d, old(fs.syncs), temporary, destination, content, outcome, fs.disk, fs.syncs);
    CommitMeaning(before, d, old(fs.syncs), temporary, destination, content, outcome, fs.disk, fs.syncs);
    RenameMayHold(d, temporary, destination, temporary);
  }

  /** Every disk that may be seen during a commit, and the last one. */
  lemma CommitIsSafe(before: Disk, d: Disk, log: seq<DirectorySync>, source: Path, p: Path, c: Content,
                     outcome: Outcome, after: Disk, log': seq<DirectorySync>)
    requires Ready(before, d, source, p, c)
    requires Committed(d, log, source, p, RequiredSyncs(Dir(p), Dir(source), MissingFrom(before, Dir(p))), outcome, after, log')
    ensures forall seen :: DuringCommit(d, source, p, RequiredSyncs(Dir(p), Dir(source), MissingFrom(before, Dir(p))), outcome, seen) ==>
              Safe(before, seen, p, Some(c), Moved(source, p, outcome))
    ensures Safe(before, after, p, Some(c), Moved(source, p, outcome))
  {
    var directories := RequiredSyncs(Dir(p), Dir(source), MissingFrom(before, Dir(p)));
    forall seen | DuringCommit(d, source, p, directories, outcome, seen)
      ensures Safe(before, seen, p, Some(c), Moved(source, p, outcome)) {
      DuringCommitIsSafe(before, d, source, p, c, directories, outcome, seen);
    }
    CommittedIsDuringCommit(d, log, source, p, directories, outcome, after, log');
  }

  lemma CommittedIsDuringCommit(d: Disk, log: seq<DirectorySync>, source: Path, p: Path, directories: seq<Path>,
                                outcome: Outcome, d': Disk, log': seq<DirectorySync>)
    requires Committed(d, log, source, p, directories, outcome, d', log')
    ensures DuringCommit(d, source, p, directories, outcome, d')
  {
    var run := CommitRun(d, log, source, p, directories);
    match outcome
    case PlainError =>
    case Success => assert SyncedUpTo(run.start, directories, d', |directories|);
    case CommittedError => var k: nat :| Stopped(run, k, d', log');
  }

  /** The source is gone exactly when a replacement happened, unless both were names of one file. */
  ghost predicate SourceGone(before: Disk, after: Disk, source: Path, destination: Path, outcome: Outcome) {
    Live(after, source) ==
    if outcome.PlainError? || Live(before, source) == Live(before, destination) then Live(before, source) else Absent
  }

  /**
   `replace`.  `source` is None for the empty path.  Without a fault it succeeds, unless its
   arguments are rejected, the source is no file, or there is no room for the destination.
   */
  method Replace(fs: FileSystem, source: Option<Path>, destination: Path, workingDirectory: bool, directoryMode: bv32)
    returns (outcome: Outcome)
    requires fs.Valid()
    modifies fs
    ensures fs.Valid()
    ensures source.None? || !DestinationGiven(destination, workingDirectory) || !PermissionOnly(directoryMode) ==>
              outcome.PlainError? && fs.disk == old(fs.disk) && fs.history == old(fs.history) && fs.syncs == old(fs.syncs)
    ensures source.Some? ==>
              var staged, scope := Contents(old(fs.disk), source.value), Moved(source.value, destination, outcome);
              && Meaning(old(fs.disk), old(fs.syncs), source.value, destination, staged, outcome, fs.disk, fs.syncs)
              && AllCrashSafe(old(fs.disk), fs.history, |old(fs.history)|, destination, staged, scope)
              && OthersKept(old(fs.disk), fs.disk, scope)
              && (Live(old(fs.disk), source.value).File? ==> SourceGone(old(fs.disk), fs.disk, source.value, destination, outcome))
              && fs.Justified(outcome.Success?, || !DestinationGiven(destination, workingDirectory) || !PermissionOnly(directoryMode)
                                                || Blocked(old(fs.disk), destination) || !Live(old(fs.disk), source.value).File?)
    ensures old(fs.history) <= fs.history
  {
    if source.None? {
      return PlainError;
    }
    if !DestinationGiven(destination, workingDirectory) || !PermissionOnly(directoryMode) {
      return PlainError;
    }
    ghost var before, from := fs.disk, |fs.history|;
    ghost var staged := Contents(before, source.value);
    outcome := ReplaceGiven(fs, source.value, destination);
    AllSafeIsCrashSafe(before, fs.history, from, destination, staged, Moved(source.value, destination, outcome));
  }

  /** `replace` after its arguments have been checked. */
  method ReplaceGiven(fs: FileSystem, source: Path, destination: Path) returns (outcome: Outcome)
    requires fs.Valid()
    modifies fs
    ensures fs.Valid()
    ensures Meaning(old(fs.disk), old(fs.syncs), source, destination, Contents(old(fs.disk), source), outcome, fs.disk, fs.syncs)
    ensures old(fs.history) <= fs.history
    ensures AllSafe(old(fs.disk), fs.history, |old(fs.history)|, destination, Contents(old(fs.disk), source), Moved(source, destination, outcome))
    ensures Safe(old(fs.disk), fs.disk, destination, Contents(old(fs.disk), source), Moved(source, destination, outcome))
    ensures Live(old(fs.disk), source).File? ==> SourceGone(old(fs.disk), fs.disk, source, destination, outcome)
    ensures fs.Justified(outcome.Success?, Blocked(old(fs.disk), destination) || !Live(old(fs.disk), source).File?)
  {
    ghost var before, staged := fs.disk, Contents(fs.disk, source);
    var directory := Dir(destination);
    var created := CreateParentDirectories(fs, directory);
    forall d | Grown(before, d, directory) ensures Safe(before, d, destination, staged, Moved(source, destination, PlainError)) {
      GrownSafe(before, d, destination, staged, {source, destination});
    }
    ghost var grown := fs.history;
    if created.None? {
      if destination != [] {
        FileAboveParent(before, destination);
      }
      assert SameEntry(before, fs.disk, destination);
      UnchangedIfKept(before, fs.disk, destination);
      assert SameEntry(before, fs.disk, source) || MadeDirectory(before, fs.disk, source);
      return PlainError;
    }
    GrownIsReady(before, fs.disk, destination);
    outcome := FlushAndCommit(fs, source, destination, created.value, before);
    AllSafeJoined(before, grown, fs.history, |old(fs.history)|, destination, staged, source, outcome);
  }

  /** From the opening of the source on. */
  method FlushAndCommit(fs: FileSystem, source: Path, destination: Path, created: seq<Path>, ghost before: Disk)
    returns (outcome: Outcome)
    requires fs.Valid() && WellFormed(before)
    requires Grown(before, fs.disk, Dir(destination)) && created == MissingFrom(before, Dir(destination))
    requires Live(fs.disk, Dir(destination)).Directory?
    requires Safe(before, fs.disk, destination, Contents(before, source), Moved(source, destination, PlainError))
    requires Unchanged(before, fs.disk, destination) && (destination != [] ==> ReadyToRename(before, fs.disk, destination))
    modifies fs
    ensures fs.Valid()
    ensures Meaning(before, old(fs.syncs), source, destination, Contents(before, source), outcome, fs.disk, fs.syncs)
    ensures old(fs.history) <= fs.history
    ensures AllSafe(before, fs.history, |old(fs.history)|, destination, Contents(before, source), Moved(source, destination, outcome))
    ensures Safe(before, fs.disk, destination, Contents(before, source), Moved(source, destination, outcome))
    ensures Live(before, source).File? ==> SourceGone(before, fs.disk, source, destination, outcome)
    ensures fs.Justified(outcome.Success?, destination == [] || Live(before, destination).Directory? || !Live(before, source).File?)
  {
    assert SameEntry(before, fs.disk, source) || MadeDirectory(before, fs.disk, source);
    var flushed := FlushSource(fs, source, destination, before);
    if !flushed {
      return PlainError;
    }
    ghost var earlier := fs.history;
    outcome := CommitSource(fs, source, destination, created, before, Contents(before, source).value);
    AllSafeJoined(before, earlier, fs.history, |old(fs.history)|, destination, Contents(before, source), source, outcome);
  }

  /** Opens, flushes and closes the source. */
  method FlushSource(fs: FileSystem, source: Path, destination: Path, ghost before: Disk) returns (ok: bool)
    requires fs.Valid() && WellFormed(before) && Grown(before, fs.disk, Dir(destination))
    requires Safe(before, fs.disk, destination, Contents(before, source), Moved(source, destination, PlainError))
    requires Unchanged(before, fs.disk, destination) && (destination != [] ==> ReadyToRename(before, fs.disk, destination))
    modifies fs
    ensures fs.Valid() && fs.syncs == old(fs.syncs) && fs.unremoved == old(fs.unremoved)
    ensures old(fs.history) <= fs.history
    ensures AllSafe(before, fs.history, |old(fs.history)|, destination, Contents(before, source), Moved(source, destination, PlainError))
    ensures Safe(before, fs.disk, destination, Contents(before, source), Moved(source, destination, PlainError))
    ensures Unchanged(before, fs.disk, destination) && Live(fs.disk, source) == Live(old(fs.disk), source)
    ensures ok ==> Contents(before, source).Some? && Ready(before, fs.disk, source, destination, Contents(before, source).value)
    ensures ok ==> Live(fs.disk, source).File? && Live(fs.disk, source) == Live(before, source)
    ensures fs.Justified(ok, !Live(before, source).File?)
  {
    ghost var d1 := fs.disk;
    assert SameEntry(before, d1, source) || MadeDirectory(before, d1, source);
    var inode := fs.OpenFile(source);
    if inode.None? {
      return false;
    }
    LiveFileIsRead(before, source);
    GrownIsStaged(before, d1, source, destination);
    ok := fs.SyncFile(inode.value);
    FlushedIsReady(before, d1, fs.disk, source, destination, Contents(before, source), inode.value);
    if ok {
      ok := fs.Attempt();
    }
  }

  method CommitSource(fs: FileSystem, source: Path, destination: Path, created: seq<Path>, ghost before: Disk, ghost content: Content)
    returns (outcome: Outcome)
    requires fs.Valid() && Ready(before, fs.disk, source, destination, content)
    requires created == MissingFrom(before, Dir(destination))
    requires Live(fs.disk, source).File? && Live(fs.disk, source) == Live(before, source)
    modifies fs
    ensures fs.Valid()
    ensures Meaning(before, old(fs.syncs), source, destination, Some(content), outcome, fs.disk, fs.syncs)
    ensures old(fs.history) <= fs.history
    ensures AllSafe(before, fs.history, |old(fs.history)|, destination, Some(content), Moved(source, destination, outcome))
    ensures Safe(before, fs.disk, destination, Some(content), Moved(source, destination, outcome))
    ensures SourceGone(before, fs.disk, source, destination, outcome)
    ensures fs.Justified(outcome.Success?, destination == [] || Live(before, destination).Directory?)
  {
    ghost var d := fs.disk;
    if destination != [] && !Live(d, destination).Directory? {
      assert destination[..|destination| - 1] == Dir(destination);
      SyncedDirectoriesExist(before, d, fs.syncs, source, destination);
    }
    outcome := Commit(fs, source, destination, Dir(source), Dir(destination), created);
    CommitIsSafe(before, d, old(fs.syncs), source, destination, content, outcome, fs.disk, fs.syncs);
    CommitMeaning(before, d, old(fs.syncs), source, destination, content, outcome, fs.disk, fs.syncs);
    if Live(d, source) != Live(d, destination) {
      RenameMayHold(d, source, destination, source);
    }
  }

  /** Flushing the source, even when it is the destination's own file, changes no contents. */
  lemma FlushedIsReady(before: Disk, d1: Disk, d2: Disk, source: Path, p: Path, staged: Option<Content>, inode: nat)
    requires WellFormed(before) && WellFormed(d1) && WellFormed(d2)
    requires d2 == d1 || d2 == Flush(d1, inode)
    requires Safe(before, d1, p, staged, Moved(source, p, PlainError))
    requires Unchanged(before, d1, p) && (p != [] ==> ReadyToRename(before, d1, p)) && OnlyStaged(before, d1, source, p)
    ensures Safe(before, d2, p, staged, Moved(source, p, PlainError))
    ensures Unchanged(before, d2, p) && (p != [] ==> ReadyToRename(before, d2, p)) && OnlyStaged(before, d2, source, p)
  {
    DataElsewhere(before, d1, d2, p, staged);
    DataKeepsOthers(before, d1, d2, Moved(source, p, PlainError));
    UnchangedIfKept(d1, d2, p);
    forall q ensures SameEntry(d1, d2, q) { }
  }
}
