/**
 Which directories a replacement creates and syncs, and what that makes durable.
 */
module ReplacementSpec {
  import opened Wrappers
  import opened Disks
  import opened CrashSafety

  datatype DirectorySync = DirectorySync(directory: Path, ok: bool)

  // ---------------------------------------------------- directories to be created

  /** The directories missing from `directory` upwards, deepest first. */
  function MissingFrom(d: Disk, directory: Path): seq<Path>
    decreases |directory|
  {
    if directory == [] || !Live(d, directory).Absent? then []
    else [directory] + MissingFrom(d, Dir(directory))
  }

  /** They are a chain from child to parent that ends below an existing ancestor. */
  lemma {:induction false} MissingIsChain(d: Disk, directory: Path)
    requires WellFormed(d)
    ensures var missing := MissingFrom(d, directory);
            && |missing| <= |directory|
            && (forall i :: 0 <= i < |missing| ==> missing[i] == directory[..|directory| - i] && Live(d, missing[i]).Absent?)
            && !Live(d, directory[..|directory| - |missing|]).Absent?
    decreases |directory|
  {
    assert directory[..|directory|] == directory;
    if directory != [] && Live(d, directory).Absent? {
      var parent := Dir(directory);
      MissingIsChain(d, parent);
      var missing, above := MissingFrom(d, directory), MissingFrom(d, parent);
      forall n | 0 <= n < |directory| ensures parent[..n] == directory[..n] { }
      forall i | 0 < i < |missing| ensures missing[i] == directory[..|directory| - i] {
        assert missing[i] == above[i - 1];
      }
    }
  }

  /** No missing directory is left out. */
  lemma {:induction false} MissingIsComplete(d: Disk, directory: Path, n: nat)
    requires WellFormed(d) && n <= |directory|
    ensures directory[..n] in MissingFrom(d, directory) <==> Live(d, directory[..n]).Absent?
    decreases |directory|
  {
    assert directory[..|directory|] == directory;
    if directory == [] || !Live(d, directory).Absent? {
      if n < |directory| {
        LiveAncestors(d, directory, n);
      }
    } else if n < |directory| {
      assert Dir(directory)[..n] == directory[..n];
      MissingIsComplete(d, Dir(directory), n);
      assert |directory[..n]| != |directory|;
    }
  }

  /** What MkdirAll does: some missing directories above appear, and nothing else changes. */
  ghost predicate Grown(d: Disk, d': Disk, directory: Path) {
    && d'.data == d.data && d'.flushed == d.flushed && d'.next == d.next
    && forall q :: SameEntry(d, d', q) || (q <= directory && MadeDirectory(d, d', q))
  }

  ghost predicate SameEntry(d: Disk, d': Disk, q: Path) {
    Live(d', q) == Live(d, q) && MayHold(d', q) == MayHold(d, q)
  }

  ghost predicate MadeDirectory(d: Disk, d': Disk, q: Path) {
    Live(d, q).Absent? && Live(d', q).Directory? && Absent in MayHold(d', q)
  }

  lemma GrownGuarded(before: Disk, d: Disk, p: Path, staged: Option<Content>)
    requires WellFormed(before) && Grown(before, d, Dir(p))
    ensures Guarded(before, d, p, staged)
  {
    forall n | 0 <= n < |p| ensures MayHold(d, p[..n]) <= MayHold(before, p[..n]) || Live(before, p[..n]).Absent? {
      assert SameEntry(before, d, p[..n]) || MadeDirectory(before, d, p[..n]);
    }
    assert SameEntry(before, d, p);
  }

  /** Some path above `p` is a file. */
  ghost predicate FileAbove(d: Disk, p: Path) {
    exists n :: 0 <= n < |p| && Live(d, p[..n]).File?
  }

  lemma FileAboveParent(d: Disk, p: Path)
    requires p != []
    ensures FileAbove(d, p) <==> Live(d, Dir(p)).File? || FileAbove(d, Dir(p))
  {
    assert p[..|p| - 1] == Dir(p);
    assert forall n :: 0 <= n < |p| ==> Dir(p)[..n] == p[..n];
    if n :| 0 <= n < |p| && Live(d, p[..n]).File? {
      assert n < |p| - 1 ==> Live(d, Dir(p)[..n]).File?;
    }
  }

  /** Creating parents touches nothing else. */
  lemma GrownSafe(before: Disk, d: Disk, p: Path, staged: Option<Content>, names: set<Path>)
    requires WellFormed(before) && Grown(before, d, Dir(p))
    ensures Safe(before, d, p, staged, Scope(Dir(p), names, {}))
  {
    var scope := Scope(Dir(p), names, {});
    GrownGuarded(before, d, p, staged);
    forall q | Bystander(before, scope, q) ensures Kept(before, d, q) {
      GrownKeeps(before, d, Dir(p), q);
    }
    forall q
      ensures Live(d, q).Directory? ==> MayBeDirectory(before, Dir(p), q)
      ensures NewIsLosable(before, d, q) {
      assert SameEntry(before, d, q) || MadeDirectory(before, d, q);
    }
  }

  lemma GrownKeeps(before: Disk, d: Disk, directory: Path, q: Path)
    requires Grown(before, d, directory) && (Live(before, q).Absent? ==> !(q <= directory))
    ensures Kept(before, d, q)
  {
    assert SameEntry(before, d, q);
    forall n | 0 <= n < |q| ensures MayHold(d, q[..n]) <= MayHold(before, q[..n]) || Live(before, q[..n]).Absent? {
      assert SameEntry(before, d, q[..n]) || MadeDirectory(before, d, q[..n]);
    }
  }

  lemma GrownAbove(d: Disk, d': Disk, directory: Path)
    requires Grown(d, d', Dir(directory))
    ensures Grown(d, d', directory)
  {
    forall q ensures SameEntry(d, d', q) || (q <= directory && MadeDirectory(d, d', q)) {
      assert SameEntry(d, d', q) || (q <= Dir(directory) && MadeDirectory(d, d', q));
    }
  }

  lemma GrownByMkdir(d: Disk, d1: Disk, directory: Path)
    requires directory != [] && Grown(d, d1, Dir(directory)) && Live(d1, directory).Absent?
    ensures Grown(d, Bind(d1, directory, Directory), directory)
  {
    var d2 := Bind(d1, directory, Directory);
    forall q ensures SameEntry(d, d2, q) || (q <= directory && MadeDirectory(d, d2, q)) {
      BindMayHold(d1, directory, Directory, q);
      assert SameEntry(d, d1, q) || (q <= Dir(directory) && MadeDirectory(d, d1, q));
    }
  }

  // ------------------------------------------------------ directories to be synced

  /** The parents of the created directories, each once, in order. */
  function Parents(created: seq<Path>, seen: set<Path>): seq<Path> {
    if created == [] then []
    else
      var parent := Dir(created[0]);
      if parent in seen then Parents(created[1..], seen)
      else [parent] + Parents(created[1..], seen + {parent})
  }

  /** Every listed directory's parent is there, nothing else is, and nothing is there twice. */
  lemma {:induction false} ParentsExact(created: seq<Path>, seen: set<Path>)
    ensures forall q :: q in Parents(created, seen) <==> q !in seen && exists c :: c in created && Dir(c) == q
    ensures forall i, j :: 0 <= i < j < |Parents(created, seen)| ==> Parents(created, seen)[i] != Parents(created, seen)[j]
  {
    if created != [] {
      var parent := Dir(created[0]);
      var seen' := if parent in seen then seen else seen + {parent};
      ParentsExact(created[1..], seen');
      var rest := Parents(created[1..], seen');
      forall q ensures q in Parents(created, seen) <==> q !in seen && exists c :: c in created && Dir(c) == q {
        assert created == [created[0]] + created[1..];
        assert q in Parents(created, seen) <==> (q == parent && parent !in seen) || q in rest;
        if c :| c in created && Dir(c) == q {
          assert c == created[0] || c in created[1..];
        }
        if c :| c in created[1..] && Dir(c) == q {
          assert c in created;
        }
      }
    }
  }

  lemma MissingIsPrefix(d: Disk, directory: Path, c: Path)
    requires WellFormed(d) && c in MissingFrom(d, directory)
    ensures 0 < |c| <= |directory| && c == directory[..|c|]
  {
    MissingIsChain(d, directory);
    var created := MissingFrom(d, directory);
    var i :| 0 <= i < |created| && created[i] == c;
    assert c == directory[..|directory| - i] && Live(d, c).Absent?;
  }

  /** The parents of missing directories lie above them. */
  lemma ParentsOfMissing(d: Disk, directory: Path, x: Path)
    requires WellFormed(d) && x in Parents(MissingFrom(d, directory), {})
    ensures |x| < |directory| && x == directory[..|x|]
  {
    ParentsExact(MissingFrom(d, directory), {});
    var c :| c in MissingFrom(d, directory) && Dir(c) == x;
    MissingIsPrefix(d, directory, c);
  }

  /** The directories a commit syncs after the replacement, in order. */
  function RequiredSyncs(destinationDir: Path, sourceDir: Path, created: seq<Path>): seq<Path> {
    [destinationDir] + (if sourceDir == destinationDir then [] else [sourceDir]) + Parents(created, {})
  }

  function AllOk(directories: seq<Path>): seq<DirectorySync> {
    seq(|directories|, i requires 0 <= i < |directories| => DirectorySync(directories[i], true))
  }

  /** The syncs of `directories` ran in order and stopped at the first failure, the one after `k`. */
  ghost predicate StoppedAt(before: seq<DirectorySync>, after: seq<DirectorySync>, directories: seq<Path>, k: nat) {
    && k < |directories|
    && after == before + AllOk(directories[..k]) + [DirectorySync(directories[k], false)]
  }

  /** `d` is `start` with the first `k` of the directories synced. */
  ghost predicate SyncedUpTo(start: Disk, directories: seq<Path>, d: Disk, k: nat) {
    k <= |directories| && d == SyncAll(start, directories[..k])
  }

  ghost predicate PartlySynced(start: Disk, directories: seq<Path>, d: Disk) {
    exists k: nat :: SyncedUpTo(start, directories, d, k)
  }

  /** A list of syncs in progress: where it started, what it syncs, and the log it extends. */
  datatype SyncRun = SyncRun(start: Disk, log: seq<DirectorySync>, directories: seq<Path>)

  /** The first `k` syncs of a run have succeeded. */
  ghost predicate Reached(run: SyncRun, k: nat, d: Disk, log: seq<DirectorySync>) {
    SyncedUpTo(run.start, run.directories, d, k) && log == run.log + AllOk(run.directories[..k])
  }

  /** The first `k` syncs of a run have succeeded and the next one has failed. */
  ghost predicate Stopped(run: SyncRun, k: nat, d: Disk, log: seq<DirectorySync>) {
    SyncedUpTo(run.start, run.directories, d, k) && StoppedAt(run.log, log, run.directories, k)
  }

  lemma SyncOneMore(start: Disk, directories: seq<Path>, k: nat)
    requires k < |directories|
    ensures SyncAll(start, directories[..k + 1]) == SyncDir(SyncAll(start, directories[..k]), directories[k])
    ensures AllOk(directories[..k + 1]) == AllOk(directories[..k]) + [DirectorySync(directories[k], true)]
  {
    assert directories[..k + 1][..k] == directories[..k];
  }

  // ------------------------------------------------------------------ durability

  /**
   Every directory found on the way to `p` was durable, or its parent is the source's
   directory, which the commit syncs anyway.
   */
  ghost predicate AncestorsSettled(before: Disk, p: Path, sourceDir: Path) {
    forall n :: 0 < n < |p| ==> AncestorSettled(before, p, sourceDir, n)
  }

  ghost predicate AncestorSettled(before: Disk, p: Path, sourceDir: Path, n: nat)
    requires 0 < n < |p|
  {
    Live(before, p[..n]).Absent? || MayHold(before, p[..n]) == {Directory} || p[..n - 1] == sourceDir
  }

  /** No crash can undo what changed: every entry that differs, and the source's, has only its new value. */
  ghost predicate ChangesSettled(before: Disk, after: Disk, source: Path) {
    forall q :: Live(after, q) != Live(before, q) || q == source ==> MayHold(after, q) == {Live(after, q)}
  }

  /** Apart from the source, which may be a new file, nothing but directories above `p` is new. */
  ghost predicate OnlyStaged(before: Disk, d: Disk, source: Path, p: Path) {
    forall q :: q != source && Live(d, q) != Live(before, q) ==> Live(before, q).Absent? && q <= Dir(p)
  }

  /** The disk just before the replacement: parents exist, and the path to `p` saw nothing but Mkdir. */
  ghost predicate ReadyToRename(before: Disk, d: Disk, p: Path) {
    && p != []
    && (forall n :: 0 <= n < |p| ==> Live(d, p[..n]).Directory?)
    && (forall n :: 0 <= n < |p| ==> SameEntry(before, d, p[..n]) || MadeDirectory(before, d, p[..n]))
  }

  /** Of the created directories, only the one above `p` at a given depth has its parent. */
  lemma OnlyChild(before: Disk, directory: Path, n: nat, c: Path)
    requires WellFormed(before) && 0 < n <= |directory|
    requires c in MissingFrom(before, directory) && Dir(c) == directory[..n - 1]
    ensures c == directory[..n] || (n == 1 && c == [])
  {
    var created := MissingFrom(before, directory);
    MissingIsChain(before, directory);
    var i :| 0 <= i < |created| && created[i] == c;
    assert c == directory[..|directory| - i];
  }

  /** The entry of a directory above `p` is synced if it was created, or if it lies in the source's directory. */
  lemma AncestorIsSynced(before: Disk, p: Path, sourceDir: Path, n: nat)
    requires WellFormed(before) && 0 < n < |p|
    ensures p[..n - 1] in RequiredSyncs(Dir(p), sourceDir, MissingFrom(before, Dir(p))) <==>
            Live(before, p[..n]).Absent? || p[..n - 1] == sourceDir
  {
    var q, above, directory := p[..n], p[..n - 1], Dir(p);
    var created := MissingFrom(before, directory);
    assert directory[..n] == q && directory[..n - 1] == above && Dir(q) == above && |directory| != |above|;
    MissingIsComplete(before, directory, n);
    MissingIsComplete(before, directory, 0);
    assert directory[..0] == [];
    ParentsExact(created, {});
    if c :| c in created && Dir(c) == above {
      OnlyChild(before, directory, n, c);
    }
  }

  lemma AncestorAfterSyncs(before: Disk, d: Disk, p: Path, source: Path, sourceDir: Path, n: nat)
    requires WellFormed(before) && ReadyToRename(before, d, p) && RenameAllowed(d, source, p)
    requires 0 < n < |p|
    ensures var syncs := RequiredSyncs(Dir(p), sourceDir, MissingFrom(before, Dir(p)));
            MayHold(SyncAll(Rename(d, source, p), syncs), p[..n]) ==
            if Live(before, p[..n]).Absent? || p[..n - 1] == sourceDir then {Directory} else MayHold(before, p[..n])
  {
    var q := p[..n];
    if Live(d, source) != Live(d, p) {
      assert |q| != |p|;
      RenameMayHold(d, source, p, q);
    }
    SyncAllMayHold(Rename(d, source, p), RequiredSyncs(Dir(p), sourceDir, MissingFrom(before, Dir(p))), q);
    assert SameEntry(before, d, q) || MadeDirectory(before, d, q);
    assert Dir(q) == p[..n - 1];
    AncestorIsSynced(before, p, sourceDir, n);
  }

  /**
   After all required syncs the new contents survive every later crash exactly when the
   directories found existing on the way to the destination were durable to begin with.
   */
  lemma DurableIffAncestorsSettled(before: Disk, d: Disk, p: Path, source: Path, sourceDir: Path, c: Content)
    requires WellFormed(before) && WellFormed(d) && ReadyToRename(before, d, p) && RenameAllowed(d, source, p)
    requires IsNew(d, Live(d, source), Some(c))
    ensures var syncs := RequiredSyncs(Dir(p), sourceDir, MissingFrom(before, Dir(p)));
            var after := SyncAll(Rename(d, source, p), syncs);
            WellFormed(after) && (Durable(after, p, c) <==> AncestorsSettled(before, p, sourceDir))
  {
    var syncs := RequiredSyncs(Dir(p), sourceDir, MissingFrom(before, Dir(p)));
    var renamed := Rename(d, source, p);
    var after := SyncAll(renamed, syncs);
    RenameKeepsWellFormed(d, source, p);
    SyncAllKeepsWellFormed(renamed, syncs);
    SyncAllMayHold(renamed, syncs, p);
    DestinationAfterSyncs(d, p, source, syncs);
    DurableIffSettledAbove(after, p, Live(d, source), c);
    SettledAboveAfterSyncs(before, d, p, source, sourceDir, after);
  }

  /** What remains to be settled above a destination that is. */
  lemma DurableIffSettledAbove(d: Disk, p: Path, e: Entry, c: Content)
    requires WellFormed(d) && MayHold(d, p) == {e} && IsNew(d, e, Some(c))
    ensures Durable(d, p, c) <==> SettledAbove(d, p)
  {
    DurableIffSettled(d, p, c);
  }

  lemma SettledAboveAfterSyncs(before: Disk, d: Disk, p: Path, source: Path, sourceDir: Path, after: Disk)
    requires WellFormed(before) && ReadyToRename(before, d, p) && RenameAllowed(d, source, p)
    requires after == SyncAll(Rename(d, source, p), RequiredSyncs(Dir(p), sourceDir, MissingFrom(before, Dir(p))))
    requires WellFormed(after)
    ensures SettledAbove(after, p) <==> AncestorsSettled(before, p, sourceDir)
  {
    forall n | 0 < n < |p|
      ensures MayHold(after, p[..n]) == {Directory} <==> AncestorSettled(before, p, sourceDir, n) {
      AncestorAfterSyncs(before, d, p, source, sourceDir, n);
    }
    assert p[..0] == [];
  }

  /**
   What the required syncs are for: after them no crash can undo any change of the
   replacement, at the destination, at the source, or at the directories created.
   */
  lemma ChangesAreSettled(before: Disk, d: Disk, p: Path, source: Path)
    requires WellFormed(before) && WellFormed(d) && ReadyToRename(before, d, p) && RenameAllowed(d, source, p)
    requires OnlyStaged(before, d, source, p)
    ensures ChangesSettled(before, SyncAll(Rename(d, source, p), RequiredSyncs(Dir(p), Dir(source), MissingFrom(before, Dir(p)))), source)
  {
    var syncs := RequiredSyncs(Dir(p), Dir(source), MissingFrom(before, Dir(p)));
    var after := SyncAll(Rename(d, source, p), syncs);
    forall q | Live(after, q) != Live(before, q) || q == source ensures MayHold(after, q) == {Live(after, q)} {
      SyncAllMayHold(Rename(d, source, p), syncs, q);
      ChangeIsSynced(before, d, p, source, q);
    }
  }

  lemma ChangeIsSynced(before: Disk, d: Disk, p: Path, source: Path, q: Path)
    requires WellFormed(before) && WellFormed(d) && ReadyToRename(before, d, p) && RenameAllowed(d, source, p)
    requires OnlyStaged(before, d, source, p)
    requires Live(Rename(d, source, p), q) != Live(before, q) || q == source
    ensures q != [] && Dir(q) in RequiredSyncs(Dir(p), Dir(source), MissingFrom(before, Dir(p)))
  {
    var syncs := RequiredSyncs(Dir(p), Dir(source), MissingFrom(before, Dir(p)));
    assert syncs[0] == Dir(p);
    if q == source {
      assert Dir(source) != Dir(p) ==> syncs[1] == Dir(source);
    } else if q != p {
      if Live(d, source) != Live(d, p) {
        RenameMayHold(d, source, p, q);
      }
      var n := |q|;
      assert q == Dir(p)[..n] == p[..n];
      AncestorIsSynced(before, p, Dir(source), n);
      assert Dir(q) == p[..n - 1];
    }
  }

  lemma DestinationAfterSyncs(d: Disk, p: Path, source: Path, syncs: seq<Path>)
    requires p != [] && Dir(p) in syncs
    requires Live(d, source) != Live(d, p) ==> source != p
    ensures MayHold(SyncAll(Rename(d, source, p), syncs), p) == {Live(d, source)}
  {
    SyncAllMayHold(Rename(d, source, p), syncs, p);
    if Live(d, source) != Live(d, p) {
      RenameMayHold(d, source, p, p);
    }
  }

  /**
   The hypothesis is needed.  An attempt that fails after creating a directory leaves it
   unsettled, and a later attempt finds it existing and does not sync its parent, unless
   that is the source's directory.
   */
  lemma FailedAttemptUnsettles(before: Disk, d: Disk, p: Path, sourceDir: Path, n: nat)
    requires Grown(before, d, Dir(p)) && 0 < n < |p|
    requires Live(before, p[..n]).Absent? && Live(d, p[..n]).Directory?
    ensures AncestorsSettled(d, p, sourceDir) ==> p[..n - 1] == sourceDir
  {
    assert SameEntry(before, d, p[..n]) || MadeDirectory(before, d, p[..n]);
    assert AncestorsSettled(d, p, sourceDir) ==> AncestorSettled(d, p, sourceDir, n);
  }

  /** The disk on which the second attempt of the example renames its temporary file. */
  function Staged(d: Disk): Disk {
    Flush(Write(MakeFile(d, ["a", "t"]), 0, "new"), 0)
  }

  /**
   A first attempt creates the directory `a` on an empty disk and then fails.  A second one
   stages, renames and syncs all that it has to, and still a crash may lose its file.
   */
  lemma RetryExample()
    ensures var empty := Disk(map[[] := Directory], map[], map[], {}, 0);
            var failed := Bind(empty, ["a"], Directory);
            var f, t := ["a", "f"], ["a", "t"];
            var after := SyncAll(Rename(Staged(failed), t, f), RequiredSyncs(["a"], ["a"], MissingFrom(failed, ["a"])));
            && WellFormed(empty) && Grown(empty, failed, ["a"]) && AncestorsSettled(empty, f, ["a"])
            && WellFormed(Staged(failed)) && RenameAllowed(Staged(failed), t, f) && WellFormed(after)
            && Contents(after, f) == Some("new") && MayRead(after, f, None)
  {
    var empty := Disk(map[[] := Directory], map[], map[], {}, 0);
    var failed := Bind(empty, ["a"], Directory);
    FailedExample(empty, failed);
    StagedExample(failed);
    SyncedExample(failed, Staged(failed));
  }

  lemma FailedExample(empty: Disk, failed: Disk)
    requires empty == Disk(map[[] := Directory], map[], map[], {}, 0) && failed == Bind(empty, ["a"], Directory)
    ensures WellFormed(empty) && WellFormed(failed) && Grown(empty, failed, ["a"]) && AncestorsSettled(empty, ["a", "f"], ["a"])
  {
    assert Dir(["a"]) == [];
    BindKeepsWellFormed(empty, ["a"], Directory);
    assert ["a"] <= ["a"];
    forall q ensures SameEntry(empty, failed, q) || (q <= ["a"] && MadeDirectory(empty, failed, q)) {
      BindMayHold(empty, ["a"], Directory, q);
    }
  }

  lemma StagedExample(failed: Disk)
    requires WellFormed(failed) && failed.next == 0 && failed.data == map[]
    requires MayHold(failed, ["a"]) == {Absent, Directory} && Live(failed, ["a"]).Directory?
    requires Live(failed, ["a", "t"]).Absent? && MayHold(failed, ["a", "f"]) == {Absent}
    ensures var d := Staged(failed);
            && WellFormed(d) && RenameAllowed(d, ["a", "t"], ["a", "f"])
            && IsNew(d, Live(d, ["a", "t"]), Some("new")) && MayHold(d, ["a"]) == {Absent, Directory}
            && Live(d, ["a", "f"]).Absent?
  {
    var t, f := ["a", "t"], ["a", "f"];
    assert Dir(t) == ["a"] && Dir(f) == ["a"];
    MakeFileKeepsWellFormed(failed, t);
    WriteKeepsWellFormed(MakeFile(failed, t), 0, "new");
    WriteKeepsWellFormed(Write(MakeFile(failed, t), 0, "new"), 0, "");
    assert t[1] != f[1];
  }

  lemma SyncedExample(failed: Disk, d: Disk)
    requires WellFormed(failed) && Live(failed, ["a"]).Directory?
    requires WellFormed(d) && RenameAllowed(d, ["a", "t"], ["a", "f"])
    requires IsNew(d, Live(d, ["a", "t"]), Some("new")) && MayHold(d, ["a"]) == {Absent, Directory}
    requires Live(d, ["a", "f"]).Absent?
    ensures var after := SyncAll(Rename(d, ["a", "t"], ["a", "f"]), RequiredSyncs(["a"], ["a"], MissingFrom(failed, ["a"])));
            WellFormed(after) && Contents(after, ["a", "f"]) == Some("new") && MayRead(after, ["a", "f"], None)
  {
    var t, f := ["a", "t"], ["a", "f"];
    var syncs := RequiredSyncs(["a"], ["a"], MissingFrom(failed, ["a"]));
    assert syncs == [["a"]];
    var renamed := Rename(d, t, f);
    RenameKeepsWellFormed(d, t, f);
    SyncAllKeepsWellFormed(renamed, syncs);
    SyncAllMayHold(renamed, syncs, f);
    SyncAllMayHold(renamed, syncs, ["a"]);
    assert t[1] != f[1] && |t| != |["a"]| && |f| != |["a"]|;
    RenameMayHold(d, t, f, f);
    RenameMayHold(d, t, f, ["a"]);
    ReadAndLost(SyncAll(renamed, syncs), f, Live(d, t).inode);
  }

  /** A file below a directory that a crash may lose. */
  lemma ReadAndLost(d: Disk, f: Path, inode: nat)
    requires WellFormed(d) && f == ["a", "f"] && Live(d, f) == File(inode) && Absent in MayHold(d, ["a"])
    ensures inode in d.data && Contents(d, f) == Some(d.data[inode]) && MayRead(d, f, None)
  {
    LiveFileIsRead(d, f);
    assert f[..1] == ["a"];
    MayBeLost(d, f, 1, Absent);
  }
}
