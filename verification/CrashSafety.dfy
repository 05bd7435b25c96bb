/**
 What a replacement may do to the disk without a crash ever showing anything but the old
 contents of the destination or the complete new ones.
 */
module CrashSafety {
  import opened Wrappers
  import opened Disks

  /**
   Anything a crash at `d` may leave at `p` could already have been left by a crash at
   `before`, or is the complete new contents.  No assumption says that the old contents
   were durable; when they were, the old contents are the only earlier outcome.
   */
  ghost predicate CrashSafe(before: Disk, d: Disk, p: Path, staged: Option<Content>) {
    forall r :: MayRead(d, p, r) ==> MayRead(before, p, r) || (staged.Some? && r == staged)
  }

  ghost predicate IsNew(d: Disk, e: Entry, staged: Option<Content>) {
    e.File? && e.inode in d.flushed && e.inode in d.data && staged == Some(d.data[e.inode])
  }

  ghost predicate DataKept(before: Disk, d: Disk) {
    && before.data.Keys <= d.data.Keys
    && before.flushed <= d.flushed
    && forall i :: i in before.flushed && i in before.data && i in d.data ==> d.data[i] == before.data[i]
  }

  /** The invariant of every disk between the start of a replacement of `p` and its end. */
  ghost predicate Guarded(before: Disk, d: Disk, p: Path, staged: Option<Content>) {
    && (forall n :: 0 <= n < |p| ==> MayHold(d, p[..n]) <= MayHold(before, p[..n]) || Live(before, p[..n]).Absent?)
    && (forall e :: e in MayHold(d, p) ==> e in MayHold(before, p) || IsNew(d, e, staged))
    && DataKept(before, d)
  }

  /** The image of `before` that differs from what was visible only where a crash at `d` differed on the way to `p`. */
  ghost function Pullback(before: Disk, image: Image, p: Path): Image {
    Image(before.live + map q | q in Prefixes(p) :: At(image, q), image.data)
  }

  ghost function Prefixes(p: Path): set<Path> {
    set n | 0 <= n <= |p| :: p[..n]
  }

  lemma PullbackAt(before: Disk, image: Image, p: Path, q: Path)
    ensures At(Pullback(before, image, p), q) == if q in Prefixes(p) then At(image, q) else Live(before, q)
  {
  }

  lemma PullbackRead(before: Disk, image: Image, p: Path)
    ensures Read(Pullback(before, image, p), p) == Read(image, p)
  {
    forall n | 0 <= n <= |p| ensures At(Pullback(before, image, p), p[..n]) == At(image, p[..n]) {
      assert p[..n] in Prefixes(p);
      PullbackAt(before, image, p, p[..n]);
    }
    assert p[..|p|] == p;
  }

  lemma PullbackIsCrashImage(before: Disk, d: Disk, p: Path, image: Image)
    requires CrashImage(d, image) && DataKept(before, d)
    requires forall q :: q in Prefixes(p) ==> At(image, q) in MayHold(before, q)
    ensures CrashImage(before, Pullback(before, image, p))
  {
    forall q ensures At(Pullback(before, image, p), q) in MayHold(before, q) {
      PullbackAt(before, image, p, q);
    }
  }

  /** A disk on which `p` cannot be reached, because some entry above it may be missing. */
  lemma MayBeLost(before: Disk, p: Path, n: nat, e: Entry)
    requires n < |p| && e in MayHold(before, p[..n]) && !e.Directory? && before.next !in before.flushed
    ensures MayRead(before, p, None)
  {
    OneEntryImage(before, p[..n], e, before.next, "");
    var image := Image(before.live[p[..n] := e], before.data[before.next := ""]);
    assert !At(image, p[..n]).Directory?;
    assert Read(image, p) == None;
  }

  lemma GuardedImage(before: Disk, d: Disk, p: Path, staged: Option<Content>, image: Image)
    requires WellFormed(before) && Guarded(before, d, p, staged) && CrashImage(d, image)
    requires forall n :: 0 <= n < |p| ==> Live(before, p[..n]).Directory?
    ensures MayRead(before, p, Read(image, p)) || (staged.Some? && Read(image, p) == staged)
  {
    assert At(image, p) in MayHold(d, p);
    if At(image, p) in MayHold(before, p) {
      forall q | q in Prefixes(p) ensures At(image, q) in MayHold(before, q) {
        assert At(image, q) in MayHold(d, q);
        assert p[..|p|] == p;
      }
      PullbackIsCrashImage(before, d, p, image);
      PullbackRead(before, image, p);
    } else if !Reaches(image, p) {
      var n :| 0 <= n < |p| && !At(image, p[..n]).Directory?;
      assert At(image, p[..n]) in MayHold(d, p[..n]);
      MayBeLost(before, p, n, At(image, p[..n]));
    }
  }

  lemma GuardedIsCrashSafe(before: Disk, d: Disk, p: Path, staged: Option<Content>)
    requires WellFormed(before) && Guarded(before, d, p, staged)
    ensures CrashSafe(before, d, p, staged)
  {
    forall image | CrashImage(d, image)
      ensures MayRead(before, p, Read(image, p)) || (staged.Some? && Read(image, p) == staged)
    {
      if n :| 0 <= n < |p| && !Live(before, p[..n]).Directory? {
        NothingBelowAbsent(before, p, n);
        assert At(image, p) in MayHold(d, p);
        MayBeLost(before, p, n, Live(before, p[..n]));
      } else {
        GuardedImage(before, d, p, staged, image);
      }
    }
  }

  // ------------------------------------------------- what keeps a disk guarded

  /** Entries off the path to `p` do not matter. */
  lemma BindElsewhere(before: Disk, d: Disk, p: Path, staged: Option<Content>, q: Path, e: Entry)
    requires Guarded(before, d, p, staged) && q !in Prefixes(p)
    ensures Guarded(before, Bind(d, q, e), p, staged)
  {
    assert p == p[..|p|];
    forall r | r in Prefixes(p) ensures MayHold(Bind(d, q, e), r) == MayHold(d, r) {
      BindMayHold(d, q, e, r);
    }
    assert forall n :: 0 <= n <= |p| ==> p[..n] in Prefixes(p);
  }

  /** New data and newly flushed data do not matter, as long as nothing flushed or new is rewritten. */
  lemma DataElsewhere(before: Disk, d: Disk, d': Disk, p: Path, staged: Option<Content>)
    requires Guarded(before, d, p, staged)
    requires d'.live == d.live && d'.stale == d.stale
    requires d.data.Keys <= d'.data.Keys
    requires forall i :: i in d.flushed && i in d.data ==> i in d'.flushed && d'.data[i] == d.data[i]
    requires d.flushed <= d'.flushed && d.flushed <= d.data.Keys
    ensures Guarded(before, d', p, staged)
  {
    forall q ensures MayHold(d', q) == MayHold(d, q) { }
  }

  /** Putting a flushed file with the new contents at the destination. */
  lemma BindDestination(before: Disk, d: Disk, p: Path, staged: Option<Content>, e: Entry)
    requires Guarded(before, d, p, staged) && IsNew(d, e, staged)
    ensures Guarded(before, Bind(d, p, e), p, staged)
  {
    forall n | 0 <= n < |p| ensures MayHold(Bind(d, p, e), p[..n]) == MayHold(d, p[..n]) {
      assert |p[..n]| != |p|;
      BindMayHold(d, p, e, p[..n]);
    }
    BindMayHold(d, p, e, p);
  }

  lemma SyncAllGuarded(before: Disk, d: Disk, p: Path, staged: Option<Content>, directories: seq<Path>)
    requires Guarded(before, d, p, staged)
    ensures Guarded(before, SyncAll(d, directories), p, staged)
  {
    forall q ensures MayHold(SyncAll(d, directories), q) <= MayHold(d, q) {
      SyncAllMayHold(d, directories, q);
    }
    SyncAllMayHold(d, directories, []);
  }

  lemma RenameGuarded(before: Disk, d: Disk, source: Path, p: Path, staged: Option<Content>)
    requires WellFormed(d) && Guarded(before, d, p, staged) && RenameAllowed(d, source, p)
    requires IsNew(d, Live(d, source), staged)
    ensures Guarded(before, Rename(d, source, p), p, staged)
  {
    if Live(d, source) != Live(d, p) {
      forall n | 0 <= n < |p| ensures p[..n] != source {
        if n < |p| - 1 {
          LiveAncestors(d, Dir(p), n);
          assert Dir(p)[..n] == p[..n];
        } else {
          assert p[..n] == Dir(p);
        }
      }
      assert source !in Prefixes(p) by {
        assert p == p[..|p|];
      }
      BindDestination(before, d, p, staged, Live(d, source));
      BindElsewhere(before, Bind(d, p, Live(d, source)), p, staged, source, Absent);
    }
  }

  // ------------------------------------------------- everything else on the disk

  /** What a call works on: the directory it may have to create, the names it uses, and those it has moved so far. */
  datatype Scope = Scope(directory: Path, names: set<Path>, moved: set<Path>)

  /** What `q` was it still is, and a crash shows nothing at `q` that it could not have shown before. */
  ghost predicate Kept(before: Disk, d: Disk, q: Path) {
    Live(d, q) == Live(before, q) && Guarded(before, d, q, None)
  }

  ghost predicate Apart(names: set<Path>, q: Path) {
    forall x :: x in names ==> !(x <= q)
  }

  /** A path that the call leaves alone, whether there was something or not. */
  ghost predicate Bystander(before: Disk, scope: Scope, q: Path) {
    q !in scope.moved && (Live(before, q).Absent? ==> !(q <= scope.directory) && Apart(scope.names, q))
  }

  /**
   All bystanders are kept, and new directories lie on the way to the scope's.  As long as
   nothing has moved, a crash may lose each of them.
   */
  ghost predicate OthersKept(before: Disk, d: Disk, scope: Scope) {
    && (forall q {:trigger Kept(before, d, q)} :: Bystander(before, scope, q) ==> Kept(before, d, q))
    && (forall q {:trigger MayBeDirectory(before, scope.directory, q)} :: Live(d, q).Directory? ==> MayBeDirectory(before, scope.directory, q))
    && (scope.moved == {} ==> forall q {:trigger NewIsLosable(before, d, q)} :: NewIsLosable(before, d, q))
  }

  /** If `q` is a directory that was missing before, a crash may lose it. */
  ghost predicate NewIsLosable(before: Disk, d: Disk, q: Path) {
    Live(before, q).Absent? && Live(d, q).Directory? ==> Absent in MayHold(d, q)
  }

  ghost predicate MayBeDirectory(before: Disk, directory: Path, q: Path) {
    Live(before, q).Directory? || (Live(before, q).Absent? && q <= directory)
  }

  /** The invariant of every disk during a replacement of `p`, for the whole disk. */
  ghost predicate Safe(before: Disk, d: Disk, p: Path, staged: Option<Content>, scope: Scope) {
    Guarded(before, d, p, staged) && OthersKept(before, d, scope)
  }

  /** No crash shows anything new at any bystander. */
  ghost predicate OthersCrashSafe(before: Disk, d: Disk, scope: Scope) {
    forall q {:trigger CrashSafe(before, d, q, None)} :: Bystander(before, scope, q) ==> CrashSafe(before, d, q, None)
  }

  lemma SafeIsCrashSafe(before: Disk, d: Disk, p: Path, staged: Option<Content>, scope: Scope)
    requires WellFormed(before) && Safe(before, d, p, staged, scope)
    ensures CrashSafe(before, d, p, staged) && OthersCrashSafe(before, d, scope)
  {
    GuardedIsCrashSafe(before, d, p, staged);
    forall q | Bystander(before, scope, q) ensures CrashSafe(before, d, q, None) {
      assert Kept(before, d, q);
      GuardedIsCrashSafe(before, d, q, None);
    }
  }

  lemma SafeWithMore(before: Disk, d: Disk, p: Path, staged: Option<Content>, scope: Scope, more: Scope)
    requires Safe(before, d, p, staged, scope)
    requires more == scope || (scope.moved == {} && more == scope.(moved := more.moved))
    ensures Safe(before, d, p, staged, more)
  {
  }

  /** A path that is not a directory does not lie on the way to anything else that exists. */
  lemma OffTheWay(d: Disk, x: Path, q: Path)
    requires WellFormed(d) && !Live(d, x).Directory? && !Live(d, q).Absent? && x != q
    ensures x !in Prefixes(q)
  {
    assert q[..|q|] == q;
    forall n | 0 <= n < |q| ensures q[..n] != x {
      LiveAncestors(d, q, n);
    }
  }

  /** Nor do the scope's names on the way to a bystander. */
  lemma NameIsOff(before: Disk, d: Disk, scope: Scope, x: Path, q: Path)
    requires WellFormed(d) && Kept(before, d, q) && Bystander(before, scope, q)
    requires x in scope.names && !Live(d, x).Directory? && (x in scope.moved || Live(before, x).Absent?)
    ensures x !in Prefixes(q)
  {
    if Live(before, q).Absent? {
      assert !(x <= q);
      assert forall n :: 0 <= n <= |q| ==> q[..n] <= q;
    } else {
      OffTheWay(d, x, q);
    }
  }

  /** Changing the entry of a name of the scope that is not a directory, and does not become one. */
  lemma BindKeepsOthers(before: Disk, d: Disk, scope: Scope, x: Path, e: Entry)
    requires WellFormed(d) && OthersKept(before, d, scope) && x in scope.names
    requires !Live(d, x).Directory? && !e.Directory? && (x in scope.moved || Live(before, x).Absent?)
    ensures OthersKept(before, Bind(d, x, e), scope)
  {
    forall q | Bystander(before, scope, q) ensures Kept(before, Bind(d, x, e), q) {
      assert Kept(before, d, q);
      NameIsOff(before, d, scope, x, q);
      BindElsewhere(before, d, q, None, x, e);
      assert q[..|q|] == q;
    }
    forall q | scope.moved == {} ensures NewIsLosable(before, Bind(d, x, e), q) {
      assert NewIsLosable(before, d, q);
      BindMayHold(d, x, e, q);
    }
  }

  lemma DataKeepsOthers(before: Disk, d: Disk, d': Disk, scope: Scope)
    requires OthersKept(before, d, scope)
    requires d'.live == d.live && d'.stale == d.stale
    requires d.data.Keys <= d'.data.Keys
    requires forall i :: i in d.flushed && i in d.data ==> i in d'.flushed && d'.data[i] == d.data[i]
    requires d.flushed <= d'.flushed && d.flushed <= d.data.Keys
    ensures OthersKept(before, d', scope)
  {
    forall q | Bystander(before, scope, q) ensures Kept(before, d', q) {
      assert Kept(before, d, q);
      DataElsewhere(before, d, d', q, None);
    }
    forall q | scope.moved == {} ensures NewIsLosable(before, d', q) {
      assert NewIsLosable(before, d, q);
    }
  }

  lemma SyncAllSafe(before: Disk, d: Disk, p: Path, staged: Option<Content>, scope: Scope, directories: seq<Path>)
    requires Safe(before, d, p, staged, scope) && scope.moved != {}
    ensures Safe(before, SyncAll(d, directories), p, staged, scope)
  {
    var d' := SyncAll(d, directories);
    SyncAllGuarded(before, d, p, staged, directories);
    forall q ensures Live(d', q) == Live(d, q) {
      SyncAllMayHold(d, directories, q);
    }
    forall q | Bystander(before, scope, q) ensures Kept(before, d', q) {
      assert Kept(before, d, q);
      SyncAllGuarded(before, d, q, None, directories);
    }
  }

  lemma RenameSafe(before: Disk, d: Disk, source: Path, p: Path, staged: Option<Content>, scope: Scope)
    requires WellFormed(d) && Safe(before, d, p, staged, scope) && RenameAllowed(d, source, p)
    requires IsNew(d, Live(d, source), staged)
    requires {source, p} <= scope.names && p in scope.moved && (source in scope.moved || Live(before, source).Absent?)
    ensures Safe(before, Rename(d, source, p), p, staged, scope)
  {
    RenameGuarded(before, d, source, p, staged);
    if Live(d, source) != Live(d, p) {
      var d1 := Bind(d, p, Live(d, source));
      assert source in scope.names && p in scope.names;
      BindKeepsOthers(before, d, scope, p, Live(d, source));
      assert EntryOk(d, source, Live(d, source));
      BindKeepsWellFormed(d, p, Live(d, source));
      BindMayHold(d, p, Live(d, source), source);
      BindKeepsOthers(before, d1, scope, source, Absent);
    }
  }
}
