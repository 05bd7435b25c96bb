/**
 A file system whose directory entries and file data reach the disk only when they are
 synced, and what a crash may leave of it.

 A path is the sequence of its names below the base, which is `/` for absolute paths and
 the working directory for relative ones; the base itself always exists.  Directories are
 created and never removed.
 */
module Disks {
  import opened Wrappers

  type Name = string
  type Path = seq<Name>
  type Content = string

  /** filepath.Dir on cleaned paths: the parent of the base is the base. */
  function Dir(p: Path): Path {
    if p == [] then [] else p[..|p| - 1]
  }

  datatype Entry = Absent | Directory | File(inode: nat)

  /**
   `live` is what running processes see.  `stale` holds the earlier values an entry has
   had since its directory was last synced: a crash may bring any of them back.  The data
   of an inode outside `flushed` is arbitrary after a crash.
   */
  datatype Disk = Disk(
    live: map<Path, Entry>,
    stale: map<Path, set<Entry>>,
    data: map<nat, Content>,
    flushed: set<nat>,
    next: nat)

  function Live(d: Disk, p: Path): Entry {
    if p in d.live then d.live[p] else Absent
  }

  /** The values that the entry of `p` may have after a crash. */
  function MayHold(d: Disk, p: Path): set<Entry> {
    {Live(d, p)} + if p in d.stale then d.stale[p] else {}
  }

  ghost predicate EntryOk(d: Disk, p: Path, e: Entry) {
    && (!e.Absent? && p != [] ==> Live(d, Dir(p)).Directory?)
    && (e.Directory? ==> Live(d, p).Directory?)
    && (e.File? ==> e.inode in d.data)
  }

  ghost predicate WellFormed(d: Disk) {
    && Live(d, []).Directory? && MayHold(d, []) == {Directory}
    && (forall p, e :: e in MayHold(d, p) ==> EntryOk(d, p, e))
    && d.flushed <= d.data.Keys
    && (forall i :: i in d.data ==> i < d.next)
  }

  // ------------------------------------------------------------------ operations

  /** Replaces the entry of `p`; the old value may come back after a crash. */
  function Bind(d: Disk, p: Path, e: Entry): Disk {
    d.(live := d.live[p := e], stale := d.stale[p := MayHold(d, p)])
  }

  function MakeFile(d: Disk, p: Path): Disk {
    Bind(d.(data := d.data[d.next := ""], next := d.next + 1), p, File(d.next))
  }

  function Write(d: Disk, inode: nat, content: Content): Disk {
    d.(data := d.data[inode := content], flushed := d.flushed - {inode})
  }

  function Flush(d: Disk, inode: nat): Disk {
    d.(flushed := d.flushed + {inode})
  }

  /** Renaming a file to a name that already has the same file changes nothing. */
  function Rename(d: Disk, source: Path, destination: Path): Disk {
    if Live(d, source) == Live(d, destination) then d
    else Bind(Bind(d, destination, Live(d, source)), source, Absent)
  }

  predicate RenameAllowed(d: Disk, source: Path, destination: Path) {
    && Live(d, source).File?
    && destination != [] && Live(d, Dir(destination)).Directory? && !Live(d, destination).Directory?
  }

  function SyncDir(d: Disk, directory: Path): Disk {
    d.(stale := map p | p in d.stale && (p == [] || Dir(p) != directory) :: d.stale[p])
  }

  function SyncAll(d: Disk, directories: seq<Path>): Disk {
    if directories == [] then d
    else SyncDir(SyncAll(d, directories[..|directories| - 1]), directories[|directories| - 1])
  }

  lemma BindMayHold(d: Disk, p: Path, e: Entry, q: Path)
    ensures Live(Bind(d, p, e), q) == if q == p then e else Live(d, q)
    ensures MayHold(Bind(d, p, e), q) == if q == p then {e} + MayHold(d, p) else MayHold(d, q)
  {
  }

  lemma {:induction false} SyncAllMayHold(d: Disk, directories: seq<Path>, q: Path)
    ensures Live(SyncAll(d, directories), q) == Live(d, q)
    ensures MayHold(SyncAll(d, directories), q) == if q != [] && Dir(q) in directories then {Live(d, q)} else MayHold(d, q)
    ensures SyncAll(d, directories).data == d.data && SyncAll(d, directories).flushed == d.flushed
    ensures SyncAll(d, directories).live == d.live && SyncAll(d, directories).next == d.next
  {
    if directories != [] {
      var n := |directories| - 1;
      SyncAllMayHold(d, directories[..n], q);
      assert directories == directories[..n] + [directories[n]];
    }
  }

  lemma BindKeepsWellFormed(d: Disk, p: Path, e: Entry)
    requires WellFormed(d) && p != [] && !Live(d, p).Directory?
    requires !e.Absent? ==> Live(d, Dir(p)).Directory?
    requires e.File? ==> e.inode in d.data
    ensures WellFormed(Bind(d, p, e))
  {
    var d' := Bind(d, p, e);
    BindMayHold(d, p, e, []);
    forall q, f | f in MayHold(d', q) ensures EntryOk(d', q, f) {
      BindMayHold(d, p, e, q);
      BindMayHold(d, p, e, Dir(q));
      if q != p || f != e {
        assert EntryOk(d, q, f);
      }
    }
  }

  /** What a change that leaves every directory entry alone has to keep. */
  lemma DataKeepsWellFormed(d: Disk, d': Disk)
    requires WellFormed(d) && d'.live == d.live
    requires forall p :: MayHold(d', p) <= MayHold(d, p)
    requires d.data.Keys <= d'.data.Keys && d'.flushed <= d'.data.Keys
    requires forall i :: i in d'.data ==> i < d'.next
    ensures WellFormed(d')
  {
    assert MayHold(d', []) == {Directory};
    forall p, e | e in MayHold(d', p) ensures EntryOk(d', p, e) {
      assert EntryOk(d, p, e);
      assert Live(d', Dir(p)) == Live(d, Dir(p));
    }
  }

  lemma MakeFileKeepsWellFormed(d: Disk, p: Path)
    requires WellFormed(d) && p != [] && Live(d, p).Absent? && Live(d, Dir(p)).Directory?
    ensures WellFormed(MakeFile(d, p))
  {
    var d1 := d.(data := d.data[d.next := ""], next := d.next + 1);
    forall q ensures MayHold(d1, q) == MayHold(d, q) { }
    DataKeepsWellFormed(d, d1);
    BindKeepsWellFormed(d1, p, File(d.next));
  }

  lemma WriteKeepsWellFormed(d: Disk, inode: nat, content: Content)
    requires WellFormed(d) && inode in d.data
    ensures WellFormed(Write(d, inode, content)) && WellFormed(Flush(d, inode))
  {
    forall q ensures MayHold(Write(d, inode, content), q) == MayHold(d, q) && MayHold(Flush(d, inode), q) == MayHold(d, q) { }
    DataKeepsWellFormed(d, Write(d, inode, content));
    DataKeepsWellFormed(d, Flush(d, inode));
  }

  lemma SyncAllKeepsWellFormed(d: Disk, directories: seq<Path>)
    requires WellFormed(d)
    ensures WellFormed(SyncAll(d, directories))
  {
    forall q ensures MayHold(SyncAll(d, directories), q) <= MayHold(d, q) {
      SyncAllMayHold(d, directories, q);
    }
    SyncAllMayHold(d, directories, []);
    DataKeepsWellFormed(d, SyncAll(d, directories));
  }

  lemma RenameMayHold(d: Disk, source: Path, destination: Path, q: Path)
    requires Live(d, source) != Live(d, destination)
    ensures Live(Rename(d, source, destination), q) ==
            if q == source then Absent else if q == destination then Live(d, source) else Live(d, q)
    ensures MayHold(Rename(d, source, destination), q) ==
            if q == source then {Absent} + MayHold(d, source)
            else if q == destination then {Live(d, source)} + MayHold(d, destination)
            else MayHold(d, q)
  {
    BindMayHold(d, destination, Live(d, source), q);
    BindMayHold(d, destination, Live(d, source), source);
    BindMayHold(Bind(d, destination, Live(d, source)), source, Absent, q);
  }

  lemma RenameKeepsWellFormed(d: Disk, source: Path, destination: Path)
    requires WellFormed(d) && RenameAllowed(d, source, destination)
    ensures WellFormed(Rename(d, source, destination))
  {
    if Live(d, source) != Live(d, destination) {
      assert EntryOk(d, source, Live(d, source));
      BindKeepsWellFormed(d, destination, Live(d, source));
      BindMayHold(d, destination, Live(d, source), source);
      BindKeepsWellFormed(Bind(d, destination, Live(d, source)), source, Absent);
    }
  }

  // ---------------------------------------------------------------------- crashes

  /** A disk at rest: what a process or a restarted system can read. */
  datatype Image = Image(entries: map<Path, Entry>, data: map<nat, Content>)

  function At(image: Image, p: Path): Entry {
    if p in image.entries then image.entries[p] else Absent
  }

  ghost predicate Reaches(image: Image, p: Path) {
    forall n :: 0 <= n < |p| ==> At(image, p[..n]).Directory?
  }

  /** The contents of the file at `p`, or nothing if no file is reachable there. */
  ghost function Read(image: Image, p: Path): Option<Content> {
    if Reaches(image, p) && At(image, p).File? && At(image, p).inode in image.data
    then Some(image.data[At(image, p).inode]) else None
  }

  ghost predicate CrashImage(d: Disk, image: Image) {
    && (forall p :: At(image, p) in MayHold(d, p))
    && d.data.Keys <= image.data.Keys
    && (forall i :: i in d.flushed && i in d.data ==> image.data[i] == d.data[i])
  }

  /** A crash now may leave `r` to be read at `p`. */
  ghost predicate MayRead(d: Disk, p: Path, r: Option<Content>) {
    exists image :: CrashImage(d, image) && Read(image, p) == r
  }

  /** What running processes read. */
  function Visible(d: Disk): Image {
    Image(d.live, d.data)
  }

  ghost function Contents(d: Disk, p: Path): Option<Content> {
    Read(Visible(d), p)
  }

  /** Every crash leaves exactly `c` at `p`. */
  ghost predicate Durable(d: Disk, p: Path, c: Content) {
    forall r :: MayRead(d, p, r) ==> r == Some(c)
  }

  lemma VisibleIsCrashImage(d: Disk)
    ensures CrashImage(d, Visible(d))
  {
    forall p ensures At(Visible(d), p) in MayHold(d, p) { }
  }

  /** The paths above a live entry are live directories. */
  lemma {:induction false} LiveAncestors(d: Disk, p: Path, n: nat)
    requires WellFormed(d) && n < |p| && !Live(d, p).Absent?
    ensures Live(d, p[..n]).Directory?
    decreases |p|
  {
    assert EntryOk(d, p, Live(d, p));
    if n < |p| - 1 {
      LiveAncestors(d, Dir(p), n);
      assert Dir(p)[..n] == p[..n];
    }
  }

  /** Below a path that is not a directory nothing can be found, now or after a crash. */
  lemma {:induction false} NothingBelowAbsent(d: Disk, p: Path, n: nat)
    requires WellFormed(d) && n < |p| && !Live(d, p[..n]).Directory?
    ensures MayHold(d, p) == {Absent}
    decreases |p|
  {
    if n < |p| - 1 {
      assert Dir(p)[..n] == p[..n];
      NothingBelowAbsent(d, Dir(p), n);
    }
    forall e | e in MayHold(d, p) ensures e == Absent {
      assert EntryOk(d, p, e);
    }
    assert Live(d, p) in MayHold(d, p);
  }

  lemma LiveFileIsRead(d: Disk, p: Path)
    requires WellFormed(d) && Live(d, p).File?
    ensures Live(d, p).inode in d.data && Contents(d, p) == Some(d.data[Live(d, p).inode])
  {
    assert EntryOk(d, p, Live(d, p));
    forall n | 0 <= n < |p| ensures At(Visible(d), p[..n]).Directory? {
      LiveAncestors(d, p, n);
    }
  }

  /** No crash can lose a directory above `p`. */
  ghost predicate SettledAbove(d: Disk, p: Path) {
    forall n :: 0 <= n < |p| ==> MayHold(d, p[..n]) == {Directory}
  }

  /** The entry of `p` and of everything above it is settled, on a flushed file holding `c`. */
  ghost predicate Settled(d: Disk, p: Path, c: Content) {
    && SettledAbove(d, p)
    && (forall e :: e in MayHold(d, p) ==> e.File? && e.inode in d.flushed && e.inode in d.data && d.data[e.inode] == c)
  }

  lemma SettledIsDurable(d: Disk, p: Path, c: Content)
    requires WellFormed(d) && Settled(d, p, c)
    ensures Durable(d, p, c)
  {
    forall image | CrashImage(d, image) ensures Read(image, p) == Some(c) {
      forall n | 0 <= n < |p| ensures At(image, p[..n]).Directory? {
        assert At(image, p[..n]) in MayHold(d, p[..n]);
      }
      assert At(image, p) in MayHold(d, p);
    }
  }

  /** A crash may combine the visible disk with any one value an entry may hold, and garble unflushed data. */
  lemma OneEntryImage(d: Disk, q: Path, e: Entry, garbled: nat, c: Content)
    requires e in MayHold(d, q) && garbled !in d.flushed
    ensures CrashImage(d, Image(d.live[q := e], d.data[garbled := c]))
  {
    var image := Image(d.live[q := e], d.data[garbled := c]);
    forall p ensures At(image, p) in MayHold(d, p) { }
  }

  /** Durability is exactly settledness: nothing weaker survives every crash. */
  lemma DurableIffSettled(d: Disk, p: Path, c: Content)
    requires WellFormed(d)
    ensures Durable(d, p, c) <==> Settled(d, p, c)
  {
    if Settled(d, p, c) {
      SettledIsDurable(d, p, c);
    }
    if Durable(d, p, c) {
      VisibleIsCrashImage(d);
      assert MayRead(d, p, Contents(d, p));
      forall n | 0 <= n < |p| ensures MayHold(d, p[..n]) == {Directory} {
        AncestorIsSettled(d, p, c, n);
      }
      forall e | e in MayHold(d, p) ensures e.File? && e.inode in d.flushed && e.inode in d.data && d.data[e.inode] == c {
        EntryIsFlushed(d, p, c, e);
      }
    }
  }

  lemma AncestorIsSettled(d: Disk, p: Path, c: Content, n: nat)
    requires Durable(d, p, c) && n < |p|
    requires d.next !in d.flushed
    ensures MayHold(d, p[..n]) == {Directory}
  {
    forall e | e in MayHold(d, p[..n]) ensures e == Directory {
      OneEntryImage(d, p[..n], e, d.next, "");
      var image := Image(d.live[p[..n] := e], d.data[d.next := ""]);
      assert MayRead(d, p, Read(image, p));
      assert At(image, p[..n]).Directory?;
    }
    assert Live(d, p[..n]) in MayHold(d, p[..n]);
  }

  lemma EntryIsFlushed(d: Disk, p: Path, c: Content, e: Entry)
    requires WellFormed(d) && Durable(d, p, c) && e in MayHold(d, p)
    ensures e.File? && e.inode in d.flushed && e.inode in d.data && d.data[e.inode] == c
  {
    OneEntryImage(d, p, e, d.next, "");
    var image := Image(d.live[p := e], d.data[d.next := ""]);
    assert MayRead(d, p, Read(image, p));
    assert EntryOk(d, p, e);
    if e.inode !in d.flushed {
      OneEntryImage(d, p, e, e.inode, c + "x");
      var garbled := Image(d.live[p := e], d.data[e.inode := c + "x"]);
      assert MayRead(d, p, Read(garbled, p));
    }
  }
}
