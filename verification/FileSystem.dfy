/**
 The system calls a replacement makes.  Each may fail at any time; `history` records the
 disk after every call that may change it, so a crash between two calls, or after a
 failed one, is a crash at one of the recorded disks.  A failed sync is recorded as
 having made nothing durable, which leaves a crash the widest choice.  `faults` counts the
 failures that are not the disk's own state.
 */
module FileSystem {
  import opened Wrappers
  import opened Disks
  import opened ReplacementSpec

  datatype StatResult = Found | Missing | StatFailed

  class FileSystem {
    var disk: Disk
    ghost var history: seq<Disk>
    ghost var syncs: seq<DirectorySync>
    ghost var unremoved: seq<Path>
    ghost var faults: nat

    ghost predicate Valid()
      reads this
    {
      WellFormed(disk)
    }

    /** No directory was synced and no file failed to be removed. */
    twostate predicate Quiet()
      reads this
    {
      syncs == old(syncs) && unremoved == old(unremoved)
    }

    /** If this call failed, there was a fault, or else `reason` holds. */
    twostate predicate Justified(ok: bool, reason: bool)
      reads this
    {
      old(faults) <= faults && (ok || old(faults) < faults || reason)
    }

    /** One call happened, which left `d` and was otherwise quiet. */
    twostate predicate Called(d: Disk)
      reads this
    {
      disk == d && history == old(history) + [d] && Quiet()
    }

    constructor (start: Disk)
      requires WellFormed(start)
      ensures Valid() && disk == start
    {
      disk := start;
      history := [start];
      syncs, unremoved, faults := [], [], 0;
    }

    /** Decides whether a fault happens now. */
    method Fault() returns (fault: bool)
      modifies this`faults
      ensures faults == old(faults) + if fault then 1 else 0
    {
      fault := *;
      if fault {
        faults := faults + 1;
      }
    }

    /** Changing a mode or closing changes nothing that is modelled, but may fail. */
    method Attempt() returns (ok: bool)
      modifies this`faults
      ensures Justified(ok, false)
    {
      var fault := Fault();
      ok := !fault;
    }

    method Stat(p: Path) returns (r: StatResult)
      requires Valid()
      modifies this`faults
      ensures r.Found? ==> !Live(disk, p).Absent?
      ensures r.Missing? ==> Live(disk, p).Absent?
      ensures Justified(!r.StatFailed?, FileAbove(disk, p))
    {
      var fault := Fault();
      if fault || exists n | 0 <= n < |p| :: Live(disk, p[..n]).File? {
        r := StatFailed;
      } else if Live(disk, p).Absent? {
        r := Missing;
      } else {
        r := Found;
      }
    }

    method Mkdir(p: Path) returns (ok: bool)
      requires Valid()
      modifies this
      ensures Valid()
      ensures Called(if ok then Bind(old(disk), p, Directory) else old(disk))
      ensures ok ==> p != [] && Live(old(disk), p).Absent? && Live(old(disk), Dir(p)).Directory?
      ensures Justified(ok, !Live(old(disk), p).Absent? || !Live(old(disk), Dir(p)).Directory?)
    {
      var fault := Fault();
      ok := !fault && p != [] && Live(disk, p).Absent? && Live(disk, Dir(p)).Directory?;
      if ok {
        BindKeepsWellFormed(disk, p, Directory);
        disk := Bind(disk, p, Directory);
      }
      history := history + [disk];
    }

    /** Creates the missing directories from the top down, and may stop half way. */
    method MkdirAll(directory: Path) returns (ok: bool)
      requires Valid()
      modifies this
      ensures Valid() && Quiet()
      ensures Grown(old(disk), disk, directory)
      ensures old(history) <= history
      ensures forall i :: |old(history)| <= i < |history| ==> Grown(old(disk), history[i], directory)
      ensures ok ==> Live(disk, directory).Directory?
      ensures Justified(ok, Live(old(disk), directory).File? || FileAbove(old(disk), directory))
      decreases |directory|
    {
      if directory == [] || !Live(disk, directory).Absent? {
        ok := Live(disk, directory).Directory?;
      } else {
        ghost var before := disk;
        ok := MkdirAll(Dir(directory));
        forall d | Grown(before, d, Dir(directory)) ensures Grown(before, d, directory) {
          GrownAbove(before, d, directory);
        }
        FileAboveParent(before, directory);
        if ok {
          ghost var above := disk;
          assert SameEntry(before, above, directory);
          ok := Mkdir(directory);
          if ok {
            GrownByMkdir(before, above, directory);
          }
        }
      }
    }

    /** Creates an empty file under a name that must not exist yet. */
    method CreateFile(p: Path) returns (inode: Option<nat>)
      requires Valid()
      modifies this
      ensures Valid()
      ensures Called(if inode.Some? then MakeFile(old(disk), p) else old(disk))
      ensures inode.Some? ==> inode.value == old(disk).next && p != [] && Live(old(disk), p).Absent?
      ensures Justified(inode.Some?, !Live(old(disk), p).Absent? || !Live(old(disk), Dir(p)).Directory?)
    {
      var fault := Fault();
      if fault || p == [] || !Live(disk, p).Absent? || !Live(disk, Dir(p)).Directory? {
        inode := None;
      } else {
        MakeFileKeepsWellFormed(disk, p);
        inode := Some(disk.next);
        disk := MakeFile(disk, p);
      }
      history := history + [disk];
    }

    /** Copies the contents into a file; a failing reader or disk leaves a prefix. */
    method CopyInto(inode: nat, content: Content) returns (ok: bool, ghost copied: Content)
      requires Valid() && inode in disk.data
      modifies this
      ensures Valid() && copied <= content && (ok ==> copied == content)
      ensures Called(Write(old(disk), inode, copied)) && Justified(ok, false)
    {
      var fault := Fault();
      var count := |content|;
      if fault {
        count :| 0 <= count <= |content|;
      }
      ok := !fault;
      copied := content[..count];
      WriteKeepsWellFormed(disk, inode, content[..count]);
      disk := Write(disk, inode, content[..count]);
      history := history + [disk];
    }

    method SyncFile(inode: nat) returns (ok: bool)
      requires Valid() && inode in disk.data
      modifies this
      ensures Valid()
      ensures Called(if ok then Flush(old(disk), inode) else old(disk)) && Justified(ok, false)
    {
      var fault := Fault();
      ok := !fault;
      if ok {
        WriteKeepsWellFormed(disk, inode, "");
        disk := Flush(disk, inode);
      }
      history := history + [disk];
    }

    method OpenFile(p: Path) returns (inode: Option<nat>)
      requires Valid()
      modifies this`faults
      ensures inode.Some? ==> Live(disk, p) == File(inode.value) && inode.value in disk.data
      ensures Justified(inode.Some?, !Live(disk, p).File?)
    {
      var fault := Fault();
      if fault || !Live(disk, p).File? {
        inode := None;
      } else {
        inode := Some(Live(disk, p).inode);
        assert EntryOk(disk, p, Live(disk, p));
      }
    }

    method RenameFile(source: Path, destination: Path) returns (ok: bool)
      requires Valid()
      modifies this
      ensures Valid()
      ensures Called(if ok then Rename(old(disk), source, destination) else old(disk))
      ensures ok ==> RenameAllowed(old(disk), source, destination)
      ensures Justified(ok, !RenameAllowed(old(disk), source, destination))
    {
      var fault := Fault();
      ok := !fault && RenameAllowed(disk, source, destination);
      if ok {
        RenameKeepsWellFormed(disk, source, destination);
        disk := Rename(disk, source, destination);
      }
      history := history + [disk];
    }

    method SyncDirectory(directory: Path) returns (ok: bool)
      requires Valid()
      modifies this
      ensures Valid()
      ensures disk == if ok then SyncDir(old(disk), directory) else old(disk)
      ensures history == old(history) + [disk]
      ensures syncs == old(syncs) + [DirectorySync(directory, ok)] && unremoved == old(unremoved)
      ensures Justified(ok, !Live(old(disk), directory).Directory?)
    {
      var fault := Fault();
      ok := !fault && Live(disk, directory).Directory?;
      if ok {
        SyncAllKeepsWellFormed(disk, [directory]);
        assert SyncAll(disk, [directory]) == SyncDir(disk, directory);
        disk := SyncDir(disk, directory);
      }
      history := history + [disk];
      syncs := syncs + [DirectorySync(directory, ok)];
    }

    /** Removing a file.  The caller ignores failures; a file that stays is recorded. */
    method RemoveFile(p: Path) returns (removed: bool)
      requires Valid()
      modifies this
      ensures Valid()
      ensures disk == (if removed then Bind(old(disk), p, Absent) else old(disk))
      ensures history == old(history) + [disk] && syncs == old(syncs)
      ensures removed ==> p != [] && Live(old(disk), p).File?
      ensures unremoved == old(unremoved) + if removed || Live(old(disk), p).Absent? then [] else [p]
      ensures Justified(removed, !Live(old(disk), p).File?)
    {
      var fault := Fault();
      removed := !fault && p != [] && Live(disk, p).File?;
      if removed {
        BindKeepsWellFormed(disk, p, Absent);
        disk := Bind(disk, p, Absent);
      } else if !Live(disk, p).Absent? {
        unremoved := unremoved + [p];
      }
      history := history + [disk];
    }
  }
}
