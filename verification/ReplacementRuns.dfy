/**
 Sequences of replacements on one file system, told apart only by what their callers see: what
 stays durable whatever follows, and after which calls a nil error makes contents durable.
 */
module ReplacementRuns {
  import opened Wrappers
  import opened Disks
  import opened CrashSafety
  import opened ReplacementSpec
  import opened FileSystem
  import opened DurableFile

  datatype Call =
    | Write(destination: Path, workingDirectory: bool, reader: Option<Content>, fileMode: bv32, directoryMode: bv32, temporaryName: Name)
    | Replacement(source: Option<Path>, destination: Path, workingDirectory: bool, directoryMode: bv32)

  /** A call, its outcome, the disks around it, and every disk a crash may hit during it. */
  datatype Record = Record(call: Call, outcome: Outcome, before: Disk, seen: seq<Disk>, after: Disk)

  /** The file that the call renames to the destination. */
  function SourceOf(call: Call): Path {
    match call
    case Write(destination, _, _, _, _, temporaryName) => Dir(destination) + [temporaryName]
    case Replacement(source, destination, _, _) => if source.Some? then source.value else destination
  }

  /** The contents that the call is to install, if there are any. */
  ghost function StagedBy(call: Call, before: Disk): Option<Content> {
    match call
    case Write(_, _, reader, _, _, _) => reader
    case Replacement(source, _, _, _) => if source.Some? then Contents(before, source.value) else None
  }

  ghost function ScopeOf(record: Record): Scope {
    Moved(SourceOf(record.call), record.call.destination, record.outcome)
  }

  /** The call leaves `q` alone, whether there was something or not. */
  ghost predicate LeavesAlone(record: Record, q: Path) {
    Bystander(record.before, ScopeOf(record), q)
  }

  /** What the contracts of `writeReader` and `replace` say of a call, but for the log of syncs. */
  ghost predicate Explained(record: Record) {
    var p, source, staged := record.call.destination, SourceOf(record.call), StagedBy(record.call, record.before);
    && WellFormed(record.before) && WellFormed(record.after)
    && (!record.outcome.PlainError? ==>
          && staged.Some? && Contents(record.after, p) == staged
          && (if record.call.Write? then Live(record.before, source).Absent?
              else Live(record.before, source).File? && SourceGone(record.before, record.after, source, p, record.outcome)))
    && (record.outcome.Success? ==>
          && ChangesSettled(record.before, record.after, source)
          && (Durable(record.after, p, staged.value) <==> AncestorsSettled(record.before, p, Dir(source))))
    && AllCrashSafe(record.before, record.seen, 0, p, staged, ScopeOf(record))
    && OthersKept(record.before, record.after, ScopeOf(record))
  }

  ghost function Last(records: seq<Record>, start: Disk): Disk {
    if records == [] then start else records[|records| - 1].after
  }

  /** Between two calls nothing happens to the disk. */
  ghost predicate IsRun(records: seq<Record>, start: Disk) {
    && (forall i {:trigger Explained(records[i])} :: 0 <= i < |records| ==> Explained(records[i]))
    && (records != [] ==> records[0].before == start)
    && (forall i :: 0 < i < |records| ==> records[i].before == records[i - 1].after)
  }

  lemma RunGrows(records: seq<Record>, start: Disk, record: Record)
    requires IsRun(records, start) && Explained(record) && record.before == Last(records, start)
    ensures IsRun(records + [record], start)
    ensures Seen(records + [record]) == Seen(records) + record.seen
  {
    var longer := records + [record];
    assert longer[..|records|] == records;
    forall i | 0 <= i < |longer| ensures Explained(longer[i]) {
      if i < |records| {
        assert longer[i] == records[i];
        assert Explained(records[i]);
      } else {
        assert longer[i] == record;
      }
    }
  }

  /** Every disk that was recorded, in order. */
  ghost function Seen(records: seq<Record>): seq<Disk> {
    if records == [] then [] else Seen(records[..|records| - 1]) + records[|records| - 1].seen
  }

  /** The random name of the temporary file is not the destination's. */
  predicate NameIsFree(call: Call) {
    call.Write? ==> Dir(call.destination) + [call.temporaryName] != call.destination
  }

  lemma SeenIsSafe(before: Disk, history: seq<Disk>, from: nat, p: Path, staged: Option<Content>, scope: Scope)
    requires from <= |history| && AllCrashSafe(before, history, from, p, staged, scope)
    ensures AllCrashSafe(before, history[from..], 0, p, staged, scope)
  {
    forall i | 0 <= i < |history[from..]|
      ensures CrashSafe(before, history[from..][i], p, staged) && OthersCrashSafe(before, history[from..][i], scope) {
      assert history[from..][i] == history[from + i];
    }
  }

  method Perform(fs: FileSystem, call: Call) returns (outcome: Outcome, ghost record: Record)
    requires fs.Valid() && NameIsFree(call)
    modifies fs
    ensures fs.Valid() && Explained(record) && record.call == call && record.outcome == outcome
    ensures record.before == old(fs.disk) && record.after == fs.disk
    ensures fs.history == old(fs.history) + record.seen
  {
    match call {
      case Write(destination, workingDirectory, reader, fileMode, directoryMode, temporaryName) =>
        outcome := WriteReader(fs, destination, workingDirectory, reader, fileMode, directoryMode, temporaryName);
      case Replacement(source, destination, workingDirectory, directoryMode) =>
        outcome := Replace(fs, source, destination, workingDirectory, directoryMode);
    }
    var from := |old(fs.history)|;
    record := Record(call, outcome, old(fs.disk), fs.history[from..], fs.disk);
    if record.seen != [] {
      SeenIsSafe(record.before, fs.history, from, call.destination, StagedBy(call, record.before), ScopeOf(record));
    }
  }

  /** The records explain how `start` became `disk`, and all that was recorded meanwhile. */
  ghost predicate Explains(records: seq<Record>, start: Disk, disk: Disk, earlier: seq<Disk>, history: seq<Disk>) {
    IsRun(records, start) && disk == Last(records, start) && history == earlier + Seen(records)
  }

  lemma ExplainsMore(records: seq<Record>, start: Disk, disk: Disk, earlier: seq<Disk>, history: seq<Disk>, record: Record)
    requires Explains(records, start, disk, earlier, history) && IsRun(records + [record], start)
    requires Seen(records + [record]) == Seen(records) + record.seen
    ensures Explains(records + [record], start, record.after, earlier, history + record.seen)
  {
    assert earlier + Seen(records) + record.seen == earlier + (Seen(records) + record.seen);
  }

  /** The records are of these calls, in order, with these outcomes. */
  ghost predicate Reported(records: seq<Record>, calls: seq<Call>, outcomes: seq<Outcome>) {
    && |records| == |outcomes| <= |calls|
    && forall i :: 0 <= i < |records| ==> records[i].call == calls[i] && records[i].outcome == outcomes[i]
  }

  lemma ReportGrows(records: seq<Record>, calls: seq<Call>, outcomes: seq<Outcome>, record: Record)
    requires Reported(records, calls, outcomes) && |records| < |calls| && record.call == calls[|records|]
    ensures Reported(records + [record], calls, outcomes + [record.outcome])
  {
  }

  /** Any sequence of calls, on any file system, is a run. */
  method PerformAll(fs: FileSystem, calls: seq<Call>) returns (outcomes: seq<Outcome>, ghost records: seq<Record>)
    requires fs.Valid() && forall i :: 0 <= i < |calls| ==> NameIsFree(calls[i])
    modifies fs
    ensures fs.Valid() && |records| == |calls| && Reported(records, calls, outcomes)
    ensures Explains(records, old(fs.disk), fs.disk, old(fs.history), fs.history)
  {
    outcomes, records := [], [];
    for i := 0 to |calls|
      invariant fs.Valid() && |records| == i && Reported(records, calls, outcomes)
      invariant Explains(records, old(fs.disk), fs.disk, old(fs.history), fs.history)
    {
      var outcome: Outcome;
      ghost var record: Record;
      ghost var disk, history := fs.disk, fs.history;
      outcome, record := Perform(fs, calls[i]);
      RunGrows(records, old(fs.disk), record);
      ExplainsMore(records, old(fs.disk), disk, old(fs.history), history, record);
      ReportGrows(records, calls, outcomes, record);
      outcomes, records := outcomes + [outcome], records + [record];
    }
  }

  // ------------------------------------------------------------- what stays as it was

  /** A crash during or after a call shows nothing new where the call leaves things alone. */
  lemma CallShowsNothingNew(record: Record, q: Path)
    requires Explained(record) && LeavesAlone(record, q)
    ensures forall r :: MayRead(record.after, q, r) ==> MayRead(record.before, q, r)
    ensures forall d, r :: d in record.seen && MayRead(d, q, r) ==> MayRead(record.before, q, r)
  {
    assert Kept(record.before, record.after, q);
    GuardedIsCrashSafe(record.before, record.after, q, None);
    forall d, r | d in record.seen && MayRead(d, q, r) ensures MayRead(record.before, q, r) {
      var i :| 0 <= i < |record.seen| && record.seen[i] == d;
      assert OthersCrashSafe(record.before, record.seen[i], ScopeOf(record));
      assert CrashSafe(record.before, d, q, None);
    }
  }

  /** Nor during or after any number of such calls. */
  lemma {:induction false} RunShowsNothingNew(records: seq<Record>, start: Disk, i: nat, j: nat, q: Path)
    requires IsRun(records, start) && i <= j < |records|
    requires forall k :: i <= k <= j ==> LeavesAlone(records[k], q)
    ensures forall r :: MayRead(records[j].after, q, r) ==> MayRead(records[i].before, q, r)
    ensures forall d, r :: d in records[j].seen && MayRead(d, q, r) ==> MayRead(records[i].before, q, r)
  {
    assert Explained(records[j]);
    CallShowsNothingNew(records[j], q);
    if i < j {
      assert records[j].before == records[j - 1].after;
      RunShowsNothingNew(records, start, i, j - 1, q);
    }
  }

  lemma DurableExists(d: Disk, q: Path, c: Content)
    requires WellFormed(d) && Durable(d, q, c)
    ensures Live(d, q).File?
  {
    DurableIffSettled(d, q, c);
    assert Live(d, q) in MayHold(d, q);
  }

  lemma CallKeepsDurable(record: Record, q: Path, c: Content)
    requires Explained(record) && Durable(record.before, q, c) && q !in ScopeOf(record).moved
    ensures Durable(record.after, q, c)
    ensures forall d :: d in record.seen ==> Durable(d, q, c)
  {
    DurableExists(record.before, q, c);
    CallShowsNothingNew(record, q);
  }

  /** What is durable before a call survives a crash at any time during it and all later calls that do not move it. */
  lemma {:induction false} StaysDurable(records: seq<Record>, start: Disk, i: nat, j: nat, q: Path, c: Content)
    requires IsRun(records, start) && i <= j < |records| && Durable(records[i].before, q, c)
    requires forall k :: i <= k <= j ==> q !in ScopeOf(records[k]).moved
    ensures Durable(records[j].after, q, c)
    ensures forall d :: d in records[j].seen ==> Durable(d, q, c)
  {
    assert Explained(records[j]);
    if i < j {
      StaysDurable(records, start, i, j - 1, q, c);
    }
    CallKeepsDurable(records[j], q, c);
  }

  /** No crash leaves a file at `q`. */
  ghost predicate NothingAt(d: Disk, q: Path) {
    forall r :: MayRead(d, q, r) ==> r.None?
  }

  lemma SourceIsGone(record: Record)
    requires Explained(record) && record.outcome.Success? && record.call.Replacement?
    requires Live(record.before, SourceOf(record.call)) != Live(record.before, record.call.destination)
    ensures NothingAt(record.after, SourceOf(record.call))
  {
    var source := SourceOf(record.call);
    assert MayHold(record.after, source) == {Absent};
    forall image | CrashImage(record.after, image) ensures Read(image, source).None? {
      assert At(image, source) in MayHold(record.after, source);
    }
  }

  /**
   A source that was moved stays gone after every later crash, until a call names it or a path
   above it, or creates it as a directory.
   */
  lemma SourceStaysGone(records: seq<Record>, start: Disk, i: nat, j: nat)
    requires IsRun(records, start) && i < j < |records|
    requires records[i].outcome.Success? && records[i].call.Replacement?
    requires Live(records[i].before, SourceOf(records[i].call)) != Live(records[i].before, records[i].call.destination)
    requires forall k :: i < k <= j ==> LeavesAlone(records[k], SourceOf(records[i].call))
    ensures NothingAt(records[j].after, SourceOf(records[i].call))
    ensures forall d :: d in records[j].seen ==> NothingAt(d, SourceOf(records[i].call))
  {
    assert Explained(records[i]);
    SourceIsGone(records[i]);
    assert records[i + 1].before == records[i].after;
    RunShowsNothingNew(records, start, i + 1, j, SourceOf(records[i].call));
  }

  // ------------------------------------------------------- which nil errors are durable

  /** No crash can lose a directory. */
  ghost predicate DirectoriesSettled(d: Disk) {
    forall q :: SettledIfDirectory(d, q)
  }

  ghost predicate SettledIfDirectory(d: Disk, q: Path) {
    Live(d, q).Directory? ==> MayHold(d, q) == {Directory}
  }

  /** The call returned an error after it had created `q`. */
  ghost predicate FailedAfterCreating(record: Record, q: Path) {
    !record.outcome.Success? && Live(record.before, q).Absent? && Live(record.after, q).Directory?
  }

  /** What a call moves was no directory, and is none afterwards. */
  lemma MovedIsNoDirectory(record: Record, q: Path)
    requires Explained(record) && q in ScopeOf(record).moved
    ensures !Live(record.after, q).Directory?
  {
    assert Live(record.after, q).Directory? ==> MayBeDirectory(record.before, Dir(record.call.destination), q);
  }

  /** A call settles the directories it creates, unless it fails, and unsettles none. */
  lemma CallSettles(record: Record, q: Path)
    requires Explained(record) && !FailedAfterCreating(record, q) && SettledIfDirectory(record.before, q)
    ensures SettledIfDirectory(record.after, q)
  {
    var before, after, p := record.before, record.after, record.call.destination;
    if Live(after, q).Directory? {
      assert MayBeDirectory(before, Dir(p), q);
      if Live(before, q).Directory? {
        if q in ScopeOf(record).moved {
          MovedIsNoDirectory(record, q);
        }
        assert Kept(before, after, q);
        assert Live(after, q) in MayHold(after, q);
      }
    }
  }

  lemma {:induction false} DirectoryIsSettled(records: seq<Record>, start: Disk, i: nat, q: Path)
    requires IsRun(records, start) && i < |records| && SettledIfDirectory(start, q)
    requires forall k :: 0 <= k < i ==> !FailedAfterCreating(records[k], q)
    ensures SettledIfDirectory(records[i].before, q)
  {
    if i == 0 {
      assert records[i].before == start;
    } else {
      DirectoryIsSettled(records, start, i - 1, q);
      CallSettles(records[i - 1], q);
      assert SettledIfDirectory(records[i - 1].after, q) && records[i].before == records[i - 1].after;
    }
  }

  /** No earlier call created a directory above the destination and then returned an error. */
  ghost predicate NoFailureAbove(records: seq<Record>, i: nat, p: Path) {
    forall k, n | 0 <= k < i && k < |records| && 0 < n < |p| :: !FailedAfterCreating(records[k], p[..n])
  }

  /**
   When nil means durable: from a start with durable directories, if no earlier call returned
   an error after creating a directory above the destination.
   */
  lemma NilIsDurable(records: seq<Record>, start: Disk, i: nat)
    requires IsRun(records, start) && i < |records| && DirectoriesSettled(start)
    requires records[i].outcome.Success? && NoFailureAbove(records, i, records[i].call.destination)
    ensures var staged := StagedBy(records[i].call, records[i].before);
            staged.Some? && Durable(records[i].after, records[i].call.destination, staged.value)
  {
    var p := records[i].call.destination;
    forall n | 0 < n < |p| ensures SettledIfDirectory(records[i].before, p[..n]) {
      DirectoryIsSettled(records, start, i, p[..n]);
    }
    NilAboveSettled(records[i]);
  }

  lemma NilAboveSettled(record: Record)
    requires Explained(record) && record.outcome.Success?
    requires var p := record.call.destination; forall n :: 0 < n < |p| ==> SettledIfDirectory(record.before, p[..n])
    ensures var staged := StagedBy(record.call, record.before);
            staged.Some? && Durable(record.after, record.call.destination, staged.value)
  {
    var before, after, p := record.before, record.after, record.call.destination;
    forall n | 0 < n < |p| ensures AncestorSettled(before, p, Dir(SourceOf(record.call)), n) {
      assert Live(after, p[..n]).Directory?;
      assert MayBeDirectory(before, Dir(p), p[..n]);
    }
  }

  /** So its contents survive every later crash, until a call replaces or moves them. */
  lemma NilSurvives(records: seq<Record>, start: Disk, i: nat, j: nat)
    requires IsRun(records, start) && i < j < |records| && DirectoriesSettled(start)
    requires records[i].outcome.Success? && NoFailureAbove(records, i, records[i].call.destination)
    requires forall k :: i < k <= j ==> records[i].call.destination !in ScopeOf(records[k]).moved
    ensures var p, c := records[i].call.destination, StagedBy(records[i].call, records[i].before);
            && c.Some? && Durable(records[j].after, p, c.value)
            && forall d :: d in records[j].seen ==> Durable(d, p, c.value)
  {
    NilIsDurable(records, start, i);
    StaysDurable(records, start, i + 1, j, records[i].call.destination, StagedBy(records[i].call, records[i].before).value);
  }

  lemma PlainErrorUnsettles(record: Record, q: Path)
    requires Explained(record) && record.outcome.PlainError? && FailedAfterCreating(record, q)
    ensures Absent in MayHold(record.after, q)
  {
    assert ScopeOf(record).moved == {};
    assert NewIsLosable(record.before, record.after, q);
  }

  lemma NilOverUnsettled(record: Record, n: nat, c: Content)
    requires Explained(record) && record.outcome.Success? && 0 < n < |record.call.destination|
    requires var q := record.call.destination[..n]; Live(record.before, q).Directory? && Absent in MayHold(record.before, q)
    requires record.call.destination[..n - 1] != Dir(SourceOf(record.call))
    ensures !Durable(record.after, record.call.destination, c)
  {
    var p, after := record.call.destination, record.after;
    assert !AncestorSettled(record.before, p, Dir(SourceOf(record.call)), n);
    if Durable(after, p, c) {
      VisibleIsCrashImage(after);
      assert MayRead(after, p, Contents(after, p));
    }
  }

  /**
   The failure matters: a nil error right after a plain one that had created a directory
   above the destination is not durable, unless the source lies next to that directory.
   */
  lemma RetryIsNotDurable(records: seq<Record>, start: Disk, i: nat, n: nat, c: Content)
    requires IsRun(records, start) && i + 1 < |records|
    requires records[i].outcome.PlainError? && records[i + 1].outcome.Success?
    requires 0 < n < |records[i + 1].call.destination|
    requires FailedAfterCreating(records[i], records[i + 1].call.destination[..n])
    requires records[i + 1].call.destination[..n - 1] != Dir(SourceOf(records[i + 1].call))
    ensures !Durable(records[i + 1].after, records[i + 1].call.destination, c)
  {
    PlainErrorUnsettles(records[i], records[i + 1].call.destination[..n]);
    assert records[i + 1].before == records[i].after;
    NilOverUnsettled(records[i + 1], n, c);
  }
}
