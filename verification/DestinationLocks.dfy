/**
 The registry of per-destination mutexes behind `lockDestination`, and the commit
 section it protects, as a step relation over any number of threads.

 Every thread runs one commit.  A goroutine that commits several files is several
 threads here whose steps happen not to overlap, so nothing is lost.
 */
module DestinationLocks {
  import opened Wrappers

  type Key = string
  type Content = string

  /** The next statement a thread executes. */
  datatype Pc =
    | Start          // registry.mu.Lock()
    | Lookup         // find or create the entry, keep its lock in a local variable
    | Count          // lock.refs++
    | LeaveRegistry  // registry.mu.Unlock()
    | Wait           // lock.mu.Lock()
    | Replace        // the atomic replacement, which may fail
    | Sync           // the directory syncs
    | Unlock         // lock.mu.Unlock()
    | Reenter        // registry.mu.Lock()
    | Uncount        // lock.refs--
    | Drop           // delete the entry if refs is zero
    | Exit           // registry.mu.Unlock()
    | Done

  /** `lock` is the local variable of the closure: an index into the heap of locks. */
  datatype Thread = Thread(pc: Pc, key: Key, staged: Content, lock: nat, replaced: bool)

  datatype Lock = Lock(holder: Option<nat>, refs: int)

  /**
   `objects` is the heap: a lock object outlives its registry entry.  `acquired` and
   `installed` record, per destination, who obtained the destination's mutex and who
   replaced the file, oldest first.
   */
  datatype State = State(
    registry: Option<nat>,
    locks: map<Key, nat>,
    objects: seq<Lock>,
    threads: seq<Thread>,
    files: map<Key, Content>,
    acquired: map<Key, seq<nat>>,
    installed: map<Key, seq<nat>>)

  datatype Job = Job(key: Key, staged: Content)

  function Log(logs: map<Key, seq<nat>>, key: Key): seq<nat> {
    if key in logs then logs[key] else []
  }

  function FileAt(files: map<Key, Content>, key: Key): Option<Content> {
    if key in files then Some(files[key]) else None
  }

  function Init(jobs: seq<Job>, files: map<Key, Content>): State {
    State(None, map[], [], seq(|jobs|, i requires 0 <= i < |jobs| => Thread(Start, jobs[i].key, jobs[i].staged, 0, false)),
          files, map[], map[])
  }

  /** The statements executed with registry.mu held. */
  predicate InRegistry(pc: Pc) { pc.Lookup? || pc.Count? || pc.LeaveRegistry? || pc.Uncount? || pc.Drop? || pc.Exit? }

  /** The statements executed with lock.mu held. */
  predicate InCommit(pc: Pc) { pc.Replace? || pc.Sync? || pc.Unlock? }

  /** The statements between refs++ and refs--. */
  predicate Counted(pc: Pc) { pc.LeaveRegistry? || pc.Wait? || pc.Replace? || pc.Sync? || pc.Unlock? || pc.Reenter? || pc.Uncount? }

  /** The statements that may still follow the local lock variable. */
  predicate UsesLock(pc: Pc) { Counted(pc) || pc.Count? || pc.Drop? }

  predicate Enabled(s: State, t: nat) {
    && t < |s.threads|
    && (UsesLock(s.threads[t].pc) ==> s.threads[t].lock < |s.objects|)
    && match s.threads[t].pc
       case Start | Reenter => s.registry.None?
       case Wait => s.objects[s.threads[t].lock].holder.None?
       case Done => false
       case _ => true
  }

  function NextPc(pc: Pc, ok: bool): Pc {
    match pc
    case Start => Lookup
    case Lookup => Count
    case Count => LeaveRegistry
    case LeaveRegistry => Wait
    case Wait => Replace
    case Replace => if ok then Sync else Unlock
    case Sync => Unlock
    case Unlock => Reenter
    case Reenter => Uncount
    case Uncount => Drop
    case Drop => Exit
    case Exit => Done
    case Done => Done
  }

  /** The thread's program counter and local variables after its statement. */
  function NextThread(s: State, th: Thread, ok: bool): Thread {
    Thread(NextPc(th.pc, ok), th.key, th.staged,
           if !th.pc.Lookup? then th.lock else if th.key in s.locks then s.locks[th.key] else |s.objects|,
           th.replaced || (th.pc.Replace? && ok))
  }

  /** registry.mu after a statement of thread `t`. */
  function NextMutex(s: State, t: nat, pc: Pc): Option<nat> {
    match pc
    case Start | Reenter => Some(t)
    case LeaveRegistry | Exit => None
    case _ => s.registry
  }

  /** registry.locks after a statement of thread `th`. */
  function NextLocks(s: State, th: Thread): map<Key, nat> {
    match th.pc
    case Lookup => if th.key in s.locks then s.locks else s.locks[th.key := |s.objects|]
    case Drop => if th.lock < |s.objects| && s.objects[th.lock].refs == 0 then s.locks - {th.key} else s.locks
    case _ => s.locks
  }

  /** The heap of lock objects after a statement of thread `t`. */
  function NextObjects(s: State, t: nat, th: Thread): seq<Lock> {
    if th.pc.Lookup? then
      if th.key in s.locks then s.objects else s.objects + [Lock(None, 0)]
    else if th.lock < |s.objects| then
      s.objects[th.lock := NextLock(s.objects[th.lock], t, th.pc)]
    else
      s.objects
  }

  function NextLock(lock: Lock, t: nat, pc: Pc): Lock {
    match pc
    case Count => lock.(refs := lock.refs + 1)
    case Uncount => lock.(refs := lock.refs - 1)
    case Wait => lock.(holder := Some(t))
    case Unlock => lock.(holder := None)
    case _ => lock
  }

  function Append(logs: map<Key, seq<nat>>, key: Key, t: nat): map<Key, seq<nat>> {
    logs[key := Log(logs, key) + [t]]
  }

  /** One step of thread `t`; `ok` decides whether an atomic replacement succeeds. */
  function Next(s: State, t: nat, ok: bool): State
    requires Enabled(s, t)
  {
    var th := s.threads[t];
    var installs := th.pc.Replace? && ok;
    State(NextMutex(s, t, th.pc),
          NextLocks(s, th),
          NextObjects(s, t, th),
          s.threads[t := NextThread(s, th, ok)],
          if installs then s.files[th.key := th.staged] else s.files,
          if th.pc.Wait? then Append(s.acquired, th.key, t) else s.acquired,
          if installs then Append(s.installed, th.key, t) else s.installed)
  }

  ghost predicate Step(s: State, s': State) {
    exists t: nat, ok: bool :: Enabled(s, t) && s' == Next(s, t, ok)
  }

  ghost predicate IsRun(run: seq<State>, jobs: seq<Job>, files: map<Key, Content>) {
    && |run| > 0
    && run[0] == Init(jobs, files)
    && forall i :: 0 < i < |run| ==> Step(run[i - 1], run[i])
  }

  predicate Finished(s: State) {
    forall t :: 0 <= t < |s.threads| ==> s.threads[t].pc.Done?
  }

  // ------------------------------------------------------------------ counting

  function CountOf(threads: seq<Thread>, key: Key): nat {
    if threads == [] then 0
    else CountOf(threads[..|threads| - 1], key) + Unit(threads[|threads| - 1], key)
  }

  function Unit(thread: Thread, key: Key): nat {
    if Counted(thread.pc) && thread.key == key then 1 else 0
  }

  lemma {:induction false} CountUpdate(threads: seq<Thread>, t: nat, thread: Thread, key: Key)
    requires t < |threads|
    ensures CountOf(threads[t := thread], key) == CountOf(threads, key) - Unit(threads[t], key) + Unit(thread, key)
  {
    var n := |threads| - 1;
    var updated := threads[t := thread];
    if t == n {
      assert updated[..n] == threads[..n];
    } else {
      assert updated[..n] == threads[..n][t := thread];
      CountUpdate(threads[..n], t, thread, key);
    }
  }

  /** The count is positive exactly when some thread is counted for the key. */
  lemma {:induction false} CountPositive(threads: seq<Thread>, key: Key)
    ensures CountOf(threads, key) > 0 <==>
            exists t :: 0 <= t < |threads| && Counted(threads[t].pc) && threads[t].key == key
  {
    if threads != [] {
      var n := |threads| - 1;
      CountPositive(threads[..n], key);
      if t :| 0 <= t < |threads| && Counted(threads[t].pc) && threads[t].key == key {
        assert t < n ==> threads[..n][t] == threads[t];
      }
      if t :| 0 <= t < n && Counted(threads[..n][t].pc) && threads[..n][t].key == key {
        assert threads[t] == threads[..n][t];
      }
    }
  }

  // ---------------------------------------------------------------- invariants

  /** registry.mu is held by exactly the thread whose next statement is inside it. */
  ghost predicate RegistryInv(s: State) {
    && (s.registry.Some? ==> s.registry.value < |s.threads|)
    && forall t :: 0 <= t < |s.threads| ==> (InRegistry(s.threads[t].pc) <==> s.registry == Some(t))
  }

  /** A lock's mutex is held by exactly the thread in the commit section under that lock. */
  ghost predicate HolderInv(s: State) {
    && (forall l :: 0 <= l < |s.objects| && s.objects[l].holder.Some? ==> HeldByOwner(s, l, s.objects[l].holder.value))
    && (forall t :: 0 <= t < |s.threads| && InCommit(s.threads[t].pc) ==>
          s.threads[t].lock < |s.objects| && s.objects[s.threads[t].lock].holder == Some(t))
  }

  ghost predicate HeldByOwner(s: State, l: nat, t: nat) {
    t < |s.threads| && s.threads[t].lock == l && InCommit(s.threads[t].pc)
  }

  /** Every local lock variable still in use is the registry's current entry for its key. */
  ghost predicate EntryInv(s: State) {
    && (forall k :: k in s.locks ==> s.locks[k] < |s.objects|)
    && (forall k, k' :: k in s.locks && k' in s.locks && s.locks[k] == s.locks[k'] ==> k == k')
    && (forall t :: 0 <= t < |s.threads| && UsesLock(s.threads[t].pc) ==> UsesEntry(s, s.threads[t]))
  }

  ghost predicate UsesEntry(s: State, thread: Thread) {
    thread.key in s.locks && s.locks[thread.key] == thread.lock
  }

  /** A key whose entry is about to be counted, or about to be dropped. */
  ghost predicate InTransit(s: State, k: Key) {
    && s.registry.Some? && s.registry.value < |s.threads|
    && (s.threads[s.registry.value].pc.Count? || s.threads[s.registry.value].pc.Drop?)
    && s.threads[s.registry.value].key == k
  }

  ghost predicate RefsInv(s: State)
  {
    && (forall k :: k in s.locks && s.locks[k] < |s.objects| ==> s.objects[s.locks[k]].refs == CountOf(s.threads, k))
    && (forall k :: k in s.locks <==> CountOf(s.threads, k) > 0 || InTransit(s, k))
  }

  ghost predicate LockInv(s: State) {
    RegistryInv(s) && HolderInv(s) && EntryInv(s) && RefsInv(s)
  }

  lemma InitLockInv(jobs: seq<Job>, files: map<Key, Content>)
    ensures LockInv(Init(jobs, files))
  {
    var s := Init(jobs, files);
    forall k ensures CountOf(s.threads, k) == 0 {
      CountPositive(s.threads, k);
    }
  }

  // ------------------------------------------------ every step keeps the invariant

  /** `s'` has the threads that a step of `t` leaves behind. */
  ghost predicate ThreadStep(s: State, t: nat, ok: bool, s': State) {
    Enabled(s, t) && s'.threads == s.threads[t := NextThread(s, s.threads[t], ok)]
  }

  ghost predicate LockStep(s: State, t: nat, ok: bool, s': State) {
    && ThreadStep(s, t, ok, s')
    && s'.locks == NextLocks(s, s.threads[t])
    && s'.objects == NextObjects(s, t, s.threads[t])
  }

  lemma RegistryKept(s: State, t: nat, ok: bool, s': State)
    requires RegistryInv(s) && ThreadStep(s, t, ok, s') && s'.registry == NextMutex(s, t, s.threads[t].pc)
    ensures RegistryInv(s')
  {
  }

  lemma HolderKept(s: State, t: nat, ok: bool, s': State)
    requires HolderInv(s) && LockStep(s, t, ok, s')
    ensures HolderInv(s')
  {
    forall l | 0 <= l < |s'.objects| && s'.objects[l].holder.Some?
      ensures HeldByOwner(s', l, s'.objects[l].holder.value)
    {
      if l < |s.objects| && s.objects[l].holder.Some? {
        assert HeldByOwner(s, l, s.objects[l].holder.value);
      }
    }
  }

  lemma EntryKept(s: State, t: nat, ok: bool, s': State)
    requires LockInv(s) && LockStep(s, t, ok, s')
    ensures EntryInv(s')
  {
    var key := s.threads[t].key;
    forall u | 0 <= u < |s'.threads| && UsesLock(s'.threads[u].pc)
      ensures UsesEntry(s', s'.threads[u])
    {
      if u != t {
        assert UsesEntry(s, s.threads[u]);
        if s.threads[t].pc.Drop? && s.threads[u].key == key {
          CountPositive(s.threads, key);
          assert UsesEntry(s, s.threads[t]);
        }
      }
    }
  }

  lemma CountKept(s: State, t: nat, ok: bool, s': State, k: Key)
    requires ThreadStep(s, t, ok, s')
    ensures CountOf(s'.threads, k) == CountOf(s.threads, k) + Delta(s.threads[t], k)
  {
    CountUpdate(s.threads, t, s'.threads[t], k);
  }

  function Delta(thread: Thread, k: Key): int {
    if thread.key != k then 0 else if thread.pc.Count? then 1 else if thread.pc.Uncount? then -1 else 0
  }

  lemma RefsCounted(s: State, t: nat, ok: bool, s': State, k: Key)
    requires LockInv(s) && LockStep(s, t, ok, s') && EntryInv(s')
    requires k in s'.locks
    ensures s'.objects[s'.locks[k]].refs == CountOf(s'.threads, k)
  {
    CountKept(s, t, ok, s', k);
    if UsesLock(s.threads[t].pc) {
      assert UsesEntry(s, s.threads[t]);
    }
  }

  lemma EntryExists(s: State, t: nat, ok: bool, s': State, k: Key)
    requires LockInv(s) && LockStep(s, t, ok, s') && s'.registry == NextMutex(s, t, s.threads[t].pc)
    ensures k in s'.locks <==> CountOf(s'.threads, k) > 0 || InTransit(s', k)
  {
    CountKept(s, t, ok, s', k);
    if UsesLock(s.threads[t].pc) {
      assert UsesEntry(s, s.threads[t]);
    }
  }

  lemma LockInvStep(s: State, t: nat, ok: bool)
    requires LockInv(s) && Enabled(s, t)
    ensures LockInv(Next(s, t, ok))
  {
    var s' := Next(s, t, ok);
    RegistryKept(s, t, ok, s');
    HolderKept(s, t, ok, s');
    EntryKept(s, t, ok, s');
    forall k | k in s'.locks ensures s'.objects[s'.locks[k]].refs == CountOf(s'.threads, k) {
      RefsCounted(s, t, ok, s', k);
    }
    forall k ensures k in s'.locks <==> CountOf(s'.threads, k) > 0 || InTransit(s', k) {
      EntryExists(s, t, ok, s', k);
    }
  }

  lemma {:induction false} RunKeepsLockInv(run: seq<State>, jobs: seq<Job>, files: map<Key, Content>, i: nat)
    requires IsRun(run, jobs, files) && i < |run|
    ensures LockInv(run[i])
  {
    if i == 0 {
      InitLockInv(jobs, files);
    } else {
      RunKeepsLockInv(run, jobs, files, i - 1);
      assert Step(run[i - 1], run[i]);
      var t: nat, ok: bool :| Enabled(run[i - 1], t) && run[i] == Next(run[i - 1], t, ok);
      LockInvStep(run[i - 1], t, ok);
    }
  }

  // ------------------------------------------------------------------ theorems

  /** All counted threads of a destination share the registry's current lock, one of them at most commits. */
  ghost predicate OneLivePerKey(s: State) {
    && (forall t :: 0 <= t < |s.threads| && Counted(s.threads[t].pc) ==> UsesEntry(s, s.threads[t]))
    && (forall t, u | 0 <= t < |s.threads| && 0 <= u < |s.threads| && s.threads[t].key == s.threads[u].key ::
          InCommit(s.threads[t].pc) && InCommit(s.threads[u].pc) ==> t == u)
  }

  /** A lock object that left the registry is free, and no thread will lock or count it again. */
  ghost predicate StaleIsDead(s: State) {
    forall l :: 0 <= l < |s.objects| && l !in s.locks.Values ==>
      && s.objects[l].holder.None?
      && forall t :: 0 <= t < |s.threads| && UsesLock(s.threads[t].pc) ==> s.threads[t].lock != l
  }

  /** Locks of different destinations are different objects. */
  ghost predicate UnrelatedKeysUnrelatedLocks(s: State) {
    forall t, u | 0 <= t < |s.threads| && 0 <= u < |s.threads| && s.threads[t].key != s.threads[u].key ::
      Counted(s.threads[t].pc) && Counted(s.threads[u].pc) ==> s.threads[t].lock != s.threads[u].lock
  }

  lemma RunIsSafe(run: seq<State>, jobs: seq<Job>, files: map<Key, Content>, i: nat)
    requires IsRun(run, jobs, files) && i < |run|
    ensures OneLivePerKey(run[i])
    ensures StaleIsDead(run[i])
    ensures UnrelatedKeysUnrelatedLocks(run[i])
  {
    RunKeepsLockInv(run, jobs, files, i);
    var s := run[i];
    forall t | 0 <= t < |s.threads| && UsesLock(s.threads[t].pc) ensures UsesEntry(s, s.threads[t]) { }
    forall l | 0 <= l < |s.objects| && s.objects[l].holder.Some? ensures l in s.locks.Values {
      assert HeldByOwner(s, l, s.objects[l].holder.value);
      assert UsesEntry(s, s.threads[s.objects[l].holder.value]);
    }
  }

  /** The threads of a destination between refs++ and refs--. */
  ghost function CountedThreads(s: State, k: Key): set<nat> {
    set t: nat | t < |s.threads| && Counted(s.threads[t].pc) && s.threads[t].key == k
  }

  lemma {:induction false} CountIsCardinality(s: State, n: nat, k: Key)
    requires n <= |s.threads|
    ensures CountOf(s.threads[..n], k) == |set t: nat | t < n && Counted(s.threads[t].pc) && s.threads[t].key == k|
  {
    if n > 0 {
      CountIsCardinality(s, n - 1, k);
      assert s.threads[..n][..n - 1] == s.threads[..n - 1];
      var before := set t: nat | t < n - 1 && Counted(s.threads[t].pc) && s.threads[t].key == k;
      var after := set t: nat | t < n && Counted(s.threads[t].pc) && s.threads[t].key == k;
      assert after == if Counted(s.threads[n - 1].pc) && s.threads[n - 1].key == k then before + {n - 1} else before;
    }
  }

  /**
   Reference conservation: an entry's refs is the number of threads between refs++ and
   refs--.  With registry.mu free, a destination has an entry exactly when that number is
   positive, so a finished system has an empty registry.
   */
  lemma RefsAreConserved(run: seq<State>, jobs: seq<Job>, files: map<Key, Content>, i: nat)
    requires IsRun(run, jobs, files) && i < |run|
    ensures forall k :: k in run[i].locks ==>
              run[i].locks[k] < |run[i].objects| && run[i].objects[run[i].locks[k]].refs == |CountedThreads(run[i], k)|
    ensures run[i].registry.None? ==> forall k :: k in run[i].locks <==> CountedThreads(run[i], k) != {}
    ensures Finished(run[i]) ==> run[i].locks == map[] && run[i].registry.None?
  {
    RunKeepsLockInv(run, jobs, files, i);
    var s := run[i];
    forall k ensures CountOf(s.threads, k) == |CountedThreads(s, k)| {
      CountIsCardinality(s, |s.threads|, k);
      assert s.threads[..|s.threads|] == s.threads;
      assert CountedThreads(s, k) == set t: nat | t < |s.threads| && Counted(s.threads[t].pc) && s.threads[t].key == k;
    }
    if Finished(s) {
      forall k ensures k !in s.locks {
        assert CountedThreads(s, k) == {};
      }
    }
  }
}
