/** The lock registry as an object whose fields the threads' statements update in place. */
module LockRegistry {
  import opened Wrappers
  import opened DestinationLocks

  class Registry {
    var mutex: Option<nat>
    var locks: map<Key, nat>
    var objects: seq<Lock>
    var threads: seq<Thread>
    var files: map<Key, Content>
    var acquired: map<Key, seq<nat>>
    var installed: map<Key, seq<nat>>

    ghost function View(): State
      reads this
    {
      State(mutex, locks, objects, threads, files, acquired, installed)
    }

    constructor (jobs: seq<Job>, initial: map<Key, Content>)
      ensures View() == Init(jobs, initial)
    {
      var start := Init(jobs, initial);
      mutex, locks, objects := None, map[], [];
      threads, files := start.threads, initial;
      acquired, installed := map[], map[];
    }

    /** Finds or creates the entry of the thread's destination and returns its lock. */
    method FindOrCreate(key: Key) returns (lock: nat)
      modifies this`locks, this`objects
      ensures lock == if key in old(locks) then old(locks)[key] else |old(objects)|
      ensures locks == if key in old(locks) then old(locks) else old(locks)[key := lock]
      ensures objects == if key in old(locks) then old(objects) else old(objects) + [Lock(None, 0)]
    {
      if key !in locks {
        objects := objects + [Lock(None, 0)];
        locks := locks[key := |objects| - 1];
      }
      lock := locks[key];
    }

    /** The deferred release, from `refs--` on, for a lock that is no longer locked. */
    method DropIfUnused(key: Key, lock: nat)
      requires lock < |objects|
      modifies this`locks
      ensures locks == if objects[lock].refs == 0 then old(locks) - {key} else old(locks)
    {
      if objects[lock].refs == 0 {
        locks := map k | k in locks && k != key :: locks[k];
      }
    }

    method Install(t: nat, key: Key, staged: Content)
      modifies this`files, this`installed
      ensures files == old(files)[key := staged]
      ensures installed == Append(old(installed), key, t)
    {
      files := files[key := staged];
      installed := Append(installed, key, t);
    }

    /** The thread's next statement. */
    method Statement(t: nat, ok: bool)
      requires Enabled(View(), t)
      modifies this
      ensures View() == Next(old(View()), t, ok)
    {
      var th := threads[t];
      match th.pc {
        case Start | Reenter =>
          mutex := Some(t);
        case Lookup =>
          var lock := FindOrCreate(th.key);
          th := th.(lock := lock);
        case Count =>
          objects := objects[th.lock := objects[th.lock].(refs := objects[th.lock].refs + 1)];
        case LeaveRegistry | Exit =>
          mutex := None;
        case Wait =>
          objects := objects[th.lock := objects[th.lock].(holder := Some(t))];
          acquired := Append(acquired, th.key, t);
        case Replace =>
          if ok {
            Install(t, th.key, th.staged);
            th := th.(replaced := true);
          }
        case Unlock =>
          objects := objects[th.lock := objects[th.lock].(holder := None)];
        case Uncount =>
          objects := objects[th.lock := objects[th.lock].(refs := objects[th.lock].refs - 1)];
        case Drop =>
          DropIfUnused(th.key, th.lock);
        case _ =>
      }
      threads := threads[t := th.(pc := NextPc(th.pc, ok))];
    }

    /** Executes a schedule, skipping the threads that cannot step when their turn comes. */
    method Execute(schedule: seq<(nat, bool)>, ghost jobs: seq<Job>, ghost initial: map<Key, Content>)
      returns (ghost run: seq<State>)
      requires View() == Init(jobs, initial)
      modifies this
      ensures IsRun(run, jobs, initial) && run[|run| - 1] == View()
      ensures OneLivePerKey(View()) && StaleIsDead(View())
      ensures Finished(View()) ==> locks == map[]
    {
      run := [View()];
      for i := 0 to |schedule|
        invariant IsRun(run, jobs, initial) && run[|run| - 1] == View()
      {
        var (t, ok) := schedule[i];
        if Enabled(State(mutex, locks, objects, threads, files, acquired, installed), t) {
          ghost var before := View();
          Statement(t, ok);
          assert Step(before, View());
          run := run + [View()];
        }
      }
      RunIsSafe(run, jobs, initial, |run| - 1);
      RefsAreConserved(run, jobs, initial, |run| - 1);
    }
  }
}
