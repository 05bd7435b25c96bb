/**
 Progress of the lock registry: deadlock freedom, termination of every schedule, and the
 independence of destinations.
 */
module LockProgress {
  import opened DestinationLocks

  /** How many statements a thread still has to execute, at most. */
  function Rank(pc: Pc): nat {
    match pc
    case Start => 12
    case Lookup => 11
    case Count => 10
    case LeaveRegistry => 9
    case Wait => 8
    case Replace => 7
    case Sync => 6
    case Unlock => 5
    case Reenter => 4
    case Uncount => 3
    case Drop => 2
    case Exit => 1
    case Done => 0
  }

  function Remaining(threads: seq<Thread>): nat {
    if threads == [] then 0 else Remaining(threads[..|threads| - 1]) + Rank(threads[|threads| - 1].pc)
  }

  lemma {:induction false} RemainingUpdate(threads: seq<Thread>, t: nat, thread: Thread)
    requires t < |threads|
    ensures Remaining(threads[t := thread]) == Remaining(threads) - Rank(threads[t].pc) + Rank(thread.pc)
  {
    var n := |threads| - 1;
    if t == n {
      assert threads[t := thread][..n] == threads[..n];
    } else {
      assert threads[t := thread][..n] == threads[..n][t := thread];
      RemainingUpdate(threads[..n], t, thread);
    }
  }

  lemma {:induction false} RemainingAtStart(threads: seq<Thread>)
    requires forall t :: 0 <= t < |threads| ==> threads[t].pc.Start?
    ensures Remaining(threads) == 12 * |threads|
  {
    if threads != [] {
      RemainingAtStart(threads[..|threads| - 1]);
    }
  }

  lemma RankFalls(s: State, t: nat, ok: bool)
    requires Enabled(s, t)
    ensures Rank(NextThread(s, s.threads[t], ok).pc) < Rank(s.threads[t].pc)
  {
  }

  /** Whatever thread is scheduled and however its replacement ends, the remaining work falls. */
  lemma StepDecreasesRemaining(s: State, s': State)
    requires Step(s, s')
    ensures |s'.threads| == |s.threads|
    ensures Remaining(s'.threads) < Remaining(s.threads)
  {
    var t: nat, ok: bool :| Enabled(s, t) && s' == Next(s, t, ok);
    RankFalls(s, t, ok);
    RemainingUpdate(s.threads, t, NextThread(s, s.threads[t], ok));
  }

  /** No schedule of n commits is longer than twelve steps each. */
  lemma {:induction false} RunIsBounded(run: seq<State>, jobs: seq<Job>, files: map<Key, Content>, i: nat)
    requires IsRun(run, jobs, files) && i < |run|
    ensures |run[i].threads| == |jobs|
    ensures Remaining(run[i].threads) + i <= 12 * |jobs|
  {
    if i == 0 {
      RemainingAtStart(run[0].threads);
    } else {
      RunIsBounded(run, jobs, files, i - 1);
      assert Step(run[i - 1], run[i]);
      StepDecreasesRemaining(run[i - 1], run[i]);
    }
  }

  ghost predicate CanStep(s: State) {
    exists t: nat :: Enabled(s, t)
  }

  /** While a commit is unfinished, some thread can step. */
  lemma NoDeadlock(s: State)
    requires LockInv(s) && !Finished(s)
    ensures CanStep(s)
  {
    if s.registry.Some? {
      assert Enabled(s, s.registry.value);
    } else {
      var t :| 0 <= t < |s.threads| && !s.threads[t].pc.Done?;
      if !Enabled(s, t) {
        assert UsesEntry(s, s.threads[t]);
        var l := s.threads[t].lock;
        assert HeldByOwner(s, l, s.objects[l].holder.value);
        assert Enabled(s, s.objects[l].holder.value);
      }
    }
  }

  /** A run that cannot be extended has finished every commit and emptied the registry. */
  lemma MaximalRunFinishes(run: seq<State>, jobs: seq<Job>, files: map<Key, Content>)
    requires IsRun(run, jobs, files)
    ensures |run| <= 12 * |jobs| + 1
    ensures !CanStep(run[|run| - 1]) <==> Finished(run[|run| - 1])
    ensures !CanStep(run[|run| - 1]) ==> run[|run| - 1].locks == map[]
  {
    var last := |run| - 1;
    RunIsBounded(run, jobs, files, last);
    RunKeepsLockInv(run, jobs, files, last);
    RefsAreConserved(run, jobs, files, last);
    if !Finished(run[last]) {
      NoDeadlock(run[last]);
    }
  }

  /**
   Why an unfinished thread is disabled.  Either it wants registry.mu and the holder is a
   different thread that can step, so nobody ever waits on lock.mu with registry.mu held;
   or it wants its own destination's mutex, whose holder can step.
   */
  lemma OnlyTwoReasonsToWait(run: seq<State>, jobs: seq<Job>, files: map<Key, Content>, i: nat, t: nat)
    requires IsRun(run, jobs, files) && i < |run|
    requires t < |run[i].threads| && !run[i].threads[t].pc.Done? && !Enabled(run[i], t)
    ensures var s := run[i];
            || (&& (s.threads[t].pc.Start? || s.threads[t].pc.Reenter?)
                && s.registry.Some? && s.registry.value != t && Enabled(s, s.registry.value)
                && !s.threads[s.registry.value].pc.Wait?)
            || (&& s.threads[t].pc.Wait?
                && exists u: nat :: u != t && u < |s.threads| && s.threads[u].key == s.threads[t].key
                                    && InCommit(s.threads[u].pc) && Enabled(s, u))
  {
    RunKeepsLockInv(run, jobs, files, i);
    var s := run[i];
    if s.threads[t].pc.Wait? {
      assert UsesEntry(s, s.threads[t]);
      var l := s.threads[t].lock;
      var u := s.objects[l].holder.value;
      assert HeldByOwner(s, l, u);
      assert UsesEntry(s, s.threads[u]);
    } else if UsesLock(s.threads[t].pc) {
      assert UsesEntry(s, s.threads[t]);
    }
  }

  /**
   Destinations do not disturb each other: a step of one destination's thread disables
   another destination's thread only by taking registry.mu.
   */
  lemma OtherKeysStayEnabled(s: State, t: nat, u: nat, ok: bool)
    requires LockInv(s)
    requires Enabled(s, t) && Enabled(s, u) && s.threads[t].key != s.threads[u].key
    requires !s.threads[u].pc.Start? && !s.threads[u].pc.Reenter?
    ensures Enabled(Next(s, u, ok), t)
  {
    if s.threads[t].pc.Wait? {
      assert UsesEntry(s, s.threads[t]);
    }
    if UsesLock(s.threads[u].pc) {
      assert UsesEntry(s, s.threads[u]);
    }
  }
}
