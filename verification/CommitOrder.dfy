/**
 Concurrent commits to one destination are serialised in the order in which they obtain
 the destination's mutex.
 */
module CommitOrder {
  import opened Wrappers
  import opened DestinationLocks

  /** The acquirers whose replacement succeeded, in order of acquisition. */
  function Successful(threads: seq<Thread>, order: seq<nat>): seq<nat> {
    if order == [] then []
    else
      var last := order[|order| - 1];
      Successful(threads, order[..|order| - 1]) + if last < |threads| && threads[last].replaced then [last] else []
  }

  /** Threads outside the order do not matter. */
  lemma {:induction false} SuccessfulFrame(threads: seq<Thread>, threads': seq<Thread>, order: seq<nat>)
    requires |threads'| == |threads|
    requires forall i :: 0 <= i < |order| ==>
               order[i] < |threads| ==> threads'[order[i]].replaced == threads[order[i]].replaced
    ensures Successful(threads', order) == Successful(threads, order)
  {
    if order != [] {
      SuccessfulFrame(threads, threads', order[..|order| - 1]);
    }
  }

  /** Who may appear in a destination's acquisition log: its own threads, each once. */
  ghost predicate OrderInv(s: State) {
    && (forall k, i :: 0 <= i < |Log(s.acquired, k)| ==> PastWait(s, k, Log(s.acquired, k)[i]))
    && (forall k, i, j :: 0 <= i < j < |Log(s.acquired, k)| ==> Log(s.acquired, k)[i] != Log(s.acquired, k)[j])
    && (forall t :: 0 <= t < |s.threads| && InCommit(s.threads[t].pc) ==> LastAcquirer(s, t))
    && (forall t :: 0 <= t < |s.threads| && !HasReplaced(s.threads[t].pc) ==> !s.threads[t].replaced)
  }

  ghost predicate PastWait(s: State, k: Key, t: nat) {
    t < |s.threads| && s.threads[t].key == k && AfterWait(s.threads[t].pc)
  }

  predicate AfterWait(pc: Pc) {
    pc.Replace? || HasReplaced(pc)
  }

  predicate HasReplaced(pc: Pc) {
    pc.Sync? || pc.Unlock? || pc.Reenter? || pc.Uncount? || pc.Drop? || pc.Exit? || pc.Done?
  }

  /** The thread in the commit section is the latest to have obtained its destination's mutex. */
  ghost predicate LastAcquirer(s: State, t: nat)
    requires t < |s.threads|
  {
    var order := Log(s.acquired, s.threads[t].key);
    order != [] && order[|order| - 1] == t
  }

  /** The contents a destination should have, from its log of successful replacements. */
  function Expected(s: State, initial: map<Key, Content>, k: Key): Option<Content> {
    var done := Log(s.installed, k);
    if done == [] || done[|done| - 1] >= |s.threads| then FileAt(initial, k)
    else Some(s.threads[done[|done| - 1]].staged)
  }

  ghost predicate ContentInv(s: State, initial: map<Key, Content>, k: Key) {
    && Log(s.installed, k) == Successful(s.threads, Log(s.acquired, k))
    && FileAt(s.files, k) == Expected(s, initial, k)
  }

  /** What a step does to the logs and to the files. */
  ghost predicate LogStep(s: State, t: nat, ok: bool, s': State) {
    && ThreadStep(s, t, ok, s')
    && var th := s.threads[t];
       var installs := th.pc.Replace? && ok;
       && s'.acquired == (if th.pc.Wait? then Append(s.acquired, th.key, t) else s.acquired)
       && s'.installed == (if installs then Append(s.installed, th.key, t) else s.installed)
       && s'.files == (if installs then s.files[th.key := th.staged] else s.files)
  }

  lemma MembersKept(s: State, t: nat, ok: bool, s': State, k: Key, i: nat)
    requires OrderInv(s) && LogStep(s, t, ok, s')
    requires i < |Log(s'.acquired, k)|
    ensures PastWait(s', k, Log(s'.acquired, k)[i])
  {
    if i < |Log(s.acquired, k)| {
      assert PastWait(s, k, Log(s.acquired, k)[i]);
    }
  }

  lemma DistinctKept(s: State, t: nat, ok: bool, s': State, k: Key, i: nat, j: nat)
    requires OrderInv(s) && LogStep(s, t, ok, s')
    requires i < j < |Log(s'.acquired, k)|
    ensures Log(s'.acquired, k)[i] != Log(s'.acquired, k)[j]
  {
    assert i < |Log(s.acquired, k)|;
    assert PastWait(s, k, Log(s.acquired, k)[i]);
  }

  lemma LastKept(s: State, t: nat, ok: bool, s': State, u: nat)
    requires LockInv(s) && OrderInv(s) && LogStep(s, t, ok, s')
    requires u < |s'.threads| && InCommit(s'.threads[u].pc)
    ensures LastAcquirer(s', u)
  {
    if u != t {
      assert LastAcquirer(s, u);
      assert UsesEntry(s, s.threads[u]);
      if s.threads[t].pc.Wait? {
        assert UsesEntry(s, s.threads[t]);
      }
    } else if !s.threads[t].pc.Wait? {
      assert LastAcquirer(s, t);
    }
  }

  lemma OrderKept(s: State, t: nat, ok: bool, s': State)
    requires LockInv(s) && OrderInv(s) && LogStep(s, t, ok, s')
    ensures OrderInv(s')
  {
    forall k, i | 0 <= i < |Log(s'.acquired, k)| ensures PastWait(s', k, Log(s'.acquired, k)[i]) {
      MembersKept(s, t, ok, s', k, i);
    }
    forall k, i, j | 0 <= i < j < |Log(s'.acquired, k)| ensures Log(s'.acquired, k)[i] != Log(s'.acquired, k)[j] {
      DistinctKept(s, t, ok, s', k, i, j);
    }
    forall u | 0 <= u < |s'.threads| && InCommit(s'.threads[u].pc) ensures LastAcquirer(s', u) {
      LastKept(s, t, ok, s', u);
    }
  }

  lemma AcquisitionKept(s: State, t: nat, ok: bool, s': State, order: seq<nat>)
    requires ThreadStep(s, t, ok, s') && s.threads[t].pc.Wait? && !s.threads[t].replaced
    ensures Successful(s'.threads, order + [t]) == Successful(s.threads, order)
  {
    assert (order + [t])[..|order|] == order;
    SuccessfulFrame(s.threads, s'.threads, order);
  }

  /** A replacement is appended to the log, because its thread was the last acquirer. */
  lemma ReplacementKept(s: State, t: nat, s': State)
    requires OrderInv(s) && LogStep(s, t, true, s') && s.threads[t].pc.Replace?
    ensures Successful(s'.threads, Log(s.acquired, s.threads[t].key)) == Successful(s.threads, Log(s.acquired, s.threads[t].key)) + [t]
  {
    var order := Log(s.acquired, s.threads[t].key);
    assert LastAcquirer(s, t);
    var earlier := order[..|order| - 1];
    forall i | 0 <= i < |earlier| ensures earlier[i] != t {
      assert order[i] != order[|order| - 1];
    }
    SuccessfulFrame(s.threads, s'.threads, earlier);
  }

  lemma OthersKept(s: State, t: nat, ok: bool, s': State, k: Key)
    requires OrderInv(s) && LogStep(s, t, ok, s')
    requires s.threads[t].key != k || (!s.threads[t].pc.Wait? && !(s.threads[t].pc.Replace? && ok))
    ensures Successful(s'.threads, Log(s'.acquired, k)) == Successful(s.threads, Log(s.acquired, k))
  {
    var order := Log(s.acquired, k);
    forall i | 0 <= i < |order| ensures s'.threads[order[i]].replaced == s.threads[order[i]].replaced {
      assert PastWait(s, k, order[i]);
    }
    SuccessfulFrame(s.threads, s'.threads, order);
  }

  lemma InstalledKept(s: State, t: nat, ok: bool, s': State, k: Key)
    requires OrderInv(s) && LogStep(s, t, ok, s')
    requires Log(s.installed, k) == Successful(s.threads, Log(s.acquired, k))
    ensures Log(s'.installed, k) == Successful(s'.threads, Log(s'.acquired, k))
  {
    if s.threads[t].key != k || (!s.threads[t].pc.Wait? && !(s.threads[t].pc.Replace? && ok)) {
      OthersKept(s, t, ok, s', k);
    } else if s.threads[t].pc.Wait? {
      AcquisitionKept(s, t, ok, s', Log(s.acquired, k));
    } else {
      ReplacementKept(s, t, s');
    }
  }

  lemma ContentKept(s: State, initial: map<Key, Content>, t: nat, ok: bool, s': State, k: Key)
    requires OrderInv(s) && ContentInv(s, initial, k) && LogStep(s, t, ok, s')
    ensures ContentInv(s', initial, k)
  {
    InstalledKept(s, t, ok, s', k);
    assert FileAt(s'.files, k) == Expected(s', initial, k) by {
      var done, done' := Log(s.installed, k), Log(s'.installed, k);
      assert done' == done || (done' == done + [t] && s'.files[k] == s.threads[t].staged);
      assert forall u :: 0 <= u < |s.threads| ==> s'.threads[u].staged == s.threads[u].staged;
    }
  }

  lemma StepKeepsOrder(s: State, initial: map<Key, Content>, s': State)
    requires LockInv(s) && OrderInv(s) && Step(s, s')
    requires forall k :: ContentInv(s, initial, k)
    ensures OrderInv(s') && forall k :: ContentInv(s', initial, k)
  {
    var t: nat, ok: bool :| Enabled(s, t) && s' == Next(s, t, ok);
    OrderKept(s, t, ok, s');
    forall k ensures ContentInv(s', initial, k) {
      ContentKept(s, initial, t, ok, s', k);
    }
  }

  lemma {:induction false} RunKeepsOrder(run: seq<State>, jobs: seq<Job>, files: map<Key, Content>, i: nat)
    requires IsRun(run, jobs, files) && i < |run|
    ensures OrderInv(run[i]) && forall k :: ContentInv(run[i], files, k)
  {
    if i > 0 {
      RunKeepsOrder(run, jobs, files, i - 1);
      RunKeepsLockInv(run, jobs, files, i - 1);
      assert Step(run[i - 1], run[i]);
      StepKeepsOrder(run[i - 1], files, run[i]);
    }
  }

  lemma {:induction false} RunKeepsJobs(run: seq<State>, jobs: seq<Job>, files: map<Key, Content>, i: nat)
    requires IsRun(run, jobs, files) && i < |run|
    ensures |run[i].threads| == |jobs|
    ensures forall t :: 0 <= t < |jobs| ==> run[i].threads[t].staged == jobs[t].staged && run[i].threads[t].key == jobs[t].key
  {
    if i > 0 {
      RunKeepsJobs(run, jobs, files, i - 1);
      assert Step(run[i - 1], run[i]);
      var t: nat, ok: bool :| Enabled(run[i - 1], t) && run[i] == Next(run[i - 1], t, ok);
    }
  }

  lemma {:induction false} SuccessfulMember(threads: seq<Thread>, order: seq<nat>, t: nat)
    ensures t in Successful(threads, order) <==> t in order && t < |threads| && threads[t].replaced
  {
    if order != [] {
      var n := |order| - 1;
      SuccessfulMember(threads, order[..n], t);
      assert order == order[..n] + [order[n]];
    }
  }

  /**
   In every state of every run a destination holds its initial contents or the complete
   contents staged by one of its own writers.  The successive replacements follow the order
   in which the writers obtained the mutex, leave out exactly the failed ones, and the
   visible contents are the last one's.
   */
  lemma CommitsAreSerialised(run: seq<State>, jobs: seq<Job>, files: map<Key, Content>, i: nat, k: Key)
    requires IsRun(run, jobs, files) && i < |run|
    ensures var order := Log(run[i].acquired, k);
            var done := Log(run[i].installed, k);
            && (forall j :: 0 <= j < |order| ==> order[j] < |jobs| == |run[i].threads| && jobs[order[j]].key == k)
            && (forall j, j' :: 0 <= j < j' < |order| ==> order[j] != order[j'])
            && done == Successful(run[i].threads, order)
            && (forall j :: 0 <= j < |done| ==> done[j] < |jobs| && jobs[done[j]].key == k && done[j] in order)
            && FileAt(run[i].files, k) == if done == [] then FileAt(files, k) else Some(jobs[done[|done| - 1]].staged)
  {
    RunKeepsOrder(run, jobs, files, i);
    RunKeepsJobs(run, jobs, files, i);
    var s := run[i];
    var order := Log(s.acquired, k);
    assert ContentInv(s, files, k);
    forall j | 0 <= j < |order| ensures order[j] < |jobs| && jobs[order[j]].key == k {
      assert PastWait(s, k, order[j]);
    }
    var done := Successful(s.threads, order);
    forall j | 0 <= j < |done| ensures done[j] in order {
      SuccessfulMember(s.threads, order, done[j]);
    }
  }
}
