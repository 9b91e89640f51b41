/** Deadlock cycles in the wait-for graph: which call closes one. */
module WaitCycles {
  import opened Queues
  import opened KernelState
  import opened KernelInvariant
  import opened MutexSteps
  import opened Unlocking
  import opened KernelRuns

  // ---- paths ----

  /** Two paths from u: the longer one continues from the end of the shorter. */
  lemma {:induction false} BehindSplit(k: K, u: Tid, v: Tid, t: Tid, j: nat, n: nat)
    requires Wf(k) && Behind(k, u, v, j) && Behind(k, u, t, n) && j <= n
    ensures Behind(k, v, t, n - j)
    decreases j
  {
    if j > 0 {
      BehindSplit(k, Holder(k, u).value, v, t, j - 1, n - 1);
    }
  }

  /** k1 has the edges of k and one more, from c, which had none, to o. */
  ghost predicate OneMore(k: K, k1: K, c: Tid, o: Tid) {
    && Wf(k) && Wf(k1) && |k1.state| == |k.state| && c < |k.state| && o < |k.state| && Holder(k, c).None?
    && (forall w :: 0 <= w < |k.state| ==> Holder(k1, w) == if w == c then Some(o) else Holder(k, w))
  }

  lemma {:induction false} OldPath(k: K, k1: K, c: Tid, o: Tid, u: Tid, t: Tid, n: nat)
    requires OneMore(k, k1, c, o) && Behind(k, u, t, n)
    ensures Behind(k1, u, t, n)
    decreases n
  {
    if n > 0 {
      assert u != c;
      OldPath(k, k1, c, o, Holder(k, u).value, t, n - 1);
    }
  }

  /** A path of k1 is one of k, or meets c. */
  lemma {:induction false} NewPath(k: K, k1: K, c: Tid, o: Tid, u: Tid, t: Tid, n: nat)
    requires OneMore(k, k1, c, o) && Behind(k1, u, t, n)
    ensures Behind(k, u, t, n) || Reaches(k, u, c)
    decreases n
  {
    if u == c {
      assert Behind(k, u, c, 0);
    } else if n > 0 {
      var v := Holder(k1, u).value;
      NewPath(k, k1, c, o, v, t, n - 1);
      if Reaches(k, v, c) {
        var j: nat :| Behind(k, v, c, j);
        assert Behind(k, u, c, j + 1);
      }
    }
  }

  /** A cycle through t that leads to c is a cycle through c. */
  lemma {:induction false} Rotate(k: K, t: Tid, c: Tid, n: nat, j: nat)
    requires Wf(k) && n > 0 && Behind(k, t, t, n) && Behind(k, t, c, j)
    ensures Behind(k, c, c, n)
    decreases j
  {
    if j <= n {
      BehindSplit(k, t, c, t, j, n);
      BehindTrans(k, c, t, c, n - j, j);
    } else {
      BehindSplit(k, t, t, c, n, j);
      Rotate(k, t, c, n, j - n);
    }
  }

  /** The new edge closes a cycle if and only if there was a path back. */
  lemma NewCycle(k: K, k1: K, c: Tid, o: Tid)
    requires OneMore(k, k1, c, o) && Acyclic(k)
    ensures Acyclic(k1) <==> !Reaches(k, o, c)
  {
    if Reaches(k, o, c) {
      var j: nat :| Behind(k, o, c, j);
      OldPath(k, k1, c, o, o, c, j);
      assert Behind(k1, c, c, j + 1);
    } else {
      forall t: nat, n: nat | n > 0 ensures !Behind(k1, t, t, n) {
        if Behind(k1, t, t, n) {
          CycleBack(k, k1, c, o, t, n);
        }
      }
    }
  }

  lemma CycleBack(k: K, k1: K, c: Tid, o: Tid, t: Tid, n: nat)
    requires OneMore(k, k1, c, o) && Acyclic(k) && n > 0 && Behind(k1, t, t, n)
    ensures Reaches(k, o, c)
  {
    NewPath(k, k1, c, o, t, t, n);
    var j: nat :| Behind(k, t, c, j);
    OldPath(k, k1, c, o, t, c, j);
    Rotate(k1, t, c, n, j);
    assert Behind(k1, o, c, n - 1);
    NewPath(k, k1, c, o, o, c, n - 1);
  }

  // ---- locks ----

  /** What a caller could check: the mutex has an owner, and that owner is already
      blocked, any number of hops, behind the caller. */
  ghost predicate Closes(k: K, m: Mid)
    requires Wf(k) && m < |k.owner| && k.current.Some?
  {
    k.owner[m].Some? && k.owner[m] != k.current && Reaches(k, k.owner[m].value, k.current.value)
  }

  /** mutex_lock closes a cycle if and only if the owner is blocked behind the caller. */
  lemma LockAcyclic(k: K, m: Mid)
    requires Inv(k) && RunningNow(k) && m < |k.owner| && Acyclic(k)
    ensures Wf(Lock(k, m).0) && (Acyclic(Lock(k, m).0) <==> !Closes(k, m))
  {
    var c := k.current.value;
    LockInv(k, m);
    match k.owner[m]
    case None =>
      LockHolders(k, m);
      FewerEdges(k, Lock(k, m).0);
    case Some(o) =>
      if o != c {
        LockHolders(k, m);
        NewCycle(k, Lock(k, m).0, c, o);
      }
  }

  lemma LockHolders(k: K, m: Mid)
    requires Inv(k) && RunningNow(k) && m < |k.owner| && k.owner[m] != k.current && Wf(Lock(k, m).0)
    ensures var k1, c := Lock(k, m).0, k.current.value;
            |k1.state| == |k.state| && Holder(k, c).None?
            && forall w :: 0 <= w < |k.state| ==>
                 Holder(k1, w) == if w == c && k.owner[m].Some? then k.owner[m] else Holder(k, w)
  {
    var k1 := Lock(k, m).0;
    forall w | 0 <= w < |k.state|
      ensures MutexWait(k1, w) == if w == k.current.value && k.owner[m].Some? then Some(m) else MutexWait(k, w)
      ensures MutexWait(k, w).Some? ==> Holder(k, w).Some?
    {
    }
  }

  // ---- all other steps ----

  /** Every edge of k1 is an edge of k, or leads to a task that waits for nobody. */
  ghost predicate NoNewPaths(k: K, k1: K)
    requires Wf(k) && Wf(k1)
  {
    |k1.state| == |k.state|
    && forall w {:trigger Holder(k1, w)} :: 0 <= w < |k.state| && Holder(k1, w).Some? ==>
         Holder(k1, w) == Holder(k, w) || Holder(k1, Holder(k1, w).value).None?
  }

  lemma {:induction false} PathBefore(k: K, k1: K, u: Tid, t: Tid, n: nat)
    requires Wf(k) && Wf(k1) && NoNewPaths(k, k1) && Behind(k1, u, t, n) && t < |k.state| && Holder(k1, t).Some?
    ensures Behind(k, u, t, n)
    decreases n
  {
    if n > 0 {
      var v := Holder(k1, u).value;
      PathBefore(k, k1, v, t, n - 1);
      assert Holder(k1, v).Some?;
      assert Holder(k1, u) == Holder(k, u);
    }
  }

  lemma FewerEdges(k: K, k1: K)
    requires Wf(k) && Wf(k1) && NoNewPaths(k, k1) && Acyclic(k)
    ensures Acyclic(k1)
  {
    forall t: nat, n: nat | n > 0 ensures !Behind(k1, t, t, n) {
      if Behind(k1, t, t, n) {
        PathBefore(k, k1, t, t, n);
      }
    }
  }

  /** Owners stay, and no task comes to wait for a mutex. */
  ghost predicate QuietStep(k: K, k1: K)
    requires Wf(k) && Wf(k1)
  {
    |k1.state| == |k.state| && k1.owner == k.owner
    && forall w :: 0 <= w < |k.state| ==> MutexWait(k1, w) == MutexWait(k, w) || MutexWait(k1, w).None?
  }

  lemma QuietPaths(k: K, k1: K)
    requires Wf(k) && Wf(k1) && QuietStep(k, k1)
    ensures NoNewPaths(k, k1)
  {
    forall w {:trigger Holder(k1, w)} | 0 <= w < |k.state| && Holder(k1, w).Some?
      ensures Holder(k1, w) == Holder(k, w)
    {
      assert MutexWait(k1, w) == MutexWait(k, w);
    }
  }

  lemma {:induction false} WakeQuiet(k: K)
    requires Wf(k)
    ensures QuietStep(k, WakeDue(k))
    decreases |Q(k, SleepQ)|
  {
    var s := Q(k, SleepQ);
    if s != [] && s[0] < |k.state| && Due(k.ticks, k.wake[s[0]]) {
      WakeOneQuiet(k, s[0]);
      WakeQuiet(WakeSleeper(k, s[0]));
    }
  }

  lemma WakeOneQuiet(k: K, t: Tid)
    requires Wf(k) && t < |k.state|
    ensures Wf(WakeSleeper(k, t)) && QuietStep(k, WakeSleeper(k, t))
  {
  }

  lemma SelectQuiet(k: K)
    requires Wf(k) && Wf(Select(k))
    ensures QuietStep(k, Select(k))
  {
    var k1 := PutCurrent(k);
    PutCurrentQuiet(k);
    var q := Q(k1, ReadyQ);
    if q != [] && q[0] < |k.state| {
      SelectedQuiet(k1, Select(k), q[0]);
    }
  }

  lemma PutCurrentQuiet(k: K)
    requires Wf(k)
    ensures Wf(PutCurrent(k)) && QuietStep(k, PutCurrent(k))
  {
  }

  lemma SelectedQuiet(k1: K, r: K, t: Tid)
    requires Wf(k1) && Wf(r) && r.owner == k1.owner && r.wait == k1.wait
    requires t < |k1.state| && r.state == k1.state[t := Running]
    ensures QuietStep(k1, r)
  {
  }

  lemma OtherQuiet(k: K, a: Step, f: bool)
    requires Wf(k) && Called(k, a) && Wf(Apply(k, a, f)) && !a.DoLock? && !a.DoUnlock? && !a.DoExit?
    ensures QuietStep(k, Apply(k, a, f))
  {
    match a
    case DoSelect => SelectQuiet(k);
    case DoTick => WakeQuiet(k.(ticks := Add32(k.ticks, 1)));
    case DoPost(_) =>
    case DoCreate(_) =>
    case DoWait(_) =>
    case DoSleep(_) =>
  }

  /** A released mutex goes to a task that waits for nobody. */
  lemma ReleasePaths(k: K, m: Mid, c: Tid, f: bool)
    requires Releasing(k, m, c) && Wf(Unlock(k, m, f).0)
    ensures NoNewPaths(k, Unlock(k, m, f).0)
  {
    var r := Unlock(k, m, f).0;
    if Q(k, MutexQ(m)) == [] {
      ReleaseInv(k, m, c, f);
      forall w | 0 <= w < |k.state| ensures MutexWait(r, w) == MutexWait(k, w) && MutexWait(k, w) != Some(m) {
        if MutexWait(k, w) == Some(m) {
          HeadIsBest(k, w);
        }
      }
    } else {
      HandingHead(k, m, c);
      var n := Q(k, MutexQ(m))[0];
      HandRecalc(k, m, c, n);
      HandedWaits(k, r, m, n);
    }
  }

  lemma HandedWaits(k: K, r: K, m: Mid, n: Tid)
    requires Wf(k) && Wf(r) && n < |k.state| && m < |k.owner|
    requires r.state == k.state[n := Ready] && r.wait == k.wait[n := NoWait] && r.owner == k.owner[m := Some(n)]
    ensures NoNewPaths(k, r)
  {
    assert Holder(r, n).None?;
    forall w {:trigger Holder(r, w)} | 0 <= w < |k.state| && Holder(r, w).Some?
      ensures Holder(r, w) == Holder(k, w) || Holder(r, w) == Some(n)
    {
      assert w != n && MutexWait(r, w) == MutexWait(k, w);
    }
  }

  // ---- whole runs ----

  /** The step is a lock that closes a cycle. */
  ghost predicate Deadlocks(k: K, a: Step)
    requires Wf(k) && Called(k, a)
  {
    a.DoLock? && Closes(k, a.m)
  }

  lemma StepAcyclic(k: K, a: Step, f: bool)
    requires Inv(k) && Acyclic(k) && Enabled(k, a, f)
    ensures Wf(Apply(k, a, f)) && (Acyclic(Apply(k, a, f)) <==> !Deadlocks(k, a))
  {
    StepInv(k, a, f);
    match a
    case DoLock(m) => LockAcyclic(k, m);
    case DoUnlock(m) =>
      if k.owner[m] == k.current {
        ReleasePaths(k, m, k.current.value, f);
      } else {
        QuietPaths(k, Apply(k, a, f));
      }
      FewerEdges(k, Apply(k, a, f));
    case DoExit => ExitAcyclic(k, f);
    case _ =>
      OtherQuiet(k, a, f);
      QuietPaths(k, Apply(k, a, f));
      FewerEdges(k, Apply(k, a, f));
  }

  lemma ExitAcyclic(k: K, f: bool)
    requires Inv(k) && Acyclic(k) && RunningNow(k) && Wf(Exit(k, f))
    ensures Acyclic(Exit(k, f))
  {
    var c := k.current.value;
    var k1 := k.(state := k.state[c := Finished]);
    QuietPaths(k, k1);
    FewerEdges(k, k1);
    if k.owned[c] != [] {
      ExitReleasing(k);
      ReleasePaths(k1, k.owned[c][0], c, f);
      FewerEdges(k1, Exit(k, f));
    }
  }

  ghost predicate AlwaysAcyclic(k: K, steps: seq<Step>, f: bool, k1: K)
    requires Runs(k, steps, f, k1)
    decreases |steps|
  {
    Wf(k) && Acyclic(k) && (steps == [] || AlwaysAcyclic(Apply(k, steps[0], f), steps[1..], f, k1))
  }

  ghost predicate NoneDeadlocks(k: K, steps: seq<Step>, f: bool, k1: K)
    requires Runs(k, steps, f, k1)
    decreases |steps|
  {
    steps == [] || (!Deadlocks(k, steps[0]) && NoneDeadlocks(Apply(k, steps[0], f), steps[1..], f, k1))
  }

  /** Over every run: the wait-for graph is acyclic in every state if and only if no
      lock is taken whose owner is blocked behind the caller. */
  lemma {:induction false} RunAcyclicIff(k: K, steps: seq<Step>, f: bool, k1: K)
    requires Inv(k) && Acyclic(k) && Runs(k, steps, f, k1)
    ensures AlwaysAcyclic(k, steps, f, k1) <==> NoneDeadlocks(k, steps, f, k1)
    decreases |steps|
  {
    if steps != [] {
      var k2 := Apply(k, steps[0], f);
      StepInv(k, steps[0], f);
      StepAcyclic(k, steps[0], f);
      if Acyclic(k2) {
        RunAcyclicIff(k2, steps[1..], f, k1);
      } else {
        assert !AlwaysAcyclic(k2, steps[1..], f, k1);
      }
    }
  }

  /** Along such a run every effective priority is the best base priority of the task
      and of everything transitively blocked behind it. */
  lemma {:induction false} InheritsAlong(k: K, steps: seq<Step>, f: bool, k1: K, t: Tid)
    requires Inv(k) && Acyclic(k) && Runs(k, steps, f, k1) && NoneDeadlocks(k, steps, f, k1) && t < |k1.state|
    ensures Inv(k1)
    ensures forall u: nat, n: nat :: Behind(k1, u, t, n) ==> k1.eff[t] <= k1.base[u]
    ensures exists u: nat, n: nat :: Behind(k1, u, t, n) && k1.base[u] == k1.eff[t]
    decreases |steps|
  {
    if steps == [] {
      InheritanceIsGlobal(k, t);
    } else {
      StepInv(k, steps[0], f);
      StepAcyclic(k, steps[0], f);
      InheritsAlong(Apply(k, steps[0], f), steps[1..], f, k1, t);
    }
  }
}
