/** What each kernel entry does for its caller: the result code says exactly what
    happened, and nobody else is touched. */
module KernelOutcomes {
  import opened Queues
  import opened KernelState
  import opened KernelInvariant
  import opened KernelSteps
  import opened MutexSteps
  import opened Unlocking
  import opened KernelRuns
  import opened KernelTiming
  import opened MutexFairness

  /** Every task but t is where it was. */
  ghost predicate OthersKeep(k: K, k1: K, t: Tid) {
    && |k1.state| == |k.state| && SameKeys(k.state, k1.state, t) && SameKeys(k.wait, k1.wait, t)
    && SameKeys(k.wake, k1.wake, t)
  }

  lemma InList(k: K, t: Tid, q: QueueRef)
    requires Struct(k) && t < |k.state| && Place(k, t) == Some(q)
    ensures t in Q(k, q)
  {
    assert Homes(k)[t] == Some(q);
    assert t in At(k.queue, q);
  }

  lemma MembersPlaced(k: K)
    requires Struct(k)
    ensures forall q, u: nat {:trigger u in Q(k, q)} :: u in Q(k, q) ==> u < |k.state| && Place(k, u) == Some(q)
  {
    forall q, u: nat {:trigger u in Q(k, q)} | u in Q(k, q) ensures u < |k.state| && Place(k, u) == Some(q) {
      assert u in At(k.queue, q);
      assert Homes(k)[u] == Some(q);
    }
  }

  lemma InNoList(k: K, t: Tid)
    requires Struct(k) && t < |k.state| && Place(k, t).None?
    ensures forall q :: t !in Q(k, q)
  {
    MembersPlaced(k);
  }

  /** After initialisation every slot is unused, every list empty, every mutex free,
      every semaphore open with its count, and no task is current. */
  lemma BootOutcome(tasks: nat, mutexes: nat, sems: seq<nat>)
    ensures var k := Boot(tasks, mutexes, sems);
            && |k.state| == tasks && |k.owner| == mutexes && k.count == sems && |k.open| == |sems|
            && (forall t :: 0 <= t < tasks ==> k.state[t] == Unused && k.owned[t] == [])
            && (forall q :: Q(k, q) == []) && (forall m :: 0 <= m < mutexes ==> k.owner[m].None?)
            && (forall s :: 0 <= s < |sems| ==> k.open[s]) && k.current.None? && k.ticks == 0
  {
  }

  // ---- mutexes ----

  /** mutex_lock: the caller is told to yield if and only if it is now blocked, and
      SEM_OK if and only if the mutex was free and now is its own. */
  lemma LockOutcome(k: K, m: Mid)
    requires Inv(k) && RunningNow(k) && m < |k.owner|
    ensures var (r, res), c := Lock(k, m), k.current.value;
            && |r.state| == |k.state| && |r.owner| == |k.owner| && |r.owned| == |k.owned| && r.current == k.current
            && (res == SemOkYield <==> r.state[c] == Blocked)
            && (res == SemOkYield <==> k.owner[m].Some? && k.owner[m] != k.current)
            && (res == SemOk <==> k.owner[m].None?)
            && (res == MutexDeadlock <==> k.owner[m] == k.current)
            && (res == SemOk ==> r.owner[m] == Some(c) && r.owned == k.owned[c := [m] + k.owned[c]]
                                 && r.state == k.state && r.queue == k.queue
                                 && r.eff == k.eff
                                 && (forall x :: 0 <= x < |k.owner| && x != m ==> r.owner[x] == k.owner[x]))
            && (res == MutexDeadlock ==> r == k)
            && (res == SemOkYield ==> c in Q(r, MutexQ(m)) && r.owner == k.owner && r.owned == k.owned
                                      && OthersKeep(k, r, c))
  {
    var c, r := k.current.value, Lock(k, m).0;
    LockInv(k, m);
    if k.owner[m].Some? && k.owner[m] != k.current {
      InList(r, c, MutexQ(m));
    }
  }

  /** mutex_unlock: refused if and only if the caller is not the owner, changing
      nothing; otherwise the mutex is free or its next owner is ready. */
  lemma UnlockOutcome(k: K, m: Mid, f: bool)
    requires Inv(k) && RunningNow(k) && m < |k.owner|
    requires f || k.owner[m] != k.current || HandoverOk(k, m, k.current.value)
    ensures var (r, res), w := Unlock(k, m, f), Q(k, MutexQ(m));
            && (res == MutexNotOwner <==> k.owner[m] != k.current) && (res == MutexNotOwner ==> r == k)
            && |r.state| == |k.state| && |r.owner| == |k.owner| && r.current == k.current
            && (forall x :: 0 <= x < |k.owner| && x != m ==> r.owner[x] == k.owner[x])
            && (k.owner[m] == k.current && w == [] ==> res == SemOk && r.owner[m].None? && r.state == k.state)
            && (k.owner[m] == k.current && w != [] ==>
                  && w[0] < |k.state| && r.owner[m] == Some(w[0]) && r.state == k.state[w[0] := Ready]
                  && r.wait == k.wait[w[0] := NoWait]
                  && w[0] in Q(r, ReadyQ) && w[0] !in Q(r, MutexQ(m)))
  {
    var c, w := k.current.value, Q(k, MutexQ(m));
    if k.owner[m] == k.current {
      if w == [] {
        ReleaseInv(k, m, c, f);
      } else {
        HandingHead(k, m, c);
        HandedOutcome(k, m, c, w[0], f);
      }
    }
  }

  lemma HandedOutcome(k: K, m: Mid, c: Tid, n: Tid, f: bool)
    requires Handing(k, m, c, n) && (f || HandoverOk(k, m, c))
    ensures var r := Unlock(k, m, f).0;
            && r.owner == k.owner[m := Some(n)] && r.state == k.state[n := Ready] && r.current == k.current
            && r.wait == k.wait[n := NoWait]
            && n in Q(r, ReadyQ) && n !in Q(r, MutexQ(m))
  {
    HandRecalc(k, m, c, n);
    HandInv(k, m, c, n);
    if !f {
      HandSame(k, m, c, n);
    }
    InList(Unlock(k, m, true).0, n, ReadyQ);
    MembersPlaced(Unlock(k, m, true).0);
  }

  /** When no ready task outranked the caller before, the unlock asks it to yield if
      and only if one does now. */
  lemma UnlockYieldsIff(k: K, m: Mid, f: bool)
    requires Inv(k) && RunningNow(k) && m < |k.owner| && NoneOutranks(k, k.current.value)
    requires f || k.owner[m] != k.current || HandoverOk(k, m, k.current.value)
    ensures var (r, res) := Unlock(k, m, f);
            Wf(r) && |r.state| == |k.state| && (res == SemOkYield <==> !NoneOutranks(r, k.current.value))
  {
    var c, r, res := k.current.value, Unlock(k, m, f).0, Unlock(k, m, f).1;
    UnlockInv(k, m);
    UnlockYields(k, m, f);
    UnlockOutcome(k, m, f);
    if res == SemOkYield {
      var n := Q(k, MutexQ(m))[0];
      assert r.state[n] == Ready && r.eff[n] < r.eff[c];
    }
  }

  // ---- semaphores ----

  /** semaphore_wait: SEM_OK if and only if a unit was taken; told to yield if and
      only if blocked, at the end of the queue. */
  lemma WaitOutcome(k: K, s: Sid)
    requires Inv(k) && RunningNow(k) && s < |k.count|
    ensures var (r, res), c := SemWait(k, s), k.current.value;
            && |r.state| == |k.state| && |r.count| == |k.count| && r.current == k.current
            && (res == SemClosed <==> !k.open[s]) && (res == SemClosed ==> r == k)
            && (res == SemOk <==> k.open[s] && k.count[s] > 0)
            && (res == SemOk ==> r == k.(count := k.count[s := r.count[s]]) && r.count[s] + 1 == k.count[s])
            && (res == SemOkYield <==> r.state[c] == Blocked)
            && (res == SemOkYield ==> Q(r, SemQ(s)) == Q(k, SemQ(s)) + [c] && r.count == k.count && OthersKeep(k, r, c))
  {
    if k.open[s] && k.count[s] == 0 {
      InsertFifo(Q(k, SemQ(s)), k.current.value);
    }
  }

  /** semaphore_post: refused if and only if closed; otherwise the first waiter, and
      nobody else, becomes ready, or the count grows by one. */
  lemma PostOutcome(k: K, s: Sid)
    requires Inv(k) && s < |k.count|
    ensures var (r, res), w := SemPost(k, s), Q(k, SemQ(s));
            && (res == SemClosed <==> !k.open[s]) && (res == SemOkYield <==> k.open[s]) && (res == SemClosed ==> r == k)
            && (k.open[s] && w == [] ==> r == k.(count := k.count[s := Add32(k.count[s], 1)]))
            && (k.open[s] && w != [] ==>
                  && w[0] < |k.state| && r.count == k.count && r.state == k.state[w[0] := Ready]
                  && r.wait == k.wait[w[0] := NoWait] && w[0] in Q(r, ReadyQ) && Q(r, SemQ(s)) == w[1..])
  {
    if k.open[s] && Q(k, SemQ(s)) != [] {
      HeadPlace(k, SemQ(s));
      SemPostInv(k, s);
      InList(SemPost(k, s).0, Q(k, SemQ(s))[0], ReadyQ);
    }
  }

  // ---- sleeping, creation ----

  /** sleep_for_ticks: nothing for zero ticks; otherwise the caller sleeps. */
  lemma SleepOutcome(k: K, n: nat)
    requires Inv(k) && RunningNow(k)
    ensures var r, c := SleepFor(k, n), k.current.value;
            && (n == 0 ==> r == k)
            && (n > 0 ==> OthersKeep(k, r, c) && r.state[c] == Sleeping && r.wake[c] == Add32(k.ticks, n)
                          && c in Q(r, SleepQ) && r.eff == k.eff && r.owner == k.owner)
  {
    SleepForInv(k, n);
    if n > 0 {
      InList(SleepFor(k, n), k.current.value, SleepQ);
    }
  }

  /** create_task: fails if and only if no slot is unused or finished; otherwise the
      first such slot is a fresh ready task of the given priority, whatever it was
      before, and every other task is as it was. */
  lemma CreateOutcome(k: K, p: nat)
    requires Inv(k)
    ensures var r, slot := Create(k, p), FreeSlot(k.state, 0);
            && (slot.None? <==> forall t :: 0 <= t < |k.state| ==> k.state[t] !in {Unused, Finished})
            && (slot.None? ==> r == k)
            && (slot.Some? ==> var t := slot.value;
                  && t < |k.state| && k.state[t] in {Unused, Finished} && OthersKeep(k, r, t)
                  && SameKeys(k.base, r.base, t) && SameKeys(k.eff, r.eff, t) && SameKeys(k.owned, r.owned, t)
                  && r.state[t] == Ready && r.base[t] == p && r.eff[t] == p && r.owned[t] == [] && r.wait[t] == NoWait
                  && t in Q(r, ReadyQ) && forall u :: 0 <= u < t ==> k.state[u] !in {Unused, Finished})
  {
    CreateInv(k, p);
    FirstFree(k.state, 0);
    match FreeSlot(k.state, 0)
    case None =>
    case Some(t) => InList(Create(k, p), t, ReadyQ);
  }

  lemma {:induction false} FirstFree(state: seq<TaskState>, i: nat)
    requires i <= |state|
    ensures FreeSlot(state, i).Some? ==>
              forall u :: i <= u < FreeSlot(state, i).value ==> state[u] !in {Unused, Finished}
    decreases |state| - i
  {
    if i < |state| && state[i] !in {Unused, Finished} {
      FirstFree(state, i + 1);
    }
  }

  // ---- dispatch ----

  /** scheduler_put_task: a task that is finished, blocked or sleeping is left alone;
      any other one, in the ready queue already or not, then stands there behind
      every task at least as good. */
  lemma PutOutcome(k: K, t: Tid)
    requires Struct(k) && t < |k.state|
    ensures var r := Put(k, t);
            && (k.state[t] in {Finished, Blocked, Sleeping} ==> r == k)
            && (k.state[t] !in {Finished, Blocked, Sleeping} ==>
                  && r.state == k.state[t := Ready] && t in Q(r, ReadyQ)
                  && forall u: nat :: u in Q(k, ReadyQ) && u != t && Key(k.eff, u) <= Key(k.eff, t) ==>
                       Precedes(Q(r, ReadyQ), u, t))
  {
    if k.state[t] !in {Finished, Blocked, Sleeping} {
      var s := Remove(Q(k, ReadyQ), t);
      assert Distinct(At(k.queue, ReadyQ));
      assert Sorted(At(k.queue, ReadyQ), KeyFor(k.eff, k.wake, ReadyQ));
      RemoveKeeps(Q(k, ReadyQ), t);
      InsertMembers(s, k.eff, t);
      PutQueue(k, t);
      forall u: nat | u in Q(k, ReadyQ) && u != t && Key(k.eff, u) <= Key(k.eff, t)
        ensures Precedes(Insert(s, k.eff, t), u, t)
      {
        InsertBehind(s, k.eff, u, t);
      }
    }
  }

  lemma PutQueue(k: K, t: Tid)
    requires t < |k.state| && k.state[t] !in {Finished, Blocked, Sleeping}
    ensures Q(Put(k, t), ReadyQ) == Insert(Remove(Q(k, ReadyQ), t), k.eff, t)
  {
  }

  /** A dispatch changes the state of two tasks at most: the one that had the
      processor, if it can run on, becomes ready, and the one chosen runs. */
  lemma SelectOutcome(k: K)
    requires Inv(k) && exists t: nat :: Runnable(k, t)
    ensures var r := Select(k);
            && RunningNow(r) && Runnable(k, r.current.value) && |r.state| == |k.state|
            && r.eff == k.eff && r.base == k.base && r.wait == k.wait && r.owner == k.owner && r.owned == k.owned
            && r.current.value !in Q(r, ReadyQ)
            && forall t: nat :: t < |k.state| && Some(t) != r.current ==>
                 r.state[t] == if k.current == Some(t) && Runnable(k, t) then Ready else k.state[t]
  {
    SelectDispatches(k);
    SelectInv(k);
    InNoList(Select(k), Select(k).current.value);
  }

  // ---- exit ----

  /** An exited task is finished and in no list, whatever it held; the mutex it held
      first goes on as an unlock would pass it on. */
  lemma ExitOutcome(k: K, f: bool)
    requires Inv(k) && RunningNow(k)
    ensures var r, c := Exit(k, f), k.current.value;
            && |r.state| == |k.state| && r.state[c] == Finished && (forall q :: c !in Q(r, q)) && r.current == k.current
            && (forall t :: 0 <= t < |k.state| && t != c ==>
                  r.state[t] == k.state[t] || (k.state[t] == Blocked && r.state[t] == Ready))
  {
    var c := k.current.value;
    var k1 := k.(state := k.state[c := Finished]);
    InNoList(k, c);
    if k.owned[c] != [] {
      ExitReleasing(k);
      var m := k.owned[c][0];
      if Q(k1, MutexQ(m)) == [] {
        ReleaseInv(k1, m, c, f);
      } else {
        HandingHead(k1, m, c);
        ExitQueues(k1, m, c, Q(k1, MutexQ(m))[0], f);
      }
    }
  }

  lemma ExitQueues(k: K, m: Mid, c: Tid, n: Tid, f: bool)
    requires Handing(k, m, c, n) && k.state[c] == Finished
    ensures var r := Unlock(k, m, f).0; r.state == k.state[n := Ready] && forall q :: c !in Q(r, q)
    ensures Unlock(k, m, f).0.current == k.current
  {
    HandDone(k, m, c, n);
    HandRecalc(k, m, c, n);
    var k2 := GiveTo(k, m, n).(owned := HandOwned(k.owned, c, n, m, true));
    InNoList(k2, c);
    assert Unlock(k, m, f).0.queue == k2.queue;
  }

  /** A finished task stays finished until a creation takes its slot. */
  lemma FinishedStep(k: K, a: Step, f: bool, c: Tid)
    requires Inv(k) && Enabled(k, a, f) && c < |k.state| && k.state[c] == Finished
    ensures var r := Apply(k, a, f);
            |r.state| == |k.state| && (r.state[c] == Finished || (a.DoCreate? && FreeSlot(k.state, 0) == Some(c)))
  {
    StepInv(k, a, f);
    match a
    case DoSelect => SelectFinished(k, c);
    case DoTick => TickStates(k, Add32(k.ticks, 1), c);
    case DoPost(s) => PostFinished(k, s, c);
    case DoCreate(p) => CreateOutcome(k, p);
    case DoWait(s) => WaitOutcome(k, s);
    case DoLock(m) => LockOutcome(k, m);
    case DoUnlock(m) => UnlockFinished(k, m, f, c);
    case DoSleep(n) => SleepOutcome(k, n);
    case DoExit => ExitOutcome(k, f);
  }

  lemma UnlockFinished(k: K, m: Mid, f: bool, c: Tid)
    requires Inv(k) && RunningNow(k) && m < |k.owner| && c < |k.state| && k.state[c] == Finished
    requires f || k.owner[m] != k.current || HandoverOk(k, m, k.current.value)
    ensures var r := Unlock(k, m, f).0; |r.state| == |k.state| && r.state[c] == Finished
  {
    if k.owner[m] == k.current && Q(k, MutexQ(m)) != [] {
      HandingHead(k, m, k.current.value);
    }
    UnlockOutcome(k, m, f);
  }

  lemma PostFinished(k: K, s: Sid, c: Tid)
    requires Inv(k) && s < |k.count| && c < |k.state| && k.state[c] == Finished
    ensures var r := SemPost(k, s).0; |r.state| == |k.state| && r.state[c] == Finished
  {
    if Q(k, SemQ(s)) != [] {
      HeadPlace(k, SemQ(s));
    }
    PostOutcome(k, s);
  }

  lemma SelectFinished(k: K, c: Tid)
    requires Inv(k) && c < |k.state| && k.state[c] == Finished
    ensures |Select(k).state| == |k.state| && Select(k).state[c] == Finished
  {
    PutCurrentReady(k);
    var k1 := PutCurrent(k);
    if Q(k1, ReadyQ) != [] {
      HeadPlace(k1, ReadyQ);
    }
  }

  /** No creation among the steps takes slot c. */
  ghost predicate NotReused(k: K, steps: seq<Step>, f: bool, k1: K, c: Tid)
    requires Runs(k, steps, f, k1)
    decreases |steps|
  {
    steps == []
    || (!(steps[0].DoCreate? && FreeSlot(k.state, 0) == Some(c))
        && NotReused(Apply(k, steps[0], f), steps[1..], f, k1, c))
  }

  /** Over every run: an exited task stays finished, so it is never dispatched and in
      no list, until a creation takes its slot. */
  lemma {:induction false} FinishedStays(k: K, steps: seq<Step>, f: bool, k1: K, c: Tid)
    requires Inv(k) && Runs(k, steps, f, k1) && c < |k.state| && k.state[c] == Finished && NotReused(k, steps, f, k1, c)
    ensures Inv(k1) && c < |k1.state| && k1.state[c] == Finished && forall q :: c !in Q(k1, q)
    decreases |steps|
  {
    if steps == [] {
      InNoList(k, c);
    } else {
      StepInv(k, steps[0], f);
      FinishedStep(k, steps[0], f, c);
      FinishedStays(Apply(k, steps[0], f), steps[1..], f, k1, c);
    }
  }

  // ---- what no step touches ----

  lemma {:induction false} WakeBase(k: K)
    requires Wf(k)
    ensures WakeDue(k).base == k.base && WakeDue(k).owned == k.owned && WakeDue(k).open == k.open
    decreases |Q(k, SleepQ)|
  {
    var s := Q(k, SleepQ);
    if s != [] && s[0] < |k.state| && Due(k.ticks, k.wake[s[0]]) {
      WakeBase(WakeSleeper(k, s[0]));
    }
  }

  /** Base priorities change by creation only, and semaphores stay open or closed. */
  lemma StepBase(k: K, a: Step, f: bool)
    requires Inv(k) && Called(k, a)
    ensures var r := Apply(k, a, f);
            r.open == k.open && (a.DoCreate? || r.base == k.base)
  {
    match a
    case DoTick => WakeBase(k.(ticks := Add32(k.ticks, 1)));
    case DoUnlock(m) => UnlockBase(k, m, f);
    case DoExit =>
      var c := k.current.value;
      if k.owned[c] != [] {
        ExitReleasing(k);
        UnlockBase(k.(state := k.state[c := Finished]), k.owned[c][0], f);
      }
    case _ =>
  }

  lemma UnlockBase(k: K, m: Mid, f: bool)
    requires Wf(k) && m < |k.owner| && k.current.Some?
    ensures var r := Unlock(k, m, f).0; r.base == k.base && r.open == k.open
  {
  }
}
