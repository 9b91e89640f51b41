/** What single steps do to a task's state, and from that: the idle task keeps
    the processor occupied. */
module KernelTiming {
  import opened Queues
  import opened KernelState
  import opened KernelInvariant
  import opened KernelSteps
  import opened MutexSteps
  import opened Unlocking
  import opened KernelRuns

  /** System calls that may take the processor from their caller. */
  predicate Blocking(a: Step) {
    a.DoWait? || a.DoLock? || a.DoSleep? || a.DoExit?
  }

  /** How one step may change one task. */
  ghost predicate Effect(k: K, a: Step, k1: K, t: Tid)
    requires t < |k.state| && Wf(k) && Wf(k1)
  {
    && |k1.state| == |k.state|
    && (k1.state[t] == k.state[t] || k1.state[t] == Ready || (k.current == Some(t) && Blocking(a))
        || (a.DoSelect? && k1.state[t] == Running))
    && (k.state[t] == Sleeping && !a.DoTick? ==> k1.state[t] == Sleeping && k1.wake[t] == k.wake[t])
    && (k1.state[t] == Sleeping && k.state[t] != Sleeping ==>
          a.DoSleep? && k.current == Some(t) && a.n > 0 && k1.wake[t] == Add32(k.ticks, a.n))
    && (if a.DoTick? then k1.ticks == Add32(k.ticks, 1) else k1.ticks == k.ticks)
  }

  lemma PutEffect(k: K, t: Tid)
    requires t < |k.state|
    ensures var r := Put(k, t);
            r == k.(state := r.state, queue := r.queue)
            && r.state == (if k.state[t] in {Finished, Blocked, Sleeping} then k.state else k.state[t := Ready])
            && forall q :: q != ReadyQ ==> Q(r, q) == Q(k, q)
  {
  }

  lemma PostEffect(k: K, s: Sid, t: Tid)
    requires Inv(k) && s < |k.count| && t < |k.state|
    ensures Wf(SemPost(k, s).0) && Effect(k, DoPost(s), SemPost(k, s).0, t)
  {
    SemPostInv(k, s);
    if Q(k, SemQ(s)) != [] {
      HeadPlace(k, SemQ(s));
    }
  }

  lemma UnlockEffect(k: K, m: Mid, c: Tid, t: Tid, f: bool)
    requires Releasing(k, m, c) && t < |k.state| && (f || HandoverOk(k, m, c))
    ensures var r := Unlock(k, m, f).0;
            |r.state| == |k.state| && (r.state[t] == k.state[t] || (r.state[t] == Ready && k.state[t] == Blocked))
            && r.wake == k.wake && r.ticks == k.ticks
  {
    if Q(k, MutexQ(m)) == [] {
      ReleaseInv(k, m, c, f);
    } else {
      HandingHead(k, m, c);
      var n := Q(k, MutexQ(m))[0];
      HandRecalc(k, m, c, n);
      HandInv(k, m, c, n);
      if !f {
        HandSame(k, m, c, n);
      }
    }
  }

  lemma ExitEffect(k: K, t: Tid, f: bool)
    requires Inv(k) && RunningNow(k) && ExitOk(k, f) && t < |k.state|
    ensures Wf(Exit(k, f)) && Effect(k, DoExit, Exit(k, f), t)
  {
    ExitInv(k, f);
    var c := k.current.value;
    if k.owned[c] != [] {
      ExitReleasing(k);
      UnlockEffect(k.(state := k.state[c := Finished]), k.owned[c][0], c, t, f);
    }
  }

  lemma SelectEffect(k: K, t: Tid)
    requires Inv(k) && t < |k.state|
    ensures Wf(Select(k)) && Effect(k, DoSelect, Select(k), t)
  {
    SelectInv(k);
    PutCurrentReady(k);
    if k.current.Some? {
      PutEffect(k, k.current.value);
    }
    var k1 := PutCurrent(k);
    assert k1 == k.(state := k1.state, queue := k1.queue);
    SelectStates(k1, Select(k), t);
  }

  lemma SelectStates(k1: K, r: K, t: Tid)
    requires Struct(k1) && t < |k1.state|
    requires r == var q := Q(k1, ReadyQ);
                  if q == [] || q[0] >= |k1.state| then k1
                  else k1.(queue := k1.queue[ReadyQ := q[1..]], state := k1.state[q[0] := Running],
                           current := Some(q[0]))
    ensures |r.state| == |k1.state| && r.wake == k1.wake && r.ticks == k1.ticks
    ensures r.state[t] == k1.state[t] || (k1.state[t] == Ready && r.state[t] == Running)
  {
    if Q(k1, ReadyQ) != [] {
      HeadPlace(k1, ReadyQ);
    }
  }

  /** sleep_tick moves sleepers to the ready queue and changes nobody else. */
  lemma {:induction false} WakeDueEffect(k: K, t: Tid)
    requires Inv(k) && t < |k.state|
    ensures WakeDue(k).state[t] == k.state[t] || (k.state[t] == Sleeping && WakeDue(k).state[t] == Ready)
    decreases |Q(k, SleepQ)|
  {
    var s := Q(k, SleepQ);
    if s != [] && Due(k.ticks, Key(k.wake, s[0])) {
      HeadPlace(k, SleepQ);
      WakeSleeperInv(k, s[0]);
      WakeDueEffect(WakeSleeper(k, s[0]), t);
    }
  }

  lemma WakeFirst(k: K)
    requires Inv(k) && Q(k, SleepQ) != []
    ensures var h := Q(k, SleepQ)[0];
            && h < |k.state| && k.state[h] == Sleeping
            && var k1 := WakeSleeper(k, h);
               Inv(k1) && k1.state == k.state[h := Ready] && Q(k1, SleepQ) == Q(k, SleepQ)[1..]
               && k1.wake == k.wake && k1.ticks == k.ticks && k1.eff == k.eff
  {
    HeadPlace(k, SleepQ);
    var h := Q(k, SleepQ)[0];
    WakeSleeperInv(k, h);
    PutEffect(k.(queue := k.queue[SleepQ := Remove(Q(k, SleepQ), h)], state := k.state[h := Ready]), h);
    assert k.state[h := Ready][h := Ready] == k.state[h := Ready];
  }

  lemma TicksInv(k: K, n: nat)
    requires Inv(k)
    ensures Inv(k.(ticks := n))
  {
    var k1 := k.(ticks := n);
    assert Homes(k1) == Homes(k);
    GraphKeeps(k, k1);
  }

  lemma LockEffect(k: K, m: Mid, t: Tid)
    requires Inv(k) && RunningNow(k) && m < |k.owner| && t < |k.state|
    ensures Wf(Lock(k, m).0) && Effect(k, DoLock(m), Lock(k, m).0, t)
  {
    LockInv(k, m);
  }

  lemma WaitEffect(k: K, s: Sid, t: Tid)
    requires Inv(k) && RunningNow(k) && s < |k.count| && t < |k.state|
    ensures Wf(SemWait(k, s).0) && Effect(k, DoWait(s), SemWait(k, s).0, t)
  {
    SemWaitInv(k, s);
  }

  lemma SleepEffect(k: K, n: nat, t: Tid)
    requires Inv(k) && RunningNow(k) && t < |k.state|
    ensures Wf(SleepFor(k, n)) && Effect(k, DoSleep(n), SleepFor(k, n), t)
  {
    SleepForInv(k, n);
  }

  lemma CreateEffect(k: K, p: nat, t: Tid)
    requires Inv(k) && t < |k.state|
    ensures Wf(Create(k, p)) && Effect(k, DoCreate(p), Create(k, p), t)
  {
    CreateInv(k, p);
  }

  lemma TickEffect(k: K, t: Tid)
    requires Inv(k) && t < |k.state|
    ensures Wf(Tick(k)) && Effect(k, DoTick, Tick(k), t)
  {
    TickStates(k, Add32(k.ticks, 1), t);
  }

  lemma TickStates(k: K, n: nat, t: Tid)
    requires Inv(k) && t < |k.state|
    ensures var r := WakeDue(k.(ticks := n));
            r.state[t] == k.state[t] || (k.state[t] == Sleeping && r.state[t] == Ready)
  {
    TicksInv(k, n);
    WakeDueEffect(k.(ticks := n), t);
  }

  lemma StepEffect(k: K, a: Step, f: bool, t: Tid)
    requires Inv(k) && Enabled(k, a, f) && t < |k.state|
    ensures Wf(Apply(k, a, f)) && Effect(k, a, Apply(k, a, f), t)
  {
    match a
    case DoSelect => SelectEffect(k, t);
    case DoTick => TickEffect(k, t);
    case DoPost(s) => PostEffect(k, s, t);
    case DoCreate(p) => CreateEffect(k, p, t);
    case DoWait(s) => WaitEffect(k, s, t);
    case DoLock(m) => LockEffect(k, m, t);
    case DoUnlock(m) =>
      UnlockInv(k, m);
      if k.owner[m] == k.current {
        UnlockEffect(k, m, k.current.value, t, f);
      }
    case DoSleep(n) => SleepEffect(k, n, t);
    case DoExit => ExitEffect(k, t, f);
  }

  // ---- the idle task ----

  /** A run in which task idle makes no call that could block it. */
  ghost predicate IdleRuns(k: K, steps: seq<Step>, f: bool, idle: Tid, k1: K)
    decreases |steps|
  {
    if steps == [] then k1 == k
    else Wf(k) && Enabled(k, steps[0], f) && !(k.current == Some(idle) && Blocking(steps[0]))
         && IdleRuns(Apply(k, steps[0], f), steps[1..], f, idle, k1)
  }

  /** While the idle task exists, every dispatch finds a task: the fallback of
      scheduler_select_next to the current task is never taken. */
  lemma {:induction false} IdleKeepsDispatching(k: K, steps: seq<Step>, f: bool, idle: Tid, k1: K)
    requires Inv(k) && idle < |k.state| && k.state[idle] in {Ready, Running} && IdleRuns(k, steps, f, idle, k1)
    ensures Inv(k1) && Q(PutCurrent(k1), ReadyQ) != [] && RunningNow(Select(k1))
    decreases |steps|
  {
    if steps == [] {
      assert Runnable(k, idle);
      SelectDispatches(k);
      PutCurrentReady(k);
      ReadyNotEmpty(PutCurrent(k), idle);
    } else {
      StepInv(k, steps[0], f);
      StepEffect(k, steps[0], f, idle);
      IdleKeepsDispatching(Apply(k, steps[0], f), steps[1..], f, idle, k1);
    }
  }
}
