/** Whole runs of the kernel: the invariant, the global meaning of inherited
    priorities, and dispatch. */
module KernelRuns {
  import opened Machine
  import opened Queues
  import opened KernelState
  import opened KernelInvariant
  import opened KernelSteps
  import opened MutexSteps
  import opened Unlocking

  /** One kernel entry. DoPost, DoTick and DoSelect may come from interrupts at
      any time; the rest are system calls of the running task (or boot code). */
  datatype Step =
    | DoCreate(priority: nat) | DoSelect | DoWait(s: Sid) | DoPost(s: Sid)
    | DoLock(m: Mid) | DoUnlock(m: Mid) | DoSleep(n: nat) | DoTick | DoExit

  predicate RunningNow(k: K) {
    k.current.Some? && k.current.value < |k.state| && k.state[k.current.value] == Running
  }

  /** Who may enter the kernel this way, and with which handles. */
  predicate Called(k: K, a: Step)
    requires Wf(k)
  {
    match a
    case DoSelect => true
    case DoTick => true
    case DoPost(s) => s < |k.count|
    case DoCreate(_) => k.current.None? || RunningNow(k)
    case DoWait(s) => RunningNow(k) && s < |k.count|
    case DoLock(m) => RunningNow(k) && m < |k.owner|
    case DoUnlock(m) => RunningNow(k) && m < |k.owner|
    case DoSleep(n) => RunningNow(k) && n < U32
    case DoExit => RunningNow(k)
  }

  /** The condition under which the two releasing calls do what they should;
      `unlinkFirst` selects the repaired handover order. */
  predicate Sound(k: K, a: Step, unlinkFirst: bool)
    requires Wf(k) && Called(k, a)
  {
    match a
    case DoUnlock(m) => unlinkFirst || k.owner[m] != k.current || HandoverOk(k, m, k.current.value)
    case DoExit => ExitOk(k, unlinkFirst)
    case _ => true
  }

  predicate Enabled(k: K, a: Step, unlinkFirst: bool)
    requires Wf(k)
  {
    Called(k, a) && Sound(k, a, unlinkFirst)
  }

  function Apply(k: K, a: Step, f: bool): K
    requires Wf(k) && Called(k, a)
  {
    match a
    case DoSelect => Select(k)
    case DoTick => Tick(k)
    case DoPost(s) => SemPost(k, s).0
    case DoCreate(p) => Create(k, p)
    case DoWait(s) => SemWait(k, s).0
    case DoLock(m) => Lock(k, m).0
    case DoUnlock(m) => Unlock(k, m, f).0
    case DoSleep(n) => SleepFor(k, n)
    case DoExit => Exit(k, f)
  }

  /** Every step keeps the invariant, an unlock or an exit if and only if it is sound. */
  lemma StepInv(k: K, a: Step, f: bool)
    requires Inv(k) && Called(k, a)
    ensures Inv(Apply(k, a, f)) <==> Sound(k, a, f)
  {
    match a
    case DoSelect => SelectInv(k);
    case DoTick => TickInv(k);
    case DoPost(s) => SemPostInv(k, s);
    case DoCreate(p) => CreateInv(k, p);
    case DoWait(s) => SemWaitInv(k, s);
    case DoLock(m) => LockInv(k, m);
    case DoUnlock(m) => UnlockInv(k, m);
    case DoSleep(n) => SleepForInv(k, n);
    case DoExit => ExitInv(k, f);
  }

  /** k1 is reached from k by these steps, each enabled when it happens. */
  ghost predicate Runs(k: K, steps: seq<Step>, f: bool, k1: K)
    decreases |steps|
  {
    if steps == [] then k1 == k
    else Wf(k) && Enabled(k, steps[0], f) && Runs(Apply(k, steps[0], f), steps[1..], f, k1)
  }

  function Boot(tasks: nat, mutexes: nat, sems: seq<nat>): K {
    K(seq(tasks, _ => Unused), seq(tasks, _ => 0), seq(tasks, _ => 0), seq(tasks, _ => NoWait), seq(tasks, _ => 0),
      map[], seq(mutexes, _ => None), seq(tasks, _ => []), sems, seq(|sems|, _ => true), None, 0)
  }

  lemma BootInv(tasks: nat, mutexes: nat, sems: seq<nat>)
    ensures Inv(Boot(tasks, mutexes, sems))
  {
    var k := Boot(tasks, mutexes, sems);
    assert forall q :: At(k.queue, q) == [];
    assert forall t :: 0 <= t < tasks ==> Homes(k)[t].None?;
    assert forall t :: 0 <= t < tasks ==> ExactAt(k, t);
  }

  /** Safety over every run of sound steps: each task is in exactly the list its
      state names, once; lists are sorted; at most one task is running; ownership
      and lists agree; and every effective priority is exact. */
  lemma {:induction false} RunInv(k: K, steps: seq<Step>, f: bool, k1: K)
    requires Inv(k) && Runs(k, steps, f, k1)
    ensures Inv(k1)
    decreases |steps|
  {
    if steps != [] {
      StepInv(k, steps[0], f);
      RunInv(Apply(k, steps[0], f), steps[1..], f, k1);
    }
  }

  /** The steps can be taken one after the other, sound or not. */
  ghost predicate Traces(k: K, steps: seq<Step>, f: bool)
    decreases |steps|
  {
    steps == [] || (Wf(k) && Called(k, steps[0]) && Traces(Apply(k, steps[0], f), steps[1..], f))
  }

  ghost predicate SoundAlong(k: K, steps: seq<Step>, f: bool)
    requires Traces(k, steps, f)
    decreases |steps|
  {
    steps == [] || (Sound(k, steps[0], f) && SoundAlong(Apply(k, steps[0], f), steps[1..], f))
  }

  ghost predicate InvAlong(k: K, steps: seq<Step>, f: bool)
    requires Traces(k, steps, f)
    decreases |steps|
  {
    Inv(k) && (steps == [] || InvAlong(Apply(k, steps[0], f), steps[1..], f))
  }

  /** Exactly: the invariant holds in every state of a run if and only if every
      unlock and every exit in it is sound, which the repaired order makes true of
      all unlocks. */
  lemma {:induction false} RunInvIff(k: K, steps: seq<Step>, f: bool)
    requires Inv(k) && Traces(k, steps, f)
    ensures InvAlong(k, steps, f) <==> SoundAlong(k, steps, f)
    decreases |steps|
  {
    if steps != [] {
      var k1 := Apply(k, steps[0], f);
      StepInv(k, steps[0], f);
      if Inv(k1) {
        RunInvIff(k1, steps[1..], f);
      } else {
        assert !InvAlong(k1, steps[1..], f);
      }
    }
  }

  /** No task is ever linked into two lists that share its next field. */
  lemma OneListOnly(k: K, q1: QueueRef, i: nat, q2: QueueRef, j: nat)
    requires Inv(k) && i < |Q(k, q1)| && j < |Q(k, q2)| && Q(k, q1)[i] == Q(k, q2)[j]
    ensures q1 == q2 && i == j
  {
    var t := Q(k, q1)[i];
    assert t in At(k.queue, q1) && t in At(k.queue, q2);
    assert Homes(k)[t] == Some(q1);
    assert Distinct(At(k.queue, q1));
  }

  // ---- what an inherited priority means globally ----

  /** u is blocked, n hops deep, behind t. */
  ghost predicate Behind(k: K, u: Tid, t: Tid, n: nat)
    requires Wf(k)
    decreases n
  {
    u < |k.state| && if n == 0 then u == t else Holder(k, u).Some? && Behind(k, Holder(k, u).value, t, n - 1)
  }

  ghost predicate Acyclic(k: K)
    requires Wf(k)
  {
    forall t: nat, n: nat :: n > 0 ==> !Behind(k, t, t, n)
  }

  ghost predicate Reaches(k: K, u: Tid, t: Tid)
    requires Wf(k)
  {
    exists n: nat :: Behind(k, u, t, n)
  }

  lemma {:induction false} BehindTrans(k: K, u: Tid, v: Tid, t: Tid, a: nat, b: nat)
    requires Wf(k) && Behind(k, u, v, a) && Behind(k, v, t, b)
    ensures Behind(k, u, t, a + b)
    decreases a
  {
    if a > 0 {
      BehindTrans(k, Holder(k, u).value, v, t, a - 1, b);
    }
  }

  /** On any graph: a task is at least as good as every task blocked behind it. */
  lemma {:induction false} BehindBound(k: K, u: Tid, t: Tid, n: nat)
    requires Wf(k) && Exact(k) && Behind(k, u, t, n) && t < |k.state|
    ensures k.eff[t] <= k.eff[u] <= k.base[u]
    decreases n
  {
    assert ExactAt(k, u);
    if n > 0 {
      var v := Holder(k, u).value;
      assert WaitsFor(k, u, v) && ExactAt(k, v);
      BehindBound(k, v, t, n - 1);
    }
  }

  lemma {:induction false} SmallSet(s: set<nat>, n: nat)
    requires forall x :: x in s ==> x < n
    ensures |s| <= n
    decreases n
  {
    if n > 0 {
      SmallSet(s - {n - 1}, n - 1);
      assert |s| <= |s - {n - 1}| + 1 by {
        if n - 1 in s {
          assert s == (s - {n - 1}) + {n - 1};
        } else {
          assert s == s - {n - 1};
        }
      }
    } else {
      assert s == {};
    }
  }

  /** Following the waiter that justifies a priority ends at a task whose own
      base priority it is. `seen` holds the tasks v is already behind. */
  lemma {:induction false} Source(k: K, v: Tid, t: Tid, n: nat, seen: set<nat>) returns (u: Tid, d: nat)
    requires Wf(k) && Exact(k) && Acyclic(k) && Behind(k, v, t, n)
    requires forall x :: x in seen ==> x < |k.state| && Reaches(k, v, x)
    ensures Behind(k, u, t, d) && k.base[u] == k.eff[v]
    decreases |k.state| - |seen|
  {
    SmallSet(seen, |k.state|);
    assert ExactAt(k, v);
    if k.eff[v] == k.base[v] {
      u, d := v, n;
    } else {
      var w: nat :| WaitsFor(k, w, v) && k.eff[w] == k.eff[v];
      assert Behind(k, v, v, 0) && Behind(k, w, v, 1);
      if w in seen {
        var a: nat :| Behind(k, v, w, a);
        BehindTrans(k, w, v, w, 1, a);
        assert false;
      }
      var seen1 := seen + {w};
      forall x | x in seen1 ensures x < |k.state| && Reaches(k, w, x) {
        if x == w {
          assert Behind(k, w, w, 0);
        } else {
          var a: nat :| Behind(k, v, x, a);
          BehindTrans(k, w, v, x, 1, a);
        }
      }
      assert |seen1| == |seen| + 1;
      SmallSet(seen1, |k.state|);
      BehindTrans(k, w, v, t, 1, n);
      u, d := Source(k, w, t, 1 + n, seen1);
    }
  }

  /** On an acyclic graph the effective priority is the best base priority among
      the task and everything transitively blocked behind it. */
  lemma InheritanceIsGlobal(k: K, t: Tid)
    requires Inv(k) && Acyclic(k) && t < |k.state|
    ensures forall u: nat, n: nat :: Behind(k, u, t, n) ==> k.eff[t] <= k.base[u]
    ensures exists u: nat, n: nat :: Behind(k, u, t, n) && k.base[u] == k.eff[t]
  {
    forall u: nat, n: nat | Behind(k, u, t, n) ensures k.eff[t] <= k.base[u] {
      BehindBound(k, u, t, n);
    }
    assert Behind(k, t, t, 0);
    var u, n := Source(k, t, t, 0, {});
  }

  /** A bystander worse than some task blocked behind a ready holder is never
      dispatched before that holder. */
  lemma NoInversion(k: K, high: Tid, holder: Tid, medium: Tid, n: nat)
    requires Inv(k) && Behind(k, high, holder, n) && holder < |k.state| && k.state[holder] == Ready
    requires medium < |k.state| && k.state[medium] == Ready && k.eff[medium] > k.base[high]
    ensures Select(k).current != Some(medium)
  {
    BehindBound(k, high, holder, n);
    assert Runnable(k, holder);
    SelectDispatches(k);
  }

  // ---- dispatch ----

  /** The task a dispatch must choose from: ready, or current and able to run on. */
  predicate Runnable(k: K, t: Tid) {
    t < |k.state| && (k.state[t] == Ready || (k.current == Some(t) && k.state[t] in {Running, Suspended}))
  }

  ghost predicate Best(k: K, h: Tid)
    requires Wf(k)
  {
    Runnable(k, h) && forall t: nat :: Runnable(k, t) ==> k.eff[h] <= k.eff[t]
  }

  lemma HeadOfReady(k: K)
    requires Struct(k) && Q(k, ReadyQ) != []
    ensures var h := Q(k, ReadyQ)[0];
            h < |k.state| && k.state[h] == Ready
            && forall t :: 0 <= t < |k.state| && k.state[t] == Ready ==> k.eff[h] <= k.eff[t]
  {
    HeadPlace(k, ReadyQ);
    var r := At(k.queue, ReadyQ);
    forall t | 0 <= t < |k.state| && k.state[t] == Ready ensures k.eff[r[0]] <= k.eff[t] {
      assert Homes(k)[t] == Some(ReadyQ);
      assert t in r;
      var i :| 0 <= i < |r| && r[i] == t;
      assert Sorted(At(k.queue, ReadyQ), KeyFor(k.eff, k.wake, ReadyQ));
      assert Key(k.eff, r[0]) <= Key(k.eff, r[i]);
    }
  }

  /** Requeueing the current task makes exactly the runnable tasks ready. */
  lemma PutCurrentReady(k: K)
    requires Inv(k)
    ensures Inv(PutCurrent(k)) && PutCurrent(k).eff == k.eff && |PutCurrent(k).state| == |k.state|
    ensures forall t: nat :: Runnable(k, t) <==> t < |k.state| && PutCurrent(k).state[t] == Ready
  {
    if k.current.Some? {
      PutInv(k, k.current.value);
    }
  }

  lemma ReadyNotEmpty(k: K, t: Tid)
    requires Inv(k) && t < |k.state| && k.state[t] == Ready
    ensures Q(k, ReadyQ) != []
  {
    assert Homes(k)[t] == Some(ReadyQ);
    assert t in At(k.queue, ReadyQ);
  }

  /** scheduler_select_next runs a best-priority runnable task whenever there is
      one; only with none does it fall back to the current task. */
  lemma SelectDispatches(k: K)
    requires Inv(k)
    ensures (exists t: nat :: Runnable(k, t)) ==> RunningNow(Select(k)) && Best(k, Select(k).current.value)
  {
    PutCurrentReady(k);
    if exists t: nat :: Runnable(k, t) {
      var t: nat :| Runnable(k, t);
      ReadyNotEmpty(PutCurrent(k), t);
      HeadOfReady(PutCurrent(k));
    }
  }

  /** request_context_switch, when PendSV is neither pending nor active. */
  predicate WantsSwitch(k: K)
    requires Wf(k)
  {
    var r := Q(k, ReadyQ);
    r != [] && r[0] < |k.state| && k.current.Some?
    && !(k.state[k.current.value] == Running && k.eff[r[0]] > k.eff[k.current.value])
  }

  /** Declining the switch leaves a running task that strictly outranks every
      ready one; taking it runs a task at least as good. */
  lemma SwitchDecision(k: K)
    requires Inv(k) && RunningNow(k)
    ensures !WantsSwitch(k) <==>
            forall t :: 0 <= t < |k.state| && k.state[t] == Ready ==> k.eff[k.current.value] < k.eff[t]
    ensures RunningNow(Select(k)) && k.eff[Select(k).current.value] <= k.eff[k.current.value]
  {
    assert Runnable(k, k.current.value);
    SelectDispatches(k);
    if Q(k, ReadyQ) != [] {
      HeadOfReady(k);
    } else {
      forall t | 0 <= t < |k.state| ensures k.state[t] != Ready {
        if k.state[t] == Ready {
          ReadyNotEmpty(k, t);
          assert false;
        }
      }
    }
  }
}
