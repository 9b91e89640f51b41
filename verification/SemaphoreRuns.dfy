/** Semaphore units over whole runs: none is lost, and none is held back from a
    waiting task. */
module SemaphoreRuns {
  import opened Machine
  import opened Queues
  import opened KernelState
  import opened KernelInvariant
  import opened KernelSteps
  import opened KernelRuns

  /** Units available minus tasks waiting. */
  function Balance(k: K, s: Sid): int
    requires s < |k.count|
  {
    k.count[s] - |Q(k, SemQ(s))|
  }

  /** Nobody waits while a unit is available. */
  predicate NoneHeldBack(k: K, s: Sid)
    requires s < |k.count|
  {
    k.count[s] > 0 ==> Q(k, SemQ(s)) == []
  }

  /** Posts to s among the steps. */
  function Posts(steps: seq<Step>, s: Sid): nat {
    if steps == [] then 0 else (if steps[0] == DoPost(s) then 1 else 0) + Posts(steps[1..], s)
  }

  /** Waits on s among the steps. */
  function Waits(steps: seq<Step>, s: Sid): nat {
    if steps == [] then 0 else (if steps[0] == DoWait(s) then 1 else 0) + Waits(steps[1..], s)
  }

  // ---- steps that leave the semaphores alone ----

  ghost predicate SameSems(k: K, k1: K) {
    k1.count == k.count && k1.open == k.open && forall s: nat :: Q(k1, SemQ(s)) == Q(k, SemQ(s))
  }

  lemma PutSems(k: K, t: Tid)
    requires t < |k.state|
    ensures SameSems(k, Put(k, t))
  {
  }

  lemma RaiseOneSems(k: K, t: Tid, p: nat)
    requires Wf(k) && t < |k.state|
    ensures Wf(RaiseOne(k, t, p)) && SameSems(k, RaiseOne(k, t, p))
  {
  }

  lemma {:induction false} RaiseSems(k: K, t: Tid, p: nat)
    requires Wf(k) && t < |k.state|
    ensures SameSems(k, Raise(k, t, p))
    decreases Above(k.eff, p)
  {
    if k.eff[t] > p {
      AboveDrops(k.eff, t, p);
      var k1 := RaiseOne(k, t, p);
      RaiseOneSems(k, t, p);
      match Holder(k, t)
      case None =>
      case Some(o) => RaiseSems(k1, o, p);
    }
  }

  lemma LockSems(k: K, m: Mid)
    requires Wf(k) && m < |k.owner| && k.current.Some?
    ensures SameSems(k, Lock(k, m).0)
  {
    var t := k.current.value;
    if k.owner[m].Some? && k.owner[m].value != t {
      var k1 := Enqueue(k.(state := k.state[t := Blocked], wait := k.wait[t := OnMutex(m)]), MutexQ(m), t);
      RaiseSems(k1, k.owner[m].value, k.eff[t]);
    }
  }

  lemma UnlockSems(k: K, m: Mid, f: bool)
    requires Wf(k) && m < |k.owner| && k.current.Some?
    ensures SameSems(k, Unlock(k, m, f).0)
  {
    var w := Q(k, MutexQ(m));
    if k.owner[m] == k.current && w != [] && w[0] < |k.state| {
      GiveSems(k, m, w[0]);
    }
  }

  lemma GiveSems(k: K, m: Mid, n: Tid)
    requires Wf(k) && m < |k.owner| && n < |k.state|
    ensures SameSems(k, GiveTo(k, m, n))
  {
  }

  lemma {:induction false} WakeSems(k: K)
    requires Wf(k)
    ensures SameSems(k, WakeDue(k))
    decreases |Q(k, SleepQ)|
  {
    var s := Q(k, SleepQ);
    if s != [] && s[0] < |k.state| && Due(k.ticks, k.wake[s[0]]) {
      var k1 := WakeSleeper(k, s[0]);
      assert SameSems(k, k1);
      WakeSems(k1);
    }
  }

  lemma OtherSems(k: K, a: Step, f: bool)
    requires Wf(k) && Enabled(k, a, f) && !a.DoPost? && !a.DoWait?
    ensures SameSems(k, Apply(k, a, f))
  {
    match a
    case DoSelect => if k.current.Some? { PutSems(k, k.current.value); }
    case DoTick => WakeSems(k.(ticks := Add32(k.ticks, 1)));
    case DoCreate(p) =>
    case DoLock(m) => LockSems(k, m);
    case DoUnlock(m) => UnlockSems(k, m, f);
    case DoSleep(n) =>
    case DoExit =>
      var c := k.current.value;
      var k1 := k.(state := k.state[c := Finished]);
      if k.owned[c] != [] && k.owned[c][0] < |k.owner| {
        UnlockSems(k1, k.owned[c][0], f);
      }
  }

  // ---- waits and posts ----

  lemma WaitUnits(k: K, x: Sid, s: Sid)
    requires Inv(k) && RunningNow(k) && x < |k.count| && s < |k.count| && k.open[s] && NoneHeldBack(k, s)
    ensures var k1 := SemWait(k, x).0;
            && |k1.count| == |k.count| && k1.open == k.open && NoneHeldBack(k1, s)
            && Balance(k1, s) == Balance(k, s) - (if x == s then 1 else 0)
            && k1.count[s] <= k.count[s]
  {
    if x == s && k.count[s] == 0 {
      InsertFifo(Q(k, SemQ(s)), k.current.value);
    }
  }

  /** The post that makes the 32-bit count start over. */
  predicate Wraps(k: K, a: Step, s: Sid)
    requires s < |k.count|
  {
    a == DoPost(s) && Q(k, SemQ(s)) == [] && k.count[s] + 1 >= U32
  }

  lemma PostUnits(k: K, x: Sid, s: Sid)
    requires Inv(k) && x < |k.count| && s < |k.count| && k.open[s] && NoneHeldBack(k, s)
    ensures var k1 := SemPost(k, x).0;
            && |k1.count| == |k.count| && k1.open == k.open && NoneHeldBack(k1, s)
            && Balance(k1, s) == Balance(k, s) + (if x == s then 1 else 0) - (if Wraps(k, DoPost(x), s) then U32 else 0)
            && k1.count[s] <= k.count[s] + if x == s then 1 else 0
  {
    if Q(k, SemQ(x)) != [] {
      HeadPlace(k, SemQ(x));
    }
  }

  lemma StepUnits(k: K, a: Step, f: bool, s: Sid)
    requires Inv(k) && Enabled(k, a, f) && s < |k.count| && k.open[s] && NoneHeldBack(k, s)
    ensures var k1 := Apply(k, a, f);
            && |k1.count| == |k.count| && k1.open == k.open && NoneHeldBack(k1, s)
            && Balance(k1, s) == Balance(k, s) + (if a == DoPost(s) then 1 else 0) - (if a == DoWait(s) then 1 else 0)
                                 - (if Wraps(k, a, s) then U32 else 0)
            && k1.count[s] <= k.count[s] + if a == DoPost(s) then 1 else 0
  {
    match a
    case DoPost(x) => PostUnits(k, x, s);
    case DoWait(x) => WaitUnits(k, x, s);
    case _ => OtherSems(k, a, f);
  }

  /** Conservation: over every run an open semaphore's balance is what it was, plus
      the posts, minus the waits, minus 2^32 for every time its count has wrapped,
      which takes that many posts; and no task waits while a unit is available. So
      the count is the balance when that is positive, and otherwise its negative is
      the number of waiting tasks. */
  lemma {:induction false} UnitsConserved(k: K, steps: seq<Step>, f: bool, k1: K, s: Sid) returns (wraps: nat)
    requires Inv(k) && Runs(k, steps, f, k1) && s < |k.count| && k.open[s] && NoneHeldBack(k, s)
    ensures s < |k1.count| && NoneHeldBack(k1, s)
    ensures Balance(k1, s) == Balance(k, s) + Posts(steps, s) - Waits(steps, s) - U32 * wraps
    ensures k.count[s] + Posts(steps, s) < U32 ==> wraps == 0
    ensures k1.count[s] == if Balance(k1, s) > 0 then Balance(k1, s) else 0
    decreases |steps|
  {
    wraps := 0;
    if steps != [] {
      StepInv(k, steps[0], f);
      StepUnits(k, steps[0], f, s);
      var later := UnitsConserved(Apply(k, steps[0], f), steps[1..], f, k1, s);
      wraps := later + if Wraps(k, steps[0], s) then 1 else 0;
    }
  }
}
