/** First come, first served among equals on a mutex: of two tasks that keep
    waiting with unchanged priorities, the one that queued first is served first. */
module MutexFairness {
  import opened Queues
  import opened KernelState
  import opened KernelInvariant
  import opened Inheritance
  import opened KernelSteps
  import opened Unlocking
  import opened KernelRuns

  /** a stands before b. */
  ghost predicate Precedes(s: seq<Tid>, a: Tid, b: Tid) {
    exists i, j :: 0 <= i < j < |s| && s[i] == a && s[j] == b
  }

  lemma InsertKeepsOrder(s: seq<Tid>, key: seq<nat>, x: Tid, a: Tid, b: Tid)
    requires Precedes(s, a, b)
    ensures Precedes(Insert(s, key, x), a, b)
  {
    var i, j :| 0 <= i < j < |s| && s[i] == a && s[j] == b;
    var p := Slot(s, key, Key(key, x));
    var r := s[..p] + [x] + s[p..];
    OrderAt(r, if i < p then i else i + 1, if j < p then j else j + 1);
  }

  lemma OrderAt(s: seq<Tid>, i: nat, j: nat)
    requires i < j < |s|
    ensures Precedes(s, s[i], s[j])
  {
  }

  lemma {:induction false} RemoveKeepsOrder(s: seq<Tid>, x: Tid, a: Tid, b: Tid)
    requires Distinct(s) && Precedes(s, a, b) && x != a && x != b
    ensures Precedes(Remove(s, x), a, b)
  {
    if x in s {
      var i, j :| 0 <= i < j < |s| && s[i] == a && s[j] == b;
      var y :| 0 <= y < |s| && s[y] == x;
      RemoveOrder(s, y, i, j);
    }
  }

  lemma {:induction false} RemoveOrder(s: seq<Tid>, y: nat, i: nat, j: nat)
    requires Distinct(s) && i < j < |s| && y < |s| && y != i && y != j
    ensures Precedes(Remove(s, s[y]), s[i], s[j])
  {
    RemoveAt(s, y);
    CutOrder(s, y, i, j);
  }

  lemma CutOrder(s: seq<Tid>, y: nat, i: nat, j: nat)
    requires i < j < |s| && y < |s| && y != i && y != j
    ensures Precedes(s[..y] + s[y + 1..], s[i], s[j])
  {
    OrderAt(s[..y] + s[y + 1..], if i < y then i else i - 1, if j < y then j else j - 1);
  }

  /** A newcomer goes behind everyone who is at least as good. */
  lemma InsertBehind(s: seq<Tid>, key: seq<nat>, a: Tid, b: Tid)
    requires Sorted(s, key) && a in s && Key(key, a) <= Key(key, b)
    ensures Precedes(Insert(s, key, b), a, b)
  {
    var i :| 0 <= i < |s| && s[i] == a;
    var p := Slot(s, key, Key(key, b));
    var r := Insert(s, key, b);
    InsertIndex(s, p, b, r);
    assert forall j :: 0 <= j <= i ==> Key(key, s[j]) <= Key(key, s[i]);
    assert i < p && r[i] == a && r[p] == b;
  }

  // ---- one raise ----

  lemma RaiseOneOrder(k: K, t: Tid, p: nat, m: Mid, a: Tid, b: Tid)
    requires Struct(k) && t < |k.state| && t != a && t != b && Precedes(Q(k, MutexQ(m)), a, b)
    ensures Precedes(Q(RaiseOne(k, t, p), MutexQ(m)), a, b)
  {
    if Place(k, t) == Some(MutexQ(m)) {
      assert Distinct(At(k.queue, MutexQ(m)));
      RemoveKeepsOrder(Q(k, MutexQ(m)), t, a, b);
      InsertKeepsOrder(Remove(Q(k, MutexQ(m)), t), k.eff[t := p], t, a, b);
    }
    RaiseOneQueue(k, t, p, m);
  }

  lemma RaiseOneQueue(k: K, t: Tid, p: nat, m: Mid)
    requires Wf(k) && t < |k.state|
    ensures var s := Q(k, MutexQ(m));
            Q(RaiseOne(k, t, p), MutexQ(m))
            == if Place(k, t) == Some(MutexQ(m)) then Insert(Remove(s, t), k.eff[t := p], t) else s
  {
  }

  /** A raise that does not lift a and b leaves them in their order. */
  lemma {:induction false} RaiseOrder(k: K, t: Tid, p: nat, m: Mid, a: Tid, b: Tid)
    requires Struct(k) && t < |k.state| && a < |k.state| && b < |k.state| && Precedes(Q(k, MutexQ(m)), a, b)
    requires Raise(k, t, p).eff[a] == k.eff[a] && Raise(k, t, p).eff[b] == k.eff[b]
    ensures Precedes(Q(Raise(k, t, p), MutexQ(m)), a, b)
    decreases Above(k.eff, p)
  {
    if k.eff[t] > p {
      AboveDrops(k.eff, t, p);
      RaiseMonotone(k, t, p);
      var k1 := RaiseOne(k, t, p);
      RaiseOneStruct(k, t, p);
      RaiseOneOrder(k, t, p, m, a, b);
      match Holder(k, t)
      case None =>
      case Some(o) =>
        RaiseMonotone(k1, o, p);
        RaiseOrder(k1, o, p, m, a, b);
    }
  }

  // ---- one step ----

  /** a and b both wait on m, at the priorities they had in k. */
  ghost predicate StillWaiting(k: K, k1: K, m: Mid, a: Tid, b: Tid)
    requires Wf(k) && Wf(k1) && a < |k.state| && b < |k.state|
  {
    && |k1.state| == |k.state| && MutexWait(k1, a) == Some(m) && MutexWait(k1, b) == Some(m)
    && k1.eff[a] == k.eff[a] && k1.eff[b] == k.eff[b]
  }

  ghost predicate SameQueue(k: K, k1: K, m: Mid) {
    Q(k1, MutexQ(m)) == Q(k, MutexQ(m))
  }

  lemma {:induction false} WakeQueues(k: K, m: Mid)
    requires Wf(k)
    ensures SameQueue(k, WakeDue(k), m)
    decreases |Q(k, SleepQ)|
  {
    var s := Q(k, SleepQ);
    if s != [] && s[0] < |k.state| && Due(k.ticks, k.wake[s[0]]) {
      var k1 := WakeSleeper(k, s[0]);
      assert SameQueue(k, k1, m);
      WakeQueues(k1, m);
    }
  }

  /** k with the running task blocked on x, before the raise. */
  function Joined(k: K, x: Mid): K
    requires Wf(k) && k.current.Some?
  {
    var c := k.current.value;
    Enqueue(k.(state := k.state[c := Blocked], wait := k.wait[c := OnMutex(x)]), MutexQ(x), c)
  }

  lemma JoinedStruct(k: K, x: Mid)
    requires Struct(k) && RunningNow(k) && x < |k.owner|
    ensures Struct(Joined(k, x)) && Joined(k, x).eff == k.eff && |Joined(k, x).state| == |k.state|
  {
    var c := k.current.value;
    EnqueueStruct(k, k.(state := k.state[c := Blocked], wait := k.wait[c := OnMutex(x)]), MutexQ(x), c);
  }

  lemma JoinedQueue(k: K, x: Mid, m: Mid)
    requires Wf(k) && k.current.Some?
    ensures Q(Joined(k, x), MutexQ(m))
            == if x == m then Insert(Q(k, MutexQ(m)), k.eff, k.current.value) else Q(k, MutexQ(m))
  {
  }

  lemma LockIs(k: K, x: Mid)
    requires Wf(k) && RunningNow(k) && x < |k.owner| && k.owner[x].Some? && k.owner[x] != k.current && Wf(Joined(k, x))
    ensures Lock(k, x).0 == Raise(Joined(k, x), k.owner[x].value, k.eff[k.current.value])
  {
  }

  /** What the raise inside a lock leaves in order. */
  lemma RaisedOrder(k: K, x: Mid, m: Mid, a: Tid, b: Tid)
    requires Struct(k) && RunningNow(k) && x < |k.owner| && k.owner[x].Some? && k.owner[x] != k.current
    requires a < |k.state| && b < |k.state| && Precedes(Q(Joined(k, x), MutexQ(m)), a, b)
    requires Lock(k, x).0.eff[a] == k.eff[a] && Lock(k, x).0.eff[b] == k.eff[b]
    ensures Precedes(Q(Lock(k, x).0, MutexQ(m)), a, b)
  {
    JoinedStruct(k, x);
    LockIs(k, x);
    RaiseOrder(Joined(k, x), k.owner[x].value, k.eff[k.current.value], m, a, b);
  }

  lemma LockOrder(k: K, x: Mid, m: Mid, a: Tid, b: Tid)
    requires Inv(k) && RunningNow(k) && x < |k.owner| && a < |k.state| && b < |k.state|
    requires Precedes(Q(k, MutexQ(m)), a, b) && StillWaiting(k, Lock(k, x).0, m, a, b)
    ensures Precedes(Q(Lock(k, x).0, MutexQ(m)), a, b)
  {
    if k.owner[x].Some? && k.owner[x] != k.current {
      JoinedQueue(k, x, m);
      if x == m {
        InsertKeepsOrder(Q(k, MutexQ(m)), k.eff, k.current.value, a, b);
      }
      RaisedOrder(k, x, m, a, b);
    }
  }

  lemma UnlockOrder(k: K, x: Mid, f: bool, m: Mid, a: Tid, b: Tid)
    requires Struct(k) && k.current.Some? && x < |k.owner| && a < |k.state| && b < |k.state|
    requires Precedes(Q(k, MutexQ(m)), a, b)
    requires MutexWait(Unlock(k, x, f).0, a) == Some(m) && MutexWait(Unlock(k, x, f).0, b) == Some(m)
    ensures Precedes(Q(Unlock(k, x, f).0, MutexQ(m)), a, b)
  {
    var w := Q(k, MutexQ(x));
    if k.owner[x] == k.current && w != [] {
      HeadPlace(k, MutexQ(x));
      GiveQueues(k, x, w[0], m);
      if x == m {
        assert Distinct(At(k.queue, MutexQ(m)));
        RemoveKeepsOrder(w, w[0], a, b);
      }
    }
  }

  lemma GiveQueues(k: K, x: Mid, n: Tid, m: Mid)
    requires Wf(k) && x < |k.owner| && n < |k.state|
    ensures Q(GiveTo(k, x, n), MutexQ(m)) == if x == m then Remove(Q(k, MutexQ(m)), n) else Q(k, MutexQ(m))
    ensures GiveTo(k, x, n).state[n] == Ready
  {
  }

  lemma StepOrder(k: K, s: Step, f: bool, m: Mid, a: Tid, b: Tid)
    requires Inv(k) && Enabled(k, s, f) && Wf(Apply(k, s, f)) && a < |k.state| && b < |k.state|
    requires Precedes(Q(k, MutexQ(m)), a, b) && StillWaiting(k, Apply(k, s, f), m, a, b)
    ensures Precedes(Q(Apply(k, s, f), MutexQ(m)), a, b)
  {
    match s
    case DoLock(x) => LockOrder(k, x, m, a, b);
    case DoUnlock(x) => UnlockOrder(k, x, f, m, a, b);
    case DoExit =>
      var c := k.current.value;
      if k.owned[c] != [] {
        ExitReleasing(k);
        UnlockOrder(k.(state := k.state[c := Finished]), k.owned[c][0], f, m, a, b);
      }
    case _ => OtherQueues(k, s, f, m);
  }

  /** The remaining steps leave mutex queues alone. */
  lemma OtherQueues(k: K, s: Step, f: bool, m: Mid)
    requires Wf(k) && Called(k, s) && !s.DoLock? && !s.DoUnlock? && !s.DoExit?
    ensures SameQueue(k, Apply(k, s, f), m)
  {
    match s
    case DoTick => WakeQueues(k.(ticks := Add32(k.ticks, 1)), m);
    case _ =>
  }

  // ---- whole runs ----

  /** A run during which a and b keep waiting on m at unchanged priorities. */
  ghost predicate WaitRuns(k: K, steps: seq<Step>, f: bool, m: Mid, a: Tid, b: Tid, k1: K)
    requires Wf(k) && a < |k.state| && b < |k.state|
    decreases |steps|
  {
    if steps == [] then k1 == k
    else
      Enabled(k, steps[0], f)
      && var k2 := Apply(k, steps[0], f);
         Wf(k2) && StillWaiting(k, k2, m, a, b) && WaitRuns(k2, steps[1..], f, m, a, b, k1)
  }

  /** A task that joins the queue goes behind every waiter at least as good whom its
      own arrival does not lift. */
  lemma QueuesBehind(k: K, m: Mid, a: Tid)
    requires Inv(k) && RunningNow(k) && m < |k.owner| && a < |k.state| && MutexWait(k, a) == Some(m)
    requires k.owner[m] != k.current
    requires var b := k.current.value;
             k.eff[a] <= k.eff[b] && Wf(Lock(k, m).0) && StillWaiting(k, Lock(k, m).0, m, a, b)
    ensures Precedes(Q(Lock(k, m).0, MutexQ(m)), a, k.current.value)
  {
    var b := k.current.value;
    WaiterQueued(k, m, a);
    InsertBehind(Q(k, MutexQ(m)), k.eff, a, b);
    JoinedQueue(k, m, m);
    RaisedOrder(k, m, m, a, b);
  }

  lemma WaiterQueued(k: K, m: Mid, a: Tid)
    requires Inv(k) && a < |k.state| && MutexWait(k, a) == Some(m)
    ensures a in Q(k, MutexQ(m)) && Sorted(Q(k, MutexQ(m)), k.eff) && k.owner[m].Some?
  {
    assert Homes(k)[a] == Some(MutexQ(m));
    assert a in At(k.queue, MutexQ(m));
    assert Sorted(At(k.queue, MutexQ(m)), KeyFor(k.eff, k.wake, MutexQ(m)));
    assert Holder(k, a).Some?;
  }

  /** First in, first out: over every run in which both keep waiting at unchanged
      priorities, the task that stands first keeps standing first, and no unlock
      hands the mutex to the other one. */
  lemma {:induction false} EarlierServedFirst(k: K, steps: seq<Step>, f: bool, m: Mid, a: Tid, b: Tid, k1: K, g: bool)
    requires Inv(k) && a < |k.state| && b < |k.state| && m < |k.owner| && Precedes(Q(k, MutexQ(m)), a, b)
    requires WaitRuns(k, steps, f, m, a, b, k1)
    ensures Inv(k1) && Precedes(Q(k1, MutexQ(m)), a, b)
    ensures m < |k1.owner| && (RunningNow(k1) && k1.owner[m] == k1.current ==> Unlock(k1, m, g).0.owner[m] != Some(b))
    decreases |steps|
  {
    if steps == [] {
      if RunningNow(k) && k.owner[m] == k.current {
        UnlockHandsToBest(k, m, g);
        assert Distinct(At(k.queue, MutexQ(m)));
        FirstIsNot(Q(k, MutexQ(m)), a, b);
      }
    } else {
      var k2 := Apply(k, steps[0], f);
      StepInv(k, steps[0], f);
      StepOrder(k, steps[0], f, m, a, b);
      WaitsInRange(k2, m, a);
      EarlierServedFirst(k2, steps[1..], f, m, a, b, k1, g);
    }
  }

  lemma FirstIsNot(s: seq<Tid>, a: Tid, b: Tid)
    requires Distinct(s) && Precedes(s, a, b)
    ensures s != [] && s[0] != b
  {
  }

  lemma WaitsInRange(k: K, m: Mid, a: Tid)
    requires Wf(k) && a < |k.state| && MutexWait(k, a) == Some(m)
    ensures m < |k.owner|
  {
  }
}
