/** How long a ready task can be passed over. */
module BoundedWait {
  import opened Queues
  import opened KernelState
  import opened KernelInvariant
  import opened KernelSteps
  import opened Unlocking
  import opened KernelRuns
  import opened KernelTiming

  /** How many tasks stand before t. */
  function Pos(s: seq<Tid>, t: Tid): (p: nat)
    ensures p <= |s|
    ensures t in s ==> p < |s| && s[p] == t
  {
    if s == [] || s[0] == t then 0 else 1 + Pos(s[1..], t)
  }

  lemma PosIs(s: seq<Tid>, t: Tid, i: nat)
    requires Distinct(s) && i < |s| && s[i] == t
    ensures Pos(s, t) == i
  {
  }

  /** Removing another task never moves t back. */
  lemma {:induction false} PosRemove(s: seq<Tid>, t: Tid, x: Tid)
    requires t in s && x != t
    ensures t in Remove(s, x) && Pos(Remove(s, x), t) <= Pos(s, t)
  {
    if s[0] != t && s[0] != x {
      PosRemove(s[1..], t, x);
      assert ([s[0]] + Remove(s[1..], x))[1..] == Remove(s[1..], x);
    }
  }

  /** A newcomer that is no better queues up behind t. */
  lemma {:induction false} PosInsert(s: seq<Tid>, key: seq<nat>, t: Tid, x: Tid)
    requires Distinct(s) && Sorted(s, key) && t in s && x !in s && Key(key, x) >= Key(key, t)
    ensures t in Insert(s, key, x) && Pos(Insert(s, key, x), t) == Pos(s, t)
  {
    InsertMembers(s, key, x);
    var i, p := Pos(s, t), Slot(s, key, Key(key, x));
    assert forall j :: 0 <= j <= i ==> Key(key, s[j]) <= Key(key, s[i]);
    assert i < p;
    InsertIndex(s, p, x, Insert(s, key, x));
    PosIs(Insert(s, key, x), t, i);
  }

  /** One ready-queue insertion of a task that is no better than t. */
  lemma RequeuePos(s: seq<Tid>, key: seq<nat>, t: Tid, x: Tid)
    requires Distinct(s) && Sorted(Remove(s, x), key) && t in s && x != t && Key(key, x) >= Key(key, t)
    ensures t in Insert(Remove(s, x), key, x) && Pos(Insert(Remove(s, x), key, x), t) <= Pos(s, t)
  {
    RemoveKeeps(s, x);
    PosRemove(s, t, x);
    PosInsert(Remove(s, x), key, t, x);
  }

  lemma ReadyList(k: K, t: Tid)
    requires Struct(k) && t < |k.state| && k.state[t] == Ready
    ensures var s := Q(k, ReadyQ); Distinct(s) && Sorted(s, k.eff) && t in s
    ensures forall u: nat :: u in Q(k, ReadyQ) <==> u < |k.state| && k.state[u] == Ready
  {
    assert Distinct(At(k.queue, ReadyQ));
    assert Sorted(At(k.queue, ReadyQ), KeyFor(k.eff, k.wake, ReadyQ));
    forall u: nat | u < |k.state| && k.state[u] == Ready ensures u in At(k.queue, ReadyQ) {
      assert Homes(k)[u] == Some(ReadyQ);
    }
    forall u: nat | u in At(k.queue, ReadyQ) ensures u < |k.state| && k.state[u] == Ready {
      assert Homes(k)[u] == Some(ReadyQ);
    }
  }

  /** The ready queue after a raise: unchanged, or with the one ready task x at
      the end of the chain moved up. */
  ghost predicate MovedUp(k: K, r: K, p: nat, x: Option<Tid>)
    requires |k.eff| == |k.state| == |r.eff|
  {
    && (x.None? ==> Q(r, ReadyQ) == Q(k, ReadyQ))
    && (x.Some? ==> x.value < |k.state| && k.state[x.value] == Ready && k.eff[x.value] > p == r.eff[x.value]
                    && Q(r, ReadyQ) == Insert(Remove(Q(k, ReadyQ), x.value), r.eff, x.value))
    && (forall u :: 0 <= u < |k.state| && k.state[u] == Ready && Some(u) != x ==> r.eff[u] == k.eff[u])
  }

  lemma RaiseOneKeeps(k: K, o: Tid, p: nat)
    requires Wf(k) && o < |k.state|
    ensures var k1 := RaiseOne(k, o, p); Wf(k1) && k1 == k.(eff := k.eff[o := p], queue := k1.queue)
  {
  }

  lemma MovedUpHere(k: K, o: Tid, p: nat)
    requires Wf(k) && o < |k.state| && k.state[o] == Ready && k.eff[o] > p
    ensures MovedUp(k, RaiseOne(k, o, p), p, Some(o))
  {
  }

  lemma MovedUpHop(k: K, o: Tid, p: nat, r: K, x: Option<Tid>)
    requires Wf(k) && Wf(r) && |r.state| == |k.state| && o < |k.state| && k.state[o] != Ready
    requires MovedUp(RaiseOne(k, o, p), r, p, x)
    ensures MovedUp(k, r, p, x)
  {
  }

  lemma {:induction false} RaiseReady(k: K, o: Tid, p: nat) returns (x: Option<Tid>)
    requires Wf(k) && o < |k.state|
    ensures MovedUp(k, Raise(k, o, p), p, x)
    decreases Above(k.eff, p)
  {
    x := None;
    if k.eff[o] > p {
      AboveDrops(k.eff, o, p);
      if k.state[o] == Ready {
        x := Some(o);
        assert Raise(k, o, p) == RaiseOne(k, o, p);
        MovedUpHere(k, o, p);
      } else {
        var k1 := RaiseOne(k, o, p);
        RaiseOneKeeps(k, o, p);
        if Holder(k, o).Some? {
          x := RaiseReady(k1, Holder(k, o).value, p);
        }
        MovedUpHop(k, o, p, Raise(k, o, p), x);
      }
    }
  }

  /** Nothing strictly better than t becomes ready in this step, a running task
      that is requeued included, and t itself is not requeued. */
  ghost predicate NoBetter(k: K, a: Step, f: bool, t: Tid)
    requires Wf(k) && t < |k.state| && Enabled(k, a, f)
  {
    if a.DoSelect? then
      k.current != Some(t)
      && (k.current.Some? && k.state[k.current.value] !in {Finished, Blocked, Sleeping} ==>
          k.eff[k.current.value] >= k.eff[t])
    else
      var k1 := Apply(k, a, f);
      Calm(k, k1, t)
  }

  ghost predicate Calm(k: K, k1: K, t: Tid)
    requires t < |k.state|
  {
    && |k1.state| == |k.state| && |k1.eff| == |k.state| && |k.eff| == |k.state|
    && k1.state[t] == Ready && k1.eff[t] == k.eff[t]
    && (forall u :: 0 <= u < |k.state| && u != t && k1.state[u] == Ready ==>
          (k.state[u] == Ready && k1.eff[u] == k.eff[u]) || k1.eff[u] >= k.eff[t])
  }

  ghost predicate NotBack(k: K, k1: K, t: Tid) {
    t in Q(k1, ReadyQ) && Pos(Q(k1, ReadyQ), t) <= Pos(Q(k, ReadyQ), t)
  }

  lemma LockPos(k: K, m: Mid, t: Tid)
    requires Inv(k) && RunningNow(k) && m < |k.owner| && t < |k.state| && k.state[t] == Ready
    requires Calm(k, Lock(k, m).0, t)
    ensures NotBack(k, Lock(k, m).0, t)
  {
    ReadyList(k, t);
    var c := k.current.value;
    if k.owner[m].Some? && k.owner[m] != k.current {
      var o := k.owner[m].value;
      var k1 := Enqueue(k.(state := k.state[c := Blocked], wait := k.wait[c := OnMutex(m)]), MutexQ(m), c);
      var x := RaiseReady(k1, o, k.eff[c]);
      if x.Some? {
        var r := Raise(k1, o, k.eff[c]);
        SortedAfterRaise(Q(k, ReadyQ), k.eff, r.eff, x.value);
        RequeuePos(Q(k, ReadyQ), r.eff, t, x.value);
      }
    }
  }

  lemma SortedAfterRaise(s: seq<Tid>, a: seq<nat>, b: seq<nat>, x: Tid)
    requires Distinct(s) && Sorted(s, a) && forall u: nat :: u in s && u != x ==> Key(a, u) == Key(b, u)
    ensures Sorted(Remove(s, x), b)
  {
    RemoveKeeps(s, x);
    var r := Remove(s, x);
    forall i, j | 0 <= i < j < |r| ensures Key(b, r[i]) <= Key(b, r[j]) {
      assert r[i] in r && r[j] in r && Key(a, r[i]) <= Key(a, r[j]);
    }
  }

  lemma PostPos(k: K, s: Sid, t: Tid)
    requires Inv(k) && s < |k.count| && t < |k.state| && k.state[t] == Ready && Calm(k, SemPost(k, s).0, t)
    ensures NotBack(k, SemPost(k, s).0, t)
  {
    ReadyList(k, t);
    if k.open[s] && Q(k, SemQ(s)) != [] {
      HeadPlace(k, SemQ(s));
      var x := Q(k, SemQ(s))[0];
      RemoveKeeps(Q(k, ReadyQ), x);
      RequeuePos(Q(k, ReadyQ), k.eff, t, x);
    }
  }

  lemma CreatePos(k: K, p: nat, t: Tid)
    requires Inv(k) && t < |k.state| && k.state[t] == Ready && Calm(k, Create(k, p), t)
    ensures NotBack(k, Create(k, p), t)
  {
    ReadyList(k, t);
    match FreeSlot(k.state, 0)
    case None =>
    case Some(x) =>
      SortedAfterRaise(Q(k, ReadyQ), k.eff, k.eff[x := p], x);
      RequeuePos(Q(k, ReadyQ), k.eff[x := p], t, x);
  }

  lemma ReleasePos(k: K, m: Mid, c: Tid, f: bool, t: Tid)
    requires Releasing(k, m, c) && (f || HandoverOk(k, m, c)) && t < |k.state| && k.state[t] == Ready
    requires Calm(k, Unlock(k, m, f).0, t)
    ensures NotBack(k, Unlock(k, m, f).0, t)
  {
    ReadyList(k, t);
    if Q(k, MutexQ(m)) == [] {
      ReleaseInv(k, m, c, f);
    } else {
      ExitHands(k, m, c, f);
      HandingHead(k, m, c);
      var n := Q(k, MutexQ(m))[0];
      HandInv(k, m, c, n);
      if !f {
        HandSame(k, m, c, n);
      }
      PosInsert(Q(k, ReadyQ), k.eff, t, n);
    }
  }

  lemma WakeQueue(k: K, h: Tid)
    requires Wf(k) && h < |k.state|
    ensures var k1 := WakeSleeper(k, h);
            k1.eff == k.eff && k1.state == k.state[h := Ready]
            && Q(k1, ReadyQ) == Insert(Remove(Q(k, ReadyQ), h), k.eff, h)
  {
    assert k.state[h := Ready][h := Ready] == k.state[h := Ready];
  }

  lemma WakeOnePos(k: K, h: Tid, t: Tid)
    requires Struct(k) && t < |k.state| && k.state[t] == Ready && h < |k.state| && k.state[h] == Sleeping
    requires k.eff[h] >= k.eff[t]
    ensures NotBack(k, WakeSleeper(k, h), t)
  {
    ReadyList(k, t);
    WakeQueue(k, h);
    RemoveKeeps(Q(k, ReadyQ), h);
    RequeuePos(Q(k, ReadyQ), k.eff, t, h);
  }

  /** Sleepers that wake together, none better than t. */
  lemma {:induction false} WakePos(k: K, t: Tid)
    requires Inv(k) && t < |k.state| && k.state[t] == Ready
    requires forall u :: 0 <= u < |k.state| && k.state[u] == Sleeping && WakeDue(k).state[u] == Ready ==>
               k.eff[u] >= k.eff[t]
    ensures NotBack(k, WakeDue(k), t)
    decreases |Q(k, SleepQ)|
  {
    var s := Q(k, SleepQ);
    if s != [] && Due(k.ticks, Key(k.wake, s[0])) {
      WakeFirst(k);
      var k1 := WakeSleeper(k, s[0]);
      WakeDueEffect(k1, s[0]);
      WakeOnePos(k, s[0], t);
      WakePos(k1, t);
    } else {
      ReadyList(k, t);
    }
  }

  lemma {:induction false} WakeDueEff(k: K)
    requires Wf(k)
    ensures WakeDue(k).eff == k.eff
    decreases |Q(k, SleepQ)|
  {
    var s := Q(k, SleepQ);
    if s != [] && s[0] < |k.state| && Due(k.ticks, k.wake[s[0]]) {
      WakeDueEff(WakeSleeper(k, s[0]));
    }
  }

  lemma TickPos(k: K, t: Tid)
    requires Inv(k) && t < |k.state| && k.state[t] == Ready && Calm(k, Tick(k), t)
    ensures NotBack(k, Tick(k), t)
  {
    TickPosTo(k, Add32(k.ticks, 1), t);
  }

  lemma TickPosTo(k: K, n: nat, t: Tid)
    requires Inv(k) && t < |k.state| && k.state[t] == Ready && Calm(k, WakeDue(k.(ticks := n)), t)
    ensures NotBack(k, WakeDue(k.(ticks := n)), t)
  {
    TicksInv(k, n);
    WakeDueEff(k.(ticks := n));
    WakePos(k.(ticks := n), t);
  }

  lemma SelectPos(k: K, t: Tid)
    requires Inv(k) && t < |k.state| && k.state[t] == Ready && NoBetter(k, DoSelect, true, t)
    ensures Select(k).current == Some(t)
            || (t in Q(Select(k), ReadyQ) && Pos(Q(Select(k), ReadyQ), t) < Pos(Q(k, ReadyQ), t))
  {
    ReadyList(k, t);
    var k1 := PutCurrent(k);
    PutCurrentReady(k);
    ReadyList(k1, t);
    if k.current.Some? && k.state[k.current.value] !in {Finished, Blocked, Sleeping} {
      RemoveKeeps(Q(k, ReadyQ), k.current.value);
      RequeuePos(Q(k, ReadyQ), k.eff, t, k.current.value);
    }
    HeadPlace(k1, ReadyQ);
  }

  /** A run during which t stays ready and nothing better comes along. */
  ghost predicate Passed(k: K, steps: seq<Step>, f: bool, t: Tid)
    decreases |steps|
  {
    steps == [] ||
    (Wf(k) && t < |k.state| && k.state[t] == Ready && Enabled(k, steps[0], f) && NoBetter(k, steps[0], f, t)
     && t < |Apply(k, steps[0], f).state| && Apply(k, steps[0], f).state[t] == Ready
     && Passed(Apply(k, steps[0], f), steps[1..], f, t))
  }

  function Dispatches(steps: seq<Step>): nat {
    if steps == [] then 0 else (if steps[0].DoSelect? then 1 else 0) + Dispatches(steps[1..])
  }

  lemma ExitPos(k: K, f: bool, t: Tid)
    requires Inv(k) && RunningNow(k) && ExitOk(k, f) && t < |k.state| && k.state[t] == Ready && Calm(k, Exit(k, f), t)
    ensures NotBack(k, Exit(k, f), t)
  {
    ReadyList(k, t);
    var c := k.current.value;
    if k.owned[c] != [] {
      ExitReleasing(k);
      ReleasePos(k.(state := k.state[c := Finished]), k.owned[c][0], c, f, t);
    }
  }

  lemma StepPos(k: K, a: Step, f: bool, t: Tid)
    requires Inv(k) && t < |k.state| && k.state[t] == Ready && Enabled(k, a, f) && !a.DoSelect? && NoBetter(k, a, f, t)
    ensures NotBack(k, Apply(k, a, f), t)
  {
    ReadyList(k, t);
    match a
    case DoTick => TickPos(k, t);
    case DoPost(s) => PostPos(k, s, t);
    case DoCreate(p) => CreatePos(k, p, t);
    case DoWait(s) =>
    case DoLock(m) => LockPos(k, m, t);
    case DoUnlock(m) =>
      if k.owner[m] == k.current {
        ReleasePos(k, m, k.current.value, f, t);
      }
    case DoSleep(n) =>
    case DoExit => ExitPos(k, f, t);
  }

  /** Bounded waiting: a ready task with i tasks before it is passed over by at
      most i dispatches, so it runs within i + 1 of them. */
  lemma {:induction false} PassedAtMost(k: K, steps: seq<Step>, f: bool, t: Tid)
    requires Inv(k) && t < |k.state| && k.state[t] == Ready && Passed(k, steps, f, t)
    ensures Dispatches(steps) <= Pos(Q(k, ReadyQ), t)
    decreases |steps|
  {
    if steps != [] {
      var k1 := Apply(k, steps[0], f);
      StepInv(k, steps[0], f);
      if steps[0].DoSelect? {
        SelectPos(k, t);
        assert RunningNow(k1) by {
          SelectDispatches(k);
          assert Runnable(k, t);
        }
      } else {
        StepPos(k, steps[0], f, t);
      }
      PassedAtMost(k1, steps[1..], f, t);
    }
  }
}
