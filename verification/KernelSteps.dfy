/** Every kernel entry keeps the invariant. */
module KernelSteps {
  import opened Queues
  import opened KernelState
  import opened KernelInvariant
  import opened Inheritance

  // ---- steps that do not touch the wait-for graph ----

  /** Same priorities, owners and mutex waits; no task falls dormant. */
  ghost predicate SameGraph(k: K, k1: K)
    requires Wf(k) && Wf(k1)
  {
    && |k1.state| == |k.state| && k1.base == k.base && k1.eff == k.eff && k1.owner == k.owner && k1.owned == k.owned
    && (forall t :: 0 <= t < |k.state| ==> MutexWait(k1, t) == MutexWait(k, t))
    && (forall t :: 0 <= t < |k.state| && k1.state[t] in {Unused, Finished} ==> k1.state[t] == k.state[t])
  }

  lemma GraphKeeps(k: K, k1: K)
    requires Wf(k) && Wf(k1) && SameGraph(k, k1) && Owners(k) && Dormant(k)
    ensures Owners(k1) && Dormant(k1) && (Exact(k) ==> Exact(k1))
  {
    forall w | 0 <= w < |k.state| ensures Holder(k1, w) == Holder(k, w) {
      assert MutexWait(k1, w) == MutexWait(k, w);
    }
    if Exact(k) {
      forall t | 0 <= t < |k.state| ensures ExactAt(k1, t) {
        assert ExactAt(k, t);
        assert forall w: nat :: WaitsFor(k1, w, t) <==> WaitsFor(k, w, t);
      }
    }
  }

  /** Queueing a task that is in no list. */
  lemma PutFresh(k: K, k1: K, t: Tid)
    requires Struct(k) && Wf(k1) && SameBut(k, k1, t) && Place(k, t).None?
    requires k1.state[t] !in {Finished, Blocked, Sleeping}
    ensures Struct(Put(k1, t))
  {
    var k2 := k1.(state := k1.state[t := Ready]);
    EnqueueStruct(k, k2, ReadyQ, t);
    assert Homes(k)[t].None?;
    assert t !in At(k.queue, ReadyQ);
    assert Put(k1, t) == Enqueue(k2, ReadyQ, t);
  }

  lemma PutReady(k: K, t: Tid)
    requires Struct(k) && t < |k.state| && k.state[t] == Ready
    ensures Struct(Put(k, t))
  {
    Requeue(k, ReadyQ, t, k.eff[t]);
    assert k.eff[t := k.eff[t]] == k.eff && k.state[t := Ready] == k.state;
    assert k.(eff := k.eff) == k.(state := k.state) == k;
  }

  lemma PutStruct(k: K, t: Tid)
    requires Struct(k) && t < |k.state|
    ensures Struct(Put(k, t))
  {
    if k.state[t] == Ready {
      PutReady(k, t);
    } else if k.state[t] !in {Finished, Blocked, Sleeping} {
      assert SameBut(k, k, t);
      PutFresh(k, k, t);
    }
  }

  lemma PutInv(k: K, t: Tid)
    requires Inv(k) && t < |k.state| && k.state[t] != Unused
    ensures Inv(Put(k, t))
  {
    PutStruct(k, t);
    GraphKeeps(k, Put(k, t));
  }

  /** Moving the head of a list to the ready queue. */
  lemma WakeStruct(k: K, k1: K, q: QueueRef, t: Tid)
    requires Struct(k) && Wf(k1) && SameBut(k, k1, t) && Place(k, t) == Some(q) && k1.state[t] == Ready
    ensures Struct(Put(Dequeue(k1, q, t), t))
  {
    var ks := k1.(state := k1.state[t := Suspended]);
    DequeueStruct(k, ks, q, t);
    PutFresh(Dequeue(ks, q, t), Dequeue(k1, q, t), t);
  }

  lemma HeadPlace(k: K, q: QueueRef)
    requires Struct(k) && Q(k, q) != []
    ensures Q(k, q)[0] < |k.state| && Place(k, Q(k, q)[0]) == Some(q)
    ensures Remove(Q(k, q), Q(k, q)[0]) == Q(k, q)[1..]
  {
    var t := Q(k, q)[0];
    assert t in At(k.queue, q);
    assert Homes(k)[t] == Some(q);
  }

  /** Dispatching the head of the ready queue while no task is running. */
  lemma DispatchInv(k: K, k1: K)
    requires Inv(k) && Q(k, ReadyQ) != [] && Q(k, ReadyQ)[0] < |k.state|
    requires forall t :: 0 <= t < |k.state| ==> k.state[t] != Running
    requires var t := Q(k, ReadyQ)[0];
             k1 == k.(queue := k.queue[ReadyQ := Q(k, ReadyQ)[1..]], state := k.state[t := Running], current := Some(t))
    ensures Inv(k1)
  {
    var t := Q(k, ReadyQ)[0];
    HeadPlace(k, ReadyQ);
    DequeueStruct(k, k.(state := k.state[t := Running], current := Some(t)), ReadyQ, t);
    GraphKeeps(k, k1);
  }

  lemma SelectInv(k: K)
    requires Inv(k)
    ensures Inv(Select(k))
  {
    var k1 := PutCurrent(k);
    if k.current.Some? {
      PutInv(k, k.current.value);
    }
    if Q(k1, ReadyQ) != [] {
      HeadPlace(k1, ReadyQ);
      DispatchInv(k1, Select(k));
    }
  }

  lemma SemWaitInv(k: K, s: Sid)
    requires Inv(k) && s < |k.count| && k.current.Some? && k.state[k.current.value] == Running
    ensures Inv(SemWait(k, s).0)
  {
    var t := k.current.value;
    var k1 := SemWait(k, s).0;
    if k.open[s] && k.count[s] == 0 {
      EnqueueStruct(k, k.(state := k.state[t := Blocked], wait := k.wait[t := OnSem(s)]), SemQ(s), t);
    } else {
      assert Homes(k1) == Homes(k);
    }
    GraphKeeps(k, k1);
  }

  lemma WakeInv(k: K, k1: K, q: QueueRef, t: Tid)
    requires Inv(k) && t < |k.state| && Place(k, t) == Some(q) && !q.MutexQ? && |k1.wait| == |k.wait|
    requires k1 == k.(state := k.state[t := Ready], wait := k1.wait)
    requires (k1.wait == k.wait || k1.wait == k.wait[t := NoWait])
    ensures Inv(Put(Dequeue(k1, q, t), t))
  {
    var r := Put(Dequeue(k1, q, t), t);
    WakeStruct(k, k1, q, t);
    assert r.state == k1.state && r == k1.(queue := r.queue);
    WakeGraph(k, r, t);
  }

  lemma WakeGraph(k: K, r: K, t: Tid)
    requires Inv(k) && t < |k.state| && MutexWait(k, t).None? && Wf(r)
    requires (r.wait == k.wait || r.wait == k.wait[t := NoWait])
    requires r == k.(state := k.state[t := Ready], wait := r.wait, queue := r.queue) && k.state[t] != Unused
    ensures OneRunning(r) && Owners(r) && Dormant(r) && Exact(r)
  {
    assert forall u :: 0 <= u < |k.state| ==> MutexWait(r, u) == MutexWait(k, u);
    GraphKeeps(k, r);
  }

  lemma WakeHeadInv(k: K, q: QueueRef, t: Tid)
    requires Inv(k) && t < |k.state| && Place(k, t) == Some(q) && q.SemQ?
    ensures Inv(WakeHead(k, q, t))
  {
    var k1 := k.(state := k.state[t := Ready], wait := k.wait[t := NoWait]);
    assert Dequeue(k, q, t).(state := k1.state, wait := k1.wait) == Dequeue(k1, q, t);
    WakeInv(k, k1, q, t);
  }

  lemma SemPostInv(k: K, s: Sid)
    requires Inv(k) && s < |k.count|
    ensures Inv(SemPost(k, s).0)
  {
    var w := Q(k, SemQ(s));
    if k.open[s] && w != [] {
      HeadPlace(k, SemQ(s));
      WakeHeadInv(k, SemQ(s), w[0]);
    } else {
      var k1 := SemPost(k, s).0;
      assert Homes(k1) == Homes(k);
      GraphKeeps(k, k1);
    }
  }

  lemma SleepUntilInv(k: K, t: Tid, w: nat)
    requires Inv(k) && t < |k.state| && k.state[t] == Running
    ensures Inv(Enqueue(k.(state := k.state[t := Sleeping], wake := k.wake[t := w]), SleepQ, t))
  {
    var k1 := k.(state := k.state[t := Sleeping], wake := k.wake[t := w]);
    EnqueueStruct(k, k1, SleepQ, t);
    GraphKeeps(k, Enqueue(k1, SleepQ, t));
  }

  lemma SleepForInv(k: K, n: nat)
    requires Inv(k)
    ensures Inv(SleepFor(k, n))
  {
    if n != 0 && k.current.Some? && k.state[k.current.value] == Running {
      SleepUntilInv(k, k.current.value, Add32(k.ticks, n));
    }
  }

  lemma WakeSleeperInv(k: K, t: Tid)
    requires Inv(k) && t < |k.state| && k.state[t] == Sleeping
    ensures Inv(WakeSleeper(k, t))
  {
    var k1 := k.(state := k.state[t := Ready]);
    assert k.(queue := k.queue[SleepQ := Remove(Q(k, SleepQ), t)], state := k.state[t := Ready])
           == Dequeue(k1, SleepQ, t);
    WakeInv(k, k1, SleepQ, t);
  }

  lemma {:induction false} WakeDueInv(k: K)
    requires Inv(k)
    ensures Inv(WakeDue(k))
    decreases |Q(k, SleepQ)|
  {
    var s := Q(k, SleepQ);
    if s != [] && Due(k.ticks, Key(k.wake, s[0])) {
      HeadPlace(k, SleepQ);
      WakeSleeperInv(k, s[0]);
      WakeDueInv(WakeSleeper(k, s[0]));
    }
  }

  lemma TickInv(k: K)
    requires Inv(k)
    ensures Inv(Tick(k))
  {
    var k1 := k.(ticks := Add32(k.ticks, 1));
    assert Homes(k1) == Homes(k);
    GraphKeeps(k, k1);
    WakeDueInv(k1);
  }

  lemma CreateInv(k: K, priority: nat)
    requires Inv(k)
    ensures Inv(Create(k, priority))
  {
    match FreeSlot(k.state, 0)
    case None =>
    case Some(t) =>
      var k1 := k.(state := k.state[t := Ready], base := k.base[t := priority], eff := k.eff[t := priority],
                   owned := k.owned[t := []], wait := k.wait[t := NoWait], wake := k.wake[t := 0]);
      PutFresh(k, k1, t);
      CreateGraph(k, k1, t);
      var r := Put(k1, t);
      assert r == k1.(queue := r.queue, state := k1.state[t := Ready]) && k1.state[t := Ready] == k1.state;
      GraphKeeps(k1, r);
  }

  /** A slot taken from the pool owns nothing, so nobody waits for it. */
  lemma CreateGraph(k: K, k1: K, t: Tid)
    requires Inv(k) && t < |k.state| && k.state[t] in {Unused, Finished} && Wf(k1)
    requires k1 == k.(state := k.state[t := Ready], base := k1.base, eff := k1.eff, owned := k.owned,
                      wait := k.wait[t := NoWait], wake := k1.wake)
    requires SameKeys(k.base, k1.base, t) && SameKeys(k.eff, k1.eff, t) && k1.eff[t] == k1.base[t]
    ensures Owners(k1) && Dormant(k1) && Exact(k1)
  {
    forall w | 0 <= w < |k.state| ensures Holder(k1, w) == Holder(k, w) && Holder(k, w) != Some(t) {
      assert k.owned[t] == [];
      assert k.wait[w].OnMutex? ==> k.wait[w].mutex !in k.owned[t];
    }
    forall u | 0 <= u < |k.state| ensures ExactAt(k1, u) {
      assert ExactAt(k, u);
      assert forall w: nat :: WaitsFor(k1, w, u) <==> WaitsFor(k, w, u);
      if u != t && k.eff[u] != k.base[u] {
        var w: nat :| WaitsFor(k, w, u) && k.eff[w] == k.eff[u];
        assert w != t;
      }
    }
  }
}
