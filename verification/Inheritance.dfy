/** Priority inheritance: the raise along a chain of blocked owners, of any
    shape, re-establishes the exact equation and keeps every list in order. */
module Inheritance {
  import opened Queues
  import opened KernelState
  import opened KernelInvariant

  // ---- list order under a raise ----

  lemma OrderEffElsewhere(queue: map<QueueRef, seq<Tid>>, eff: seq<nat>, wake: seq<nat>, t: Tid, p: nat)
    requires OrderOk(queue, eff, wake) && t < |eff|
    requires forall q :: t in At(queue, q) ==> q.SemQ? || q.SleepQ?
    ensures OrderOk(queue, eff[t := p], wake)
  {
    forall q {:trigger Sorted(At(queue, q), KeyFor(eff[t := p], wake, q))}
      ensures Sorted(At(queue, q), KeyFor(eff[t := p], wake, q))
    {
      assert Sorted(At(queue, q), KeyFor(eff, wake, q));
      if t !in At(queue, q) {
        SortedSame(At(queue, q), KeyFor(eff, wake, q), KeyFor(eff[t := p], wake, q), t);
      }
    }
  }

  lemma EffElsewhere(k: K, t: Tid, p: nat)
    requires Struct(k) && t < |k.state|
    requires Place(k, t).None? || Place(k, t).value.SemQ? || Place(k, t).value.SleepQ?
    ensures Struct(k.(eff := k.eff[t := p]))
  {
    forall q | t in At(k.queue, q) ensures q.SemQ? || q.SleepQ? {
      assert Homes(k)[t] == Some(q);
    }
    OrderEffElsewhere(k.queue, k.eff, k.wake, t, p);
    assert Homes(k.(eff := k.eff[t := p])) == Homes(k);
  }

  /** Taking a list member out and putting it back under a new priority. */
  lemma Requeue(k: K, q: QueueRef, t: Tid, p: nat)
    requires Struct(k) && t < |k.state| && Place(k, t) == Some(q)
    ensures Struct(Enqueue(Dequeue(k.(eff := k.eff[t := p]), q, t), q, t))
  {
    var k1 := k.(eff := k.eff[t := p], state := k.state[t := Suspended]);
    DequeueStruct(k, k1, q, t);
    var k2 := Dequeue(k1, q, t);
    var k3 := k2.(state := k.state);
    assert k3.state[t] == k.state[t];
    EnqueueStruct(k2, k3, q, t);
    assert k3 == Dequeue(k.(eff := k.eff[t := p]), q, t);
  }

  lemma RaiseOneStruct(k: K, t: Tid, p: nat)
    requires Struct(k) && t < |k.state|
    ensures Struct(RaiseOne(k, t, p))
  {
    match Place(k, t)
    case Some(ReadyQ) => Requeue(k, ReadyQ, t, p);
    case Some(MutexQ(m)) => Requeue(k, MutexQ(m), t, p);
    case _ => EffElsewhere(k, t, p);
  }

  /** Every hop of the raise keeps all lists placed, sorted and duplicate-free. */
  lemma {:induction false} RaiseStruct(k: K, t: Tid, p: nat)
    requires Struct(k) && t < |k.state|
    ensures Struct(Raise(k, t, p))
    decreases Above(k.eff, p)
  {
    if k.eff[t] > p {
      AboveDrops(k.eff, t, p);
      RaiseOneStruct(k, t, p);
      match Holder(k, t)
      case None =>
      case Some(o) => RaiseStruct(RaiseOne(k, t, p), o, p);
    }
  }

  // ---- the exact equation under a raise ----

  ghost predicate NoSelfWait(k: K)
    requires Wf(k)
  {
    forall w: nat :: !WaitsFor(k, w, w)
  }

  /** The state in which the raise reaches t: some waiter of t has priority p,
      and every other task's equation holds. */
  ghost predicate PendingAt(k: K, t: Tid, p: nat)
    requires Wf(k) && t < |k.state|
  {
    && (forall u :: 0 <= u < |k.state| && u != t ==> ExactAt(k, u))
    && k.eff[t] <= k.base[t]
    && (exists w: nat :: WaitsFor(k, w, t) && k.eff[w] == p)
    && (forall w: nat :: WaitsFor(k, w, t) ==> k.eff[w] >= p || k.eff[w] >= k.eff[t])
    && (k.eff[t] <= p ==> ExactAt(k, t))
  }

  lemma ExactSame(k: K, k1: K, t: Tid)
    requires Wf(k) && t < |k.state| && ExactAt(k, t)
    requires k1 == k.(queue := k1.queue)
    ensures ExactAt(k1, t)
  {
    assert forall w: nat :: WaitsFor(k1, w, t) <==> WaitsFor(k, w, t);
  }

  lemma PendingSame(k: K, k1: K, t: Tid, p: nat)
    requires Wf(k) && t < |k.state| && PendingAt(k, t, p)
    requires k1 == k.(queue := k1.queue)
    ensures PendingAt(k1, t, p)
  {
    assert forall w: nat :: WaitsFor(k1, w, t) <==> WaitsFor(k, w, t);
    forall u | 0 <= u < |k.state| && (u != t || k.eff[t] <= p) ensures ExactAt(k1, u) {
      ExactSame(k, k1, u);
    }
  }

  /** A task t does not wait for keeps its equation when t's priority changes. */
  lemma ExactOther(k: K, t: Tid, p: nat, u: Tid)
    requires Wf(k) && t < |k.state| && u < |k.state| && u != t
    requires ExactAt(k, u) && Holder(k, t) != Some(u)
    ensures ExactAt(k.(eff := k.eff[t := p]), u)
  {
    var k1 := k.(eff := k.eff[t := p]);
    assert forall w: nat :: WaitsFor(k1, w, u) <==> WaitsFor(k, w, u);
    if k.eff[u] != k.base[u] {
      var w: nat :| WaitsFor(k, w, u) && k.eff[w] == k.eff[u];
      assert WaitsFor(k1, w, u) && k1.eff[w] == k1.eff[u];
    }
  }

  /** At the task itself the raise establishes the equation. */
  lemma ExactHere(k: K, t: Tid, p: nat)
    requires Wf(k) && NoSelfWait(k) && t < |k.state|
    requires PendingAt(k, t, p) && k.eff[t] > p
    ensures ExactAt(k.(eff := k.eff[t := p]), t)
  {
    var k1 := k.(eff := k.eff[t := p]);
    assert forall w: nat :: WaitsFor(k1, w, t) <==> WaitsFor(k, w, t);
    assert !WaitsFor(k, t, t);
    var w: nat :| WaitsFor(k, w, t) && k.eff[w] == p;
    assert WaitsFor(k1, w, t) && k1.eff[w] == p;
  }

  /** The owner t itself waits for becomes the pending one. */
  lemma PendingNext(k: K, t: Tid, p: nat, o: Tid)
    requires Wf(k) && t < |k.state| && o < |k.state| && o != t
    requires ExactAt(k, o) && Holder(k, t) == Some(o) && k.eff[t] > p
    ensures var k1 := k.(eff := k.eff[t := p]);
            && k1.eff[o] <= k1.base[o]
            && (exists w: nat :: WaitsFor(k1, w, o) && k1.eff[w] == p)
            && (forall w: nat :: WaitsFor(k1, w, o) ==> k1.eff[w] >= p || k1.eff[w] >= k1.eff[o])
            && (k1.eff[o] <= p ==> ExactAt(k1, o))
  {
    var k1 := k.(eff := k.eff[t := p]);
    assert forall w: nat :: WaitsFor(k1, w, o) <==> WaitsFor(k, w, o);
    assert WaitsFor(k, t, o) && k1.eff[t] == p;
    if k1.eff[o] <= p && k.eff[o] != k.base[o] {
      var w: nat :| WaitsFor(k, w, o) && k.eff[w] == k.eff[o];
      assert w != t && k1.eff[w] == k1.eff[o];
    }
  }

  lemma RaiseHop(k: K, t: Tid, p: nat)
    requires Wf(k) && NoSelfWait(k) && t < |k.state|
    requires PendingAt(k, t, p) && k.eff[t] > p
    ensures var k1 := k.(eff := k.eff[t := p]);
            match Holder(k, t)
            case None => Exact(k1)
            case Some(o) => PendingAt(k1, o, p)
  {
    var k1 := k.(eff := k.eff[t := p]);
    ExactHere(k, t, p);
    forall u | 0 <= u < |k.state| && u != t && Holder(k, t) != Some(u) ensures ExactAt(k1, u) {
      ExactOther(k, t, p, u);
    }
    match Holder(k, t)
    case None =>
    case Some(o) =>
      assert WaitsFor(k, t, o);
      PendingNext(k, t, p, o);
  }

  /** The same hop, with the task moved inside its list as well. */
  lemma RaiseOneHop(k: K, t: Tid, p: nat)
    requires Wf(k) && NoSelfWait(k) && t < |k.state|
    requires PendingAt(k, t, p) && k.eff[t] > p
    ensures var k1 := RaiseOne(k, t, p);
            Wf(k1) && NoSelfWait(k1) && match Holder(k, t)
            case None => Exact(k1)
            case Some(o) => PendingAt(k1, o, p)
  {
    RaiseHop(k, t, p);
    var ke, k1 := k.(eff := k.eff[t := p]), RaiseOne(k, t, p);
    assert k1 == ke.(queue := k1.queue);
    GraphSame(k, k1);
    match Holder(k, t)
    case None => AllExactSame(ke, k1);
    case Some(o) => PendingSame(ke, k1, o, p);
  }

  lemma GraphSame(k: K, k1: K)
    requires Wf(k) && NoSelfWait(k) && k1 == k.(eff := k1.eff, queue := k1.queue) && |k1.eff| == |k.eff|
    ensures Wf(k1) && NoSelfWait(k1)
  {
    assert forall w: nat :: WaitsFor(k1, w, w) ==> WaitsFor(k, w, w);
  }

  lemma AllExactSame(k: K, k1: K)
    requires Wf(k) && Exact(k) && k1 == k.(queue := k1.queue)
    ensures Exact(k1)
  {
    forall u | 0 <= u < |k.state| ensures ExactAt(k1, u) {
      ExactSame(k, k1, u);
    }
  }

  /** Whatever the shape of the wait-for graph, cycles included, the raise ends
      with the exact equation everywhere. */
  lemma {:induction false} RaiseExact(k: K, t: Tid, p: nat)
    requires Wf(k) && NoSelfWait(k) && t < |k.state| && PendingAt(k, t, p)
    ensures Exact(Raise(k, t, p))
    decreases Above(k.eff, p)
  {
    if k.eff[t] > p {
      AboveDrops(k.eff, t, p);
      RaiseOneHop(k, t, p);
      match Holder(k, t)
      case None =>
      case Some(o) => RaiseExact(RaiseOne(k, t, p), o, p);
    }
  }

  /** r is e with some entries above p lowered to p. */
  ghost predicate Lifted(e: seq<nat>, r: seq<nat>, p: nat) {
    |r| == |e| && forall u {:trigger r[u]} :: 0 <= u < |e| ==> r[u] == e[u] || r[u] == p < e[u]
  }

  lemma LiftedHop(e: seq<nat>, t: Tid, p: nat, r: seq<nat>)
    requires t < |e| && e[t] > p && Lifted(e[t := p], r, p)
    ensures Lifted(e, r, p) && r[t] == p
  {
  }

  /** A raise never weakens a task, and lifts no task beyond p. */
  lemma {:induction false} RaiseMonotone(k: K, t: Tid, p: nat)
    requires Wf(k) && t < |k.state|
    ensures Lifted(k.eff, Raise(k, t, p).eff, p) && Raise(k, t, p).eff[t] <= p
    decreases Above(k.eff, p)
  {
    if k.eff[t] > p {
      AboveDrops(k.eff, t, p);
      var k1 := RaiseOne(k, t, p);
      match Holder(k, t)
      case None =>
      case Some(o) =>
        RaiseMonotone(k1, o, p);
        LiftedHop(k.eff, t, p, Raise(k1, o, p).eff);
    }
  }
}
