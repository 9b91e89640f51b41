/** mutex_lock and mutex_unlock against the invariant. */
module MutexSteps {
  import opened Queues
  import opened KernelState
  import opened KernelInvariant
  import opened Inheritance
  import opened KernelSteps

  // ---- lock ----

  lemma LockFreeInv(k: K, m: Mid)
    requires Inv(k) && m < |k.owner| && k.current.Some? && k.state[k.current.value] == Running && k.owner[m].None?
    ensures Inv(Lock(k, m).0)
  {
    var t, k1 := k.current.value, Lock(k, m).0;
    assert Homes(k1) == Homes(k);
    assert forall u :: 0 <= u < |k.owned| ==> m !in k.owned[u];
    forall w | 0 <= w < |k.state| ensures MutexWait(k1, w) == MutexWait(k, w) && Holder(k1, w) == Holder(k, w) {
    }
    forall u | 0 <= u < |k.state| ensures ExactAt(k1, u) {
      assert ExactAt(k, u);
      assert forall w: nat :: WaitsFor(k1, w, u) <==> WaitsFor(k, w, u);
    }
    assert forall u, x: nat :: 0 <= u < |k.owned| ==> (x in k1.owned[u] <==> x in k.owned[u] || (u == t && x == m));
  }

  /** k1 is k with the running task t blocked on m. */
  lemma BlockGraph(k: K, k1: K, m: Mid, t: Tid, o: Tid)
    requires Inv(k) && t < |k.state| && k.state[t] == Running && m < |k.owner| && k.owner[m] == Some(o) && o != t
    requires k1 == k.(state := k.state[t := Blocked], wait := k.wait[t := OnMutex(m)], queue := k1.queue)
    ensures Wf(k1) && Owners(k1) && Dormant(k1) && PendingAt(k1, o, k.eff[t])
  {
    forall w | 0 <= w < |k.state|
      ensures Holder(k1, w) == (if w == t then Some(o) else Holder(k, w))
      ensures MutexWait(k1, w) == (if w == t then Some(m) else MutexWait(k, w))
    {
    }
    forall u | 0 <= u < |k.state| && u != o ensures ExactAt(k1, u) {
      assert ExactAt(k, u);
      assert forall w: nat :: WaitsFor(k1, w, u) <==> WaitsFor(k, w, u);
    }
    BlockPending(k, k1, t, o);
  }

  lemma BlockPending(k: K, k1: K, t: Tid, o: Tid)
    requires Wf(k) && Wf(k1) && |k1.state| == |k.state| && t < |k.state| && o < |k.state| && o != t
    requires k1.eff == k.eff && k1.base == k.base && ExactAt(k, o) && Holder(k, t).None?
    requires forall w :: 0 <= w < |k.state| ==> Holder(k1, w) == if w == t then Some(o) else Holder(k, w)
    ensures k.eff[o] <= k.eff[t] ==> ExactAt(k1, o)
    ensures exists w: nat :: WaitsFor(k1, w, o) && k1.eff[w] == k.eff[t]
    ensures forall w: nat :: WaitsFor(k1, w, o) ==> k1.eff[w] >= k.eff[t] || k1.eff[w] >= k1.eff[o]
  {
    assert forall w: nat :: WaitsFor(k1, w, o) <==> WaitsFor(k, w, o) || w == t;
    if k.eff[o] != k.base[o] {
      var w: nat :| WaitsFor(k, w, o) && k.eff[w] == k.eff[o];
      assert WaitsFor(k1, w, o);
    }
    assert WaitsFor(k1, t, o);
  }

  /** A raise only moves priorities and list positions. */
  lemma RaiseInv(k: K, o: Tid, p: nat)
    requires Struct(k) && OneRunning(k) && Owners(k) && Dormant(k) && o < |k.state| && PendingAt(k, o, p)
    ensures Inv(Raise(k, o, p))
  {
    RaiseStruct(k, o, p);
    assert NoSelfWait(k);
    RaiseExact(k, o, p);
    var r := Raise(k, o, p);
    assert forall w :: 0 <= w < |k.state| ==> MutexWait(r, w) == MutexWait(k, w) && Holder(r, w) == Holder(k, w);
  }

  /** mutex_lock keeps exact inheritance and every list sorted and duplicate-free. */
  lemma LockInv(k: K, m: Mid)
    requires Inv(k) && m < |k.owner| && k.current.Some? && k.state[k.current.value] == Running
    ensures Inv(Lock(k, m).0)
  {
    var t := k.current.value;
    match k.owner[m]
    case None => LockFreeInv(k, m);
    case Some(o) =>
      if o != t {
        var kb := k.(state := k.state[t := Blocked], wait := k.wait[t := OnMutex(m)]);
        EnqueueStruct(k, kb, MutexQ(m), t);
        var k1 := Enqueue(kb, MutexQ(m), t);
        BlockGraph(k, k1, m, t, o);
        RaiseInv(k1, o, k.eff[t]);
      }
  }

  // ---- recalculation ----

  /** The running minimum is below p and every head, and is one of them. */
  lemma {:induction false} RecalcOverMin(k: K, ms: seq<Mid>, p: nat)
    ensures RecalcOver(k, ms, p) <= p
    ensures forall m :: m in ms ==> RecalcOver(k, ms, p) <= Better(k, m, RecalcOver(k, ms, p))
    ensures RecalcOver(k, ms, p) == p || exists m :: m in ms && RecalcOver(k, ms, p) == Better(k, m, p) < p
  {
    if ms != [] {
      var p1 := Better(k, ms[0], p);
      RecalcOverMin(k, ms[1..], p1);
      var r := RecalcOver(k, ms, p);
      forall m | m in ms ensures r <= Better(k, m, r) {
        assert m == ms[0] || m in ms[1..];
      }
      if r != p {
        if r == p1 {
          assert ms[0] in ms && r == Better(k, ms[0], p);
        } else {
          var m :| m in ms[1..] && r == Better(k, m, p1) < p1;
          assert m in ms && r == Better(k, m, p);
        }
      }
    }
  }

  lemma {:induction false} RecalcSame(k: K, k1: K, ms: seq<Mid>, p: nat)
    requires k1.eff == k.eff && forall m :: m in ms ==> Q(k1, MutexQ(m)) == Q(k, MutexQ(m))
    ensures RecalcOver(k1, ms, p) == RecalcOver(k, ms, p)
  {
    if ms != [] {
      RecalcSame(k, k1, ms[1..], Better(k, ms[0], p));
    }
  }

  /** The head of a mutex's queue is its best waiter. */
  lemma HeadIsBest(k: K, w: Tid)
    requires Struct(k) && w < |k.state| && MutexWait(k, w).Some?
    ensures var q := Q(k, MutexQ(MutexWait(k, w).value));
            q != [] && q[0] < |k.state| && k.eff[q[0]] <= k.eff[w] && MutexWait(k, q[0]) == MutexWait(k, w)
  {
    var m := MutexWait(k, w).value;
    var q := At(k.queue, MutexQ(m));
    assert Homes(k)[w] == Some(MutexQ(m));
    assert w in q;
    HeadPlace(k, MutexQ(m));
    assert Sorted(At(k.queue, MutexQ(m)), KeyFor(k.eff, k.wake, MutexQ(m)));
    var i :| 0 <= i < |q| && q[i] == w;
    assert Key(k.eff, q[0]) <= Key(k.eff, q[i]);
  }

  /** Recalculating over the owned list yields the exact priority. */
  lemma RecalcExact(k: K, t: Tid)
    requires Struct(k) && Owners(k) && t < |k.state|
    ensures ExactAt(k.(eff := k.eff[t := Recalc(k, t)]), t)
  {
    var p := Recalc(k, t);
    var k1 := k.(eff := k.eff[t := p]);
    RecalcOverMin(k, k.owned[t], k.base[t]);
    forall w: nat | WaitsFor(k1, w, t) ensures p <= k1.eff[w] {
      assert WaitsFor(k, w, t);
      HeadIsBest(k, w);
      assert MutexWait(k, w).value in k.owned[t];
    }
    if p != k.base[t] {
      var m :| m in k.owned[t] && p == Better(k, m, k.base[t]) < k.base[t];
      HeadPlace(k, MutexQ(m));
      var w := Q(k, MutexQ(m))[0];
      assert Holder(k, w) == Some(t);
      assert WaitsFor(k1, w, t) && k1.eff[w] == p;
    }
  }

  /** The equation determines the priority. */
  lemma ExactUnique(k: K, t: Tid, p: nat)
    requires Wf(k) && NoSelfWait(k) && t < |k.state| && ExactAt(k, t) && ExactAt(k.(eff := k.eff[t := p]), t)
    ensures p == k.eff[t]
  {
    var k1 := k.(eff := k.eff[t := p]);
    assert forall w: nat :: WaitsFor(k1, w, t) <==> WaitsFor(k, w, t);
    assert !WaitsFor(k, t, t);
    if p != k.base[t] {
      var w: nat :| WaitsFor(k1, w, t) && k1.eff[w] == p;
      assert WaitsFor(k, w, t);
    }
    if k.eff[t] != k.base[t] {
      var w: nat :| WaitsFor(k, w, t) && k.eff[w] == k.eff[t];
      assert WaitsFor(k1, w, t);
    }
  }
}
