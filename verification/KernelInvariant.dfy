/** What every kernel step keeps: list membership, list order, ownership and
    exact priority inheritance. */
module KernelInvariant {
  import opened Queues
  import opened KernelState

  /** Each task is in exactly the one list `home` names, and there once. */
  ghost predicate HomeOk(queue: map<QueueRef, seq<Tid>>, home: seq<Option<QueueRef>>) {
    && (forall q, t: nat {:trigger t in At(queue, q)} :: t in At(queue, q) ==> t < |home| && home[t] == Some(q))
    && (forall t :: 0 <= t < |home| && home[t].Some? ==> t in At(queue, home[t].value))
    && (forall q {:trigger Distinct(At(queue, q))} :: Distinct(At(queue, q)))
  }

  ghost predicate Placed(k: K)
    requires Wf(k)
  {
    HomeOk(k.queue, Homes(k))
  }

  ghost predicate OrderOk(queue: map<QueueRef, seq<Tid>>, eff: seq<nat>, wake: seq<nat>) {
    forall q {:trigger Sorted(At(queue, q), KeyFor(eff, wake, q))} :: Sorted(At(queue, q), KeyFor(eff, wake, q))
  }

  ghost predicate Ordered(k: K) {
    OrderOk(k.queue, k.eff, k.wake)
  }

  ghost predicate Struct(k: K) {
    Wf(k) && Placed(k) && Ordered(k)
  }

  /** Only the current task can be running, and its slot is in use. */
  ghost predicate OneRunning(k: K) {
    && (forall t :: 0 <= t < |k.state| && k.state[t] == Running ==> k.current == Some(t))
    && (k.current.Some? ==> k.current.value < |k.state| && k.state[k.current.value] != Unused)
  }

  /** w is blocked on a mutex that t owns. */
  ghost predicate WaitsFor(k: K, w: Tid, t: Tid)
    requires Wf(k)
  {
    w < |k.state| && Holder(k, w) == Some(t)
  }

  ghost predicate Owners(k: K)
    requires Wf(k)
  {
    && (forall t, m: nat {:trigger m in k.owned[t]} :: 0 <= t < |k.owned| ==>
          (m in k.owned[t] <==> m < |k.owner| && k.owner[m] == Some(t)))
    && (forall t :: 0 <= t < |k.owned| ==> Distinct(k.owned[t]))
    && (forall w :: 0 <= w < |k.state| && MutexWait(k, w).Some? ==> Holder(k, w).Some? && Holder(k, w) != Some(w))
  }

  ghost predicate Dormant(k: K)
    requires Wf(k)
  {
    forall t :: 0 <= t < |k.state| && k.state[t] in {Unused, Finished} ==> k.owned[t] == []
  }

  /** The documented equation: a task's effective priority is the best of its own
      base priority and the effective priorities of all tasks blocked on mutexes
      it owns. (Smaller numbers are better.) */
  ghost predicate ExactAt(k: K, t: Tid)
    requires Wf(k) && t < |k.state|
  {
    && k.eff[t] <= k.base[t]
    && (forall w: nat :: WaitsFor(k, w, t) ==> k.eff[t] <= k.eff[w])
    && (k.eff[t] == k.base[t] || exists w: nat :: WaitsFor(k, w, t) && k.eff[w] == k.eff[t])
  }

  ghost predicate Exact(k: K)
    requires Wf(k)
  {
    forall t :: 0 <= t < |k.state| ==> ExactAt(k, t)
  }

  ghost predicate Inv(k: K) {
    Struct(k) && OneRunning(k) && Owners(k) && Dormant(k) && Exact(k)
  }

  // ---- moving one task between lists ----

  lemma HomeInsert(queue: map<QueueRef, seq<Tid>>, home: seq<Option<QueueRef>>, key: seq<nat>, q: QueueRef, t: Tid)
    requires HomeOk(queue, home) && t < |home| && home[t].None?
    ensures HomeOk(queue[q := Insert(At(queue, q), key, t)], home[t := Some(q)])
  {
    assert Distinct(At(queue, q));
    InsertMembers(At(queue, q), key, t);
    var queue1, home1 := queue[q := Insert(At(queue, q), key, t)], home[t := Some(q)];
    forall p, u: nat {:trigger u in At(queue1, p)} | u in At(queue1, p) ensures u < |home1| && home1[u] == Some(p) {
      assert u in At(queue, p) || (p == q && u == t);
      assert u in At(queue, p) ==> u < |home| && home[u] == Some(p);
    }
    forall u | 0 <= u < |home1| && home1[u].Some? ensures u in At(queue1, home1[u].value) {
      if u != t {
        assert u in At(queue, home[u].value);
      }
    }
    forall p {:trigger Distinct(At(queue1, p))} ensures Distinct(At(queue1, p)) {
      assert Distinct(At(queue, p));
    }
  }

  lemma HomeRemove(queue: map<QueueRef, seq<Tid>>, home: seq<Option<QueueRef>>, q: QueueRef, t: Tid)
    requires HomeOk(queue, home) && t < |home| && home[t] == Some(q)
    ensures HomeOk(queue[q := Remove(At(queue, q), t)], home[t := None])
  {
    assert Distinct(At(queue, q));
    RemoveKeeps(At(queue, q), t);
    var queue1, home1 := queue[q := Remove(At(queue, q), t)], home[t := None];
    forall p, u: nat {:trigger u in At(queue1, p)} | u in At(queue1, p) ensures u < |home1| && home1[u] == Some(p) {
      assert u in At(queue, p);
      assert u < |home| && home[u] == Some(p);
    }
    forall u | 0 <= u < |home1| && home1[u].Some? ensures u in At(queue1, home1[u].value) {
      assert u in At(queue, home[u].value);
    }
    forall p {:trigger Distinct(At(queue1, p))} ensures Distinct(At(queue1, p)) {
      assert Distinct(At(queue, p));
    }
  }

  /** Two tables agree away from entry t. */
  ghost predicate SameKeys<T>(a: seq<T>, b: seq<T>, t: nat) {
    |a| == |b| && forall u :: 0 <= u < |a| && u != t ==> a[u] == b[u]
  }

  lemma SortedSame(s: seq<Tid>, a: seq<nat>, b: seq<nat>, t: Tid)
    requires SameKeys(a, b, t) && t !in s && Sorted(s, a)
    ensures Sorted(s, b)
  {
    forall i, j | 0 <= i < j < |s| ensures Key(b, s[i]) <= Key(b, s[j]) {
      assert s[i] in s && s[j] in s;
      assert Key(a, s[i]) <= Key(a, s[j]);
    }
  }

  lemma OrderInsert(queue: map<QueueRef, seq<Tid>>, eff: seq<nat>, wake: seq<nat>, eff1: seq<nat>, wake1: seq<nat>,
                    q: QueueRef, t: Tid)
    requires OrderOk(queue, eff, wake) && SameKeys(eff, eff1, t) && SameKeys(wake, wake1, t)
    requires forall p :: t !in At(queue, p)
    ensures OrderOk(queue[q := Insert(At(queue, q), KeyFor(eff1, wake1, q), t)], eff1, wake1)
  {
    var queue1 := queue[q := Insert(At(queue, q), KeyFor(eff1, wake1, q), t)];
    forall p ensures Sorted(At(queue1, p), KeyFor(eff1, wake1, p)) {
      assert Sorted(At(queue, p), KeyFor(eff, wake, p));
      SortedSame(At(queue, p), KeyFor(eff, wake, p), KeyFor(eff1, wake1, p), t);
      if p == q {
        InsertSorted(At(queue, q), KeyFor(eff1, wake1, q), t);
      }
    }
  }

  lemma OrderRemove(queue: map<QueueRef, seq<Tid>>, eff: seq<nat>, wake: seq<nat>, eff1: seq<nat>, wake1: seq<nat>,
                    q: QueueRef, t: Tid)
    requires OrderOk(queue, eff, wake) && SameKeys(eff, eff1, t) && SameKeys(wake, wake1, t)
    requires Distinct(At(queue, q)) && forall p :: p != q ==> t !in At(queue, p)
    ensures OrderOk(queue[q := Remove(At(queue, q), t)], eff1, wake1)
  {
    RemoveKeeps(At(queue, q), t);
    var queue1 := queue[q := Remove(At(queue, q), t)];
    forall p ensures Sorted(At(queue1, p), KeyFor(eff1, wake1, p)) {
      assert Sorted(At(queue, p), KeyFor(eff, wake, p));
      SortedSame(At(queue1, p), KeyFor(eff, wake, p), KeyFor(eff1, wake1, p), t);
    }
  }

  /** k1 differs from k at most in task t's own fields, the current pointer,
      the clock, and the mutex and semaphore tables. */
  ghost predicate SameBut(k: K, k1: K, t: Tid)
    requires Wf(k) && Wf(k1)
  {
    && |k1.state| == |k.state| && t < |k.state| && k1.queue == k.queue
    && SameKeys(k.eff, k1.eff, t) && SameKeys(k.wake, k1.wake, t)
    && SameKeys(k.state, k1.state, t) && SameKeys(k.wait, k1.wait, t)
  }

  lemma HomesBut(k: K, k1: K, t: Tid)
    requires Wf(k) && Wf(k1) && t < |k.state| && SameKeys(k.state, k1.state, t) && SameKeys(k.wait, k1.wait, t)
    ensures Homes(k1) == Homes(k)[t := Place(k1, t)]
  {
  }

  lemma EnqueueStruct(k: K, k1: K, q: QueueRef, t: Tid)
    requires Struct(k) && Wf(k1) && SameBut(k, k1, t)
    requires Place(k, t).None? && Place(k1, t) == Some(q)
    ensures Struct(Enqueue(k1, q, t))
  {
    HomesBut(k, k1, t);
    assert Homes(k)[t].None?;
    HomeInsert(k.queue, Homes(k), KeyOf(k1, q), q, t);
    OrderInsert(k.queue, k.eff, k.wake, k1.eff, k1.wake, q, t);
    assert Homes(Enqueue(k1, q, t)) == Homes(k1);
  }

  lemma DequeueStruct(k: K, k1: K, q: QueueRef, t: Tid)
    requires Struct(k) && Wf(k1) && SameBut(k, k1, t)
    requires Place(k, t) == Some(q) && Place(k1, t).None?
    ensures Struct(Dequeue(k1, q, t))
  {
    HomesBut(k, k1, t);
    assert Homes(k)[t] == Some(q);
    HomeRemove(k.queue, Homes(k), q, t);
    OrderRemove(k.queue, k.eff, k.wake, k1.eff, k1.wake, q, t);
    assert Homes(Dequeue(k1, q, t)) == Homes(k1);
  }
}
