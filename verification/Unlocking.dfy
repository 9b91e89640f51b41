/** mutex_unlock: the handover keeps the invariant exactly when the owned lists
    come out right, which the order of its two list operations decides. */
module Unlocking {
  import opened Queues
  import opened KernelState
  import opened KernelInvariant
  import opened Inheritance
  import opened KernelSteps
  import opened MutexSteps

  /** The caller owns m and is in no list (running, or exiting). */
  ghost predicate Releasing(k: K, m: Mid, c: Tid) {
    && Struct(k) && OneRunning(k) && Owners(k) && Exact(k)
    && k.current == Some(c) && c < |k.state| && k.state[c] in {Running, Finished}
    && m < |k.owner| && k.owner[m] == Some(c)
  }

  lemma OwnedAfterRelease(owned: seq<Mid>, m: Mid)
    requires Distinct(owned)
    ensures Distinct(Remove(owned, m)) && forall x: nat :: x in Remove(owned, m) <==> x in owned && x != m
  {
    RemoveKeeps(owned, m);
  }

  /** Nobody waits: giving m up changes no priority at all. */
  lemma ReleaseGraph(k: K, m: Mid, c: Tid)
    requires Releasing(k, m, c) && Q(k, MutexQ(m)) == []
    ensures var k1 := k.(owner := k.owner[m := None], owned := k.owned[c := Remove(k.owned[c], m)]);
            Struct(k1) && Owners(k1) && Exact(k1)
  {
    var k1 := k.(owner := k.owner[m := None], owned := k.owned[c := Remove(k.owned[c], m)]);
    assert Homes(k1) == Homes(k);
    OwnedAfterRelease(k.owned[c], m);
    forall w | 0 <= w < |k.state| ensures MutexWait(k1, w) == MutexWait(k, w) && Holder(k1, w) == Holder(k, w) {
      if MutexWait(k, w) == Some(m) {
        HeadIsBest(k, w);
      }
    }
    forall u | 0 <= u < |k.state| ensures ExactAt(k1, u) {
      assert ExactAt(k, u);
      assert forall w: nat :: WaitsFor(k1, w, u) <==> WaitsFor(k, w, u);
    }
  }

  lemma ReleaseInv(k: K, m: Mid, c: Tid, f: bool)
    requires Releasing(k, m, c) && Q(k, MutexQ(m)) == []
    ensures var k1 := k.(owner := k.owner[m := None], owned := k.owned[c := Remove(k.owned[c], m)]);
            Unlock(k, m, f) == (k1, SemOk) && Struct(k1) && OneRunning(k1) && Owners(k1) && Exact(k1)
  {
    var k1 := k.(owner := k.owner[m := None], owned := k.owned[c := Remove(k.owned[c], m)]);
    ReleaseGraph(k, m, c);
    RecalcExact(k1, c);
    assert NoSelfWait(k1);
    ExactUnique(k1, c, Recalc(k1, c));
    assert k1.eff[c := k1.eff[c]] == k1.eff;
  }

  // ---- handover to a waiter ----

  /** The state in which m already belongs to n, and n is between lists. */
  function HandedOver(k: K, m: Mid, c: Tid, n: Tid): K
    requires Wf(k) && c < |k.state| && n < |k.state| && m < |k.owner|
  {
    Dequeue(k, MutexQ(m), n).(state := k.state[n := Suspended], wait := k.wait[n := NoWait],
                             owner := k.owner[m := Some(n)], owned := HandOwned(k.owned, c, n, m, true))
  }

  ghost predicate Handing(k: K, m: Mid, c: Tid, n: Tid) {
    Releasing(k, m, c) && Q(k, MutexQ(m)) != [] && n == Q(k, MutexQ(m))[0] && n < |k.state| && n != c
    && MutexWait(k, n) == Some(m)
  }

  lemma HandingHead(k: K, m: Mid, c: Tid)
    requires Releasing(k, m, c) && Q(k, MutexQ(m)) != []
    ensures Handing(k, m, c, Q(k, MutexQ(m))[0])
  {
    HeadPlace(k, MutexQ(m));
  }

  lemma HandStruct(k: K, m: Mid, c: Tid, n: Tid)
    requires Handing(k, m, c, n)
    ensures Struct(HandedOver(k, m, c, n))
  {
    var k1 := k.(state := k.state[n := Suspended], wait := k.wait[n := NoWait],
                 owner := k.owner[m := Some(n)], owned := HandOwned(k.owned, c, n, m, true));
    DequeueStruct(k, k1, MutexQ(m), n);
    assert HandedOver(k, m, c, n) == Dequeue(k1, MutexQ(m), n);
  }

  lemma HandHolders(k: K, m: Mid, c: Tid, n: Tid, w: Tid)
    requires Handing(k, m, c, n) && w < |k.state|
    ensures var h := HandedOver(k, m, c, n);
            Wf(h) && MutexWait(h, w) == (if w == n then None else MutexWait(k, w))
            && Holder(h, w) == if w == n then None else if MutexWait(k, w) == Some(m) then Some(n) else Holder(k, w)
  {
  }

  lemma HandOwners(k: K, m: Mid, c: Tid, n: Tid)
    requires Handing(k, m, c, n)
    ensures Wf(HandedOver(k, m, c, n)) && Owners(HandedOver(k, m, c, n))
  {
    var h := HandedOver(k, m, c, n);
    OwnedAfterRelease(k.owned[c], m);
    assert m !in k.owned[n];
    assert forall t, x: nat :: 0 <= t < |k.owned| ==>
        (x in h.owned[t] <==> if t == c then x in k.owned[c] && x != m
                             else if t == n then x in k.owned[n] || x == m else x in k.owned[t]);
    forall w | 0 <= w < |k.state| && MutexWait(h, w).Some? ensures Holder(h, w).Some? && Holder(h, w) != Some(w) {
      HandHolders(k, m, c, n, w);
    }
  }

  /** Apart from the releaser, nobody's priority needs to change. */
  lemma HandExact(k: K, m: Mid, c: Tid, n: Tid, u: Tid)
    requires Handing(k, m, c, n) && u < |k.state| && u != c && Wf(HandedOver(k, m, c, n))
    ensures ExactAt(HandedOver(k, m, c, n), u)
  {
    var h := HandedOver(k, m, c, n);
    assert ExactAt(k, u);
    forall w: nat | w < |k.state|
      ensures WaitsFor(h, w, u) <==> WaitsFor(k, w, u) || (u == n && w != n && MutexWait(k, w) == Some(m))
      ensures MutexWait(k, w) == Some(m) ==> k.eff[n] <= k.eff[w]
    {
      HandHolders(k, m, c, n, w);
      if MutexWait(k, w) == Some(m) {
        HeadIsBest(k, w);
      }
    }
  }

  /** The new owner's recalculation returns the priority it already had. */
  lemma HandRecalc(k: K, m: Mid, c: Tid, n: Tid)
    requires Handing(k, m, c, n)
    ensures var k1 := Dequeue(k, MutexQ(m), n).(state := k.state[n := Ready], wait := k.wait[n := NoWait],
                                               owner := k.owner[m := Some(n)]);
            Wf(k1) && GiveTo(k, m, n) == Put(k1, n)
  {
    var k1 := Dequeue(k, MutexQ(m), n).(state := k.state[n := Ready], wait := k.wait[n := NoWait],
                                       owner := k.owner[m := Some(n)]);
    var k2 := k1.(owned := k.owned[n := [m] + k.owned[n]]);
    var h := HandedOver(k, m, c, n);
    HandStruct(k, m, c, n);
    HandOwners(k, m, c, n);
    assert h.owned[n] == k2.owned[n];
    RecalcSame(h, k2, h.owned[n], k.base[n]);
    RecalcExact(h, n);
    HandExact(k, m, c, n, n);
    assert NoSelfWait(h);
    ExactUnique(h, n, Recalc(h, n));
    assert k1.eff[n := k1.eff[n]] == k1.eff;
    assert k1.(eff := k1.eff) == k1;
  }

  /** Everything but the releaser's own recalculation. */
  lemma HandDone(k: K, m: Mid, c: Tid, n: Tid)
    requires Handing(k, m, c, n)
    ensures var k2 := GiveTo(k, m, n).(owned := HandOwned(k.owned, c, n, m, true));
            && Struct(k2) && Owners(k2) && k2.eff == k.eff && k2.current == k.current && k2.base == k.base
            && k2.state == k.state[n := Ready] && Q(k2, ReadyQ) == Insert(Q(k, ReadyQ), k.eff, n)
            && (forall u :: 0 <= u < |k.state| && u != c ==> ExactAt(k2, u))
  {
    var h := HandedOver(k, m, c, n);
    HandStruct(k, m, c, n);
    HandOwners(k, m, c, n);
    HandGives(k, m, c, n);
    var k1 := h.(state := k.state[n := Ready]);
    HandPut(h, k1, n);
    HandDoneGraph(k, m, c, n, Put(k1, n));
  }

  lemma HandGives(k: K, m: Mid, c: Tid, n: Tid)
    requires Handing(k, m, c, n)
    ensures GiveTo(k, m, n).(owned := HandOwned(k.owned, c, n, m, true))
            == Put(HandedOver(k, m, c, n).(state := k.state[n := Ready]), n)
  {
    HandRecalc(k, m, c, n);
  }

  lemma HandPut(h: K, k1: K, n: Tid)
    requires Struct(h) && n < |h.state| && h.state[n] == Suspended && k1 == h.(state := h.state[n := Ready])
    ensures var r := Put(k1, n);
            Struct(r) && r == k1.(queue := r.queue) && Q(r, ReadyQ) == Insert(Q(h, ReadyQ), h.eff, n)
  {
    PutFresh(h, k1, n);
    assert h.state[n := Ready][n := Ready] == h.state[n := Ready];
    assert Homes(h)[n].None?;
    assert n !in At(h.queue, ReadyQ);
  }

  lemma HandDoneGraph(k: K, m: Mid, c: Tid, n: Tid, k2: K)
    requires Handing(k, m, c, n) && Wf(HandedOver(k, m, c, n)) && Owners(HandedOver(k, m, c, n))
    requires k2 == HandedOver(k, m, c, n).(state := k.state[n := Ready], queue := k2.queue)
    ensures Wf(k2) && Owners(k2) && forall u :: 0 <= u < |k.state| && u != c ==> ExactAt(k2, u)
  {
    var h := HandedOver(k, m, c, n);
    forall w | 0 <= w < |k.state| ensures MutexWait(k2, w) == MutexWait(h, w) && Holder(k2, w) == Holder(h, w) {
    }
    forall u | 0 <= u < |k.state| && u != c ensures ExactAt(k2, u) {
      HandExact(k, m, c, n, u);
      assert forall w: nat :: WaitsFor(k2, w, u) <==> WaitsFor(h, w, u);
    }
  }

  /** The releaser drops to its own exact priority. */
  lemma DropExact(k: K, c: Tid)
    requires Struct(k) && Owners(k) && c < |k.state| && k.state[c] in {Running, Finished}
    requires forall u :: 0 <= u < |k.state| && u != c ==> ExactAt(k, u)
    ensures var k1 := k.(eff := k.eff[c := Recalc(k, c)]); Struct(k1) && Owners(k1) && Exact(k1)
  {
    var k1 := k.(eff := k.eff[c := Recalc(k, c)]);
    EffElsewhere(k, c, Recalc(k, c));
    RecalcExact(k, c);
    forall u | 0 <= u < |k.state| && u != c ensures ExactAt(k1, u) {
      ExactOther(k, c, Recalc(k, c), u);
    }
    assert forall w :: 0 <= w < |k.state| ==> MutexWait(k1, w) == MutexWait(k, w) && Holder(k1, w) == Holder(k, w);
  }

  /** Handover with the two list operations in the order unlink, link. */
  lemma HandInv(k: K, m: Mid, c: Tid, n: Tid)
    requires Handing(k, m, c, n)
    ensures var r := Unlock(k, m, true).0;
            && Struct(r) && OneRunning(r) && Owners(r) && Exact(r)
            && r.owner == k.owner[m := Some(n)] && r.eff == k.eff[c := r.eff[c]]
            && r.state == k.state[n := Ready] && Q(r, ReadyQ) == Insert(Q(k, ReadyQ), k.eff, n)
            && r.owned == HandOwned(k.owned, c, n, m, true)
  {
    HandDone(k, m, c, n);
    HandRecalc(k, m, c, n);
    var k2 := GiveTo(k, m, n).(owned := HandOwned(k.owned, c, n, m, true));
    DropExact(k2, c);
  }

  // ---- the kernel's own order: link, then unlink ----

  /** What a caller can check before unlocking: nobody waits, or the next owner
      holds nothing and m is the last entry of the caller's owned list. */
  predicate HandoverOk(k: K, m: Mid, c: Tid)
    requires Wf(k) && c < |k.state|
  {
    var w := Q(k, MutexQ(m));
    w == [] || (w[0] < |k.state| && k.owned[w[0]] == [] && k.owned[c] != [] && k.owned[c][|k.owned[c]| - 1] == m)
  }

  lemma {:induction false} BeforeLast(s: seq<Mid>)
    requires Distinct(s) && s != []
    ensures Before(s, s[|s| - 1]) == s[..|s| - 1]
  {
    if |s| > 1 {
      BeforeLast(s[1..]);
      assert s[0] != s[|s| - 1] && s[1..][|s[1..]| - 1] == s[|s| - 1];
      assert [s[0]] + s[1..][..|s| - 2] == s[..|s| - 1];
    }
  }

  lemma {:induction false} BeforeStops(s: seq<Mid>, i: nat, j: nat)
    requires Distinct(s) && i < j < |s|
    ensures s[j] !in Before(s, s[i])
  {
    if i > 0 {
      BeforeStops(s[1..], i - 1, j - 1);
      assert s[1..][i - 1] == s[i] && s[1..][j - 1] == s[j];
    }
  }

  /** Under that condition the two orders give the same lists. */
  lemma HandSame(k: K, m: Mid, c: Tid, n: Tid)
    requires Handing(k, m, c, n) && HandoverOk(k, m, c)
    ensures HandOwned(k.owned, c, n, m, false) == HandOwned(k.owned, c, n, m, true)
  {
    var s := k.owned[c];
    assert Distinct(s);
    BeforeLast(s);
    RemoveAt(s, |s| - 1);
    assert s[..|s| - 1] + s[|s|..] == s[..|s| - 1] == Before(s, m) + k.owned[n];
    assert [m] + k.owned[n] == [m];
  }

  /** Without it, some mutex is in the list of a task that does not own it, or in
      no list at all. */
  lemma HandBroken(k: K, m: Mid, c: Tid, n: Tid)
    requires Handing(k, m, c, n) && !HandoverOk(k, m, c)
    ensures var r := Unlock(k, m, false).0; Wf(r) ==> !Owners(r)
  {
    HandRecalc(k, m, c, n);
    SpliceBroken(k, Unlock(k, m, false).0, m, c, n);
  }

  lemma SpliceBroken(k: K, r: K, m: Mid, c: Tid, n: Tid)
    requires Handing(k, m, c, n) && !HandoverOk(k, m, c)
    requires r.owner == k.owner[m := Some(n)] && r.owned == HandOwned(k.owned, c, n, m, false)
    ensures Wf(r) ==> !Owners(r)
  {
    var s, was := k.owned[c], k.owned[n];
    assert m in s && Distinct(s);
    if was != [] {
      assert was[0] in was && k.owner[was[0]] == Some(n);
      assert r.owned[c][|Before(s, m)|] == was[0];
      assert was[0] in r.owned[c];
    } else {
      var i :| 0 <= i < |s| && s[i] == m;
      var y := s[i + 1];
      BeforeStops(s, i, i + 1);
      assert y in s && k.owner[y] == Some(c) && y != m;
      assert y !in r.owned[c];
    }
  }

  lemma DormantAfter(k: K, r: K, m: Mid, c: Tid, n: Tid)
    requires Handing(k, m, c, n) && Dormant(k) && k.state[c] == Running && Wf(r)
    requires r.state == k.state[n := Ready] && r.owned == HandOwned(k.owned, c, n, m, true)
    ensures Dormant(r)
  {
  }

  /** mutex_unlock keeps the invariant if and only if the handover condition
      holds; with the two list operations swapped it always does. */
  lemma UnlockInv(k: K, m: Mid)
    requires Inv(k) && m < |k.owner| && k.current.Some? && k.state[k.current.value] == Running
    ensures Inv(Unlock(k, m, true).0)
    ensures Inv(Unlock(k, m, false).0) <==> k.owner[m] != k.current || HandoverOk(k, m, k.current.value)
    ensures k.owner[m] == k.current && HandoverOk(k, m, k.current.value) ==> Unlock(k, m, false) == Unlock(k, m, true)
  {
    var c := k.current.value;
    if k.owner[m] == Some(c) {
      if Q(k, MutexQ(m)) == [] {
        ReleaseInv(k, m, c, true);
        ReleaseInv(k, m, c, false);
      } else {
        HandingHead(k, m, c);
        var n := Q(k, MutexQ(m))[0];
        HandInv(k, m, c, n);
        DormantAfter(k, Unlock(k, m, true).0, m, c, n);
        if HandoverOk(k, m, c) {
          HandSame(k, m, c, n);
        } else {
          HandBroken(k, m, c, n);
        }
      }
    }
  }

  /** The mutex goes to the head of its queue, whom no waiter outranks; with no
      waiter it becomes free. */
  lemma UnlockHandsToBest(k: K, m: Mid, f: bool)
    requires Inv(k) && m < |k.owner| && k.current.Some? && k.state[k.current.value] == Running
    requires k.owner[m] == k.current
    ensures var w, o := Q(k, MutexQ(m)), Unlock(k, m, f).0.owner[m];
            && (w == [] ==> o.None?)
            && (w != [] ==> o == Some(w[0]) && MutexWait(k, w[0]) == Some(m)
                            && forall t :: 0 <= t < |k.state| && MutexWait(k, t) == Some(m) ==> k.eff[w[0]] <= k.eff[t])
  {
    var c, w := k.current.value, Q(k, MutexQ(m));
    if w == [] {
      ReleaseInv(k, m, c, f);
    } else {
      HandingHead(k, m, c);
      HandRecalc(k, m, c, w[0]);
      forall t | 0 <= t < |k.state| && MutexWait(k, t) == Some(m) ensures k.eff[w[0]] <= k.eff[t] {
        HeadIsBest(k, t);
      }
    }
  }

  ghost predicate NoneOutranks(k: K, c: Tid)
    requires Wf(k) && c < |k.state|
  {
    forall t :: 0 <= t < |k.state| && k.state[t] == Ready ==> k.eff[c] <= k.eff[t]
  }

  /** When the releaser's priority drops, the only cause is the waiter served. */
  lemma DropCause(k: K, m: Mid, c: Tid, n: Tid)
    requires Handing(k, m, c, n)
    ensures var r := Unlock(k, m, true).0; r.eff[c] == k.eff[c] || k.eff[n] == k.eff[c] < r.eff[c]
  {
    HandInv(k, m, c, n);
    var r := Unlock(k, m, true).0;
    HandHoldersDone(k, m, c, n);
    assert ExactAt(k, c) && ExactAt(r, c);
    HandBase(k, m, c, n);
    DropCauseAt(k, r, m, c, n);
  }

  lemma HandBase(k: K, m: Mid, c: Tid, n: Tid)
    requires Handing(k, m, c, n)
    ensures Unlock(k, m, true).0.base == k.base
  {
    HandRecalc(k, m, c, n);
  }

  lemma DropCauseAt(k: K, r: K, m: Mid, c: Tid, n: Tid)
    requires Handing(k, m, c, n) && Wf(r) && |r.state| == |k.state| && ExactAt(k, c) && ExactAt(r, c)
    requires r.base == k.base && r.eff == k.eff[c := r.eff[c]]
    requires forall w: nat :: w < |k.state| ==> (WaitsFor(r, w, c) <==> WaitsFor(k, w, c) && MutexWait(k, w) != Some(m))
    ensures r.eff[c] == k.eff[c] || k.eff[n] == k.eff[c] < r.eff[c]
  {
    assert !WaitsFor(k, c, c);
    forall w: nat | WaitsFor(r, w, c) ensures k.eff[c] <= r.eff[w] {
      assert WaitsFor(k, w, c);
    }
    forall w: nat | WaitsFor(k, w, c) && MutexWait(k, w) != Some(m) ensures r.eff[c] <= k.eff[w] {
      assert WaitsFor(r, w, c);
    }
    if k.eff[c] != r.eff[c] {
      var w: nat :| WaitsFor(k, w, c) && k.eff[w] == k.eff[c];
      HeadIsBest(k, w);
      assert WaitsFor(k, n, c);
    }
  }

  lemma HandHoldersDone(k: K, m: Mid, c: Tid, n: Tid)
    requires Handing(k, m, c, n)
    ensures var r := Unlock(k, m, true).0;
            Wf(r) && forall w: nat :: w < |k.state| ==>
                (WaitsFor(r, w, c) <==> WaitsFor(k, w, c) && MutexWait(k, w) != Some(m))
  {
    HandRecalc(k, m, c, n);
    HandInv(k, m, c, n);
    var r := Unlock(k, m, true).0;
    forall w: nat | w < |k.state| ensures WaitsFor(r, w, c) <==> WaitsFor(k, w, c) && MutexWait(k, w) != Some(m) {
      HandHolders(k, m, c, n, w);
      assert MutexWait(r, w) == MutexWait(HandedOver(k, m, c, n), w);
    }
  }

  /** If no ready task outranked the caller, then after the unlock none does, or
      the caller is told to yield. */
  lemma UnlockYields(k: K, m: Mid, f: bool)
    requires Inv(k) && m < |k.owner| && k.current.Some? && k.state[k.current.value] == Running
    requires NoneOutranks(k, k.current.value)
    requires f || k.owner[m] != k.current || HandoverOk(k, m, k.current.value)
    ensures var (r, res) := Unlock(k, m, f); res == SemOkYield || (Wf(r) && NoneOutranks(r, k.current.value))
  {
    var c := k.current.value;
    if k.owner[m] == Some(c) {
      if Q(k, MutexQ(m)) == [] {
        ReleaseInv(k, m, c, f);
      } else {
        HandingHead(k, m, c);
        var n := Q(k, MutexQ(m))[0];
        if !f {
          HandSame(k, m, c, n);
        }
        HandInv(k, m, c, n);
        DropCause(k, m, c, n);
        assert WaitsFor(k, n, c) && ExactAt(k, c);
        YieldsOrOutranks(k, Unlock(k, m, true).0, c, n);
      }
    }
  }

  lemma YieldsOrOutranks(k: K, r: K, c: Tid, n: Tid)
    requires Wf(k) && Wf(r) && c < |k.state| && n < |k.state| && n != c && NoneOutranks(k, c) && k.eff[c] <= k.eff[n]
    requires r.state == k.state[n := Ready] && r.eff == k.eff[c := r.eff[c]]
    requires r.eff[c] == k.eff[c] || k.eff[n] == k.eff[c] < r.eff[c]
    ensures r.eff[n] < r.eff[c] || NoneOutranks(r, c)
  {
  }

  // ---- task exit ----

  predicate ExitOk(k: K, f: bool)
    requires Wf(k) && k.current.Some?
  {
    var s := k.owned[k.current.value];
    s == [] || (|s| == 1 && (f || HandoverOk(k, s[0], k.current.value)))
  }

  /** The exiting task holds one mutex and hands it on correctly. */
  lemma ExitOne(k: K, f: bool)
    requires Inv(k) && k.current.Some? && k.state[k.current.value] == Running
    requires |k.owned[k.current.value]| == 1 && ExitOk(k, f)
    ensures Inv(Exit(k, f))
  {
    var c := k.current.value;
    var m := k.owned[c][0];
    var k1 := k.(state := k.state[c := Finished]);
    ExitReleasing(k);
    assert k.owned[c] == [m] && Remove([m], m) == [];
    assert Exit(k, f) == Unlock(k1, m, f).0;
    if Q(k1, MutexQ(m)) == [] {
      ReleaseInv(k1, m, c, f);
      DormantAlone(k, Unlock(k1, m, f).0, c);
    } else {
      ExitHanded(k, k1, m, c, f);
    }
  }

  lemma ExitHanded(k: K, k1: K, m: Mid, c: Tid, f: bool)
    requires Inv(k) && c < |k.state| && k1 == k.(state := k.state[c := Finished]) && k.owned[c] == [m]
    requires Releasing(k1, m, c) && Q(k1, MutexQ(m)) != [] && (f || HandoverOk(k1, m, c))
    ensures Inv(Unlock(k1, m, f).0)
  {
    ExitHands(k1, m, c, f);
    assert Remove([m], m) == [];
    DormantExit(k, Unlock(k1, m, f).0, c, Q(k1, MutexQ(m))[0]);
  }

  lemma ExitHands(k: K, m: Mid, c: Tid, f: bool)
    requires Releasing(k, m, c) && Q(k, MutexQ(m)) != [] && (f || HandoverOk(k, m, c))
    ensures var r, n := Unlock(k, m, f).0, Q(k, MutexQ(m))[0];
            && Struct(r) && OneRunning(r) && Owners(r) && Exact(r) && n < |k.state| && n != c
            && r.state == k.state[n := Ready] && r.owned == HandOwned(k.owned, c, n, m, true)
  {
    HandingHead(k, m, c);
    var n := Q(k, MutexQ(m))[0];
    HandInv(k, m, c, n);
    if !f {
      HandSame(k, m, c, n);
    }
  }

  lemma DormantAlone(k: K, r: K, c: Tid)
    requires Wf(k) && Wf(r) && Dormant(k) && c < |k.state|
    requires r.state == k.state[c := Finished] && r.owned == k.owned[c := []]
    ensures Dormant(r)
  {
  }

  lemma DormantExit(k: K, r: K, c: Tid, n: Tid)
    requires Wf(k) && Wf(r) && Dormant(k) && c < |k.state| && n < |k.state| && n != c
    requires r.state == k.state[c := Finished][n := Ready] && r.owned[c] == []
    requires |r.owned| == |k.owned| && forall t :: 0 <= t < |k.owned| && t != c && t != n ==> r.owned[t] == k.owned[t]
    ensures Dormant(r)
  {
  }

  lemma ExitReleasing(k: K)
    requires Inv(k) && k.current.Some? && k.state[k.current.value] == Running && k.owned[k.current.value] != []
    ensures var c := k.current.value;
            k.owned[c][0] < |k.owner| && Releasing(k.(state := k.state[c := Finished]), k.owned[c][0], c)
  {
    var c := k.current.value;
    var k1 := k.(state := k.state[c := Finished]);
    assert k.owned[c][0] in k.owned[c];
    assert SameBut(k, k1, c);
    HomesBut(k, k1, c);
    assert Homes(k1) == Homes(k);
    assert forall w :: 0 <= w < |k.state| ==> MutexWait(k1, w) == MutexWait(k, w) && Holder(k1, w) == Holder(k, w);
    forall u | 0 <= u < |k.state| ensures ExactAt(k1, u) {
      assert ExactAt(k, u);
      assert forall w: nat :: WaitsFor(k1, w, u) <==> WaitsFor(k, w, u);
    }
  }

  /** An exiting task leaves every mutex it held if and only if it held at most
      one: the walk stops after the first release. */
  lemma ExitReleasesAll(k: K, f: bool)
    requires Inv(k) && k.current.Some? && k.state[k.current.value] == Running
    ensures var c := k.current.value;
            (forall x :: 0 <= x < |k.owner| ==> Exit(k, f).owner[x] != Some(c)) <==> |k.owned[c]| <= 1
  {
    var c, s := k.current.value, k.owned[k.current.value];
    var r := Exit(k, f);
    if s == [] {
      forall x | 0 <= x < |k.owner| ensures k.owner[x] != Some(c) {
        assert x !in k.owned[c];
      }
    } else {
      ExitOwner(k, f);
      assert forall x :: 0 <= x < |k.owner| && x != s[0] ==> (x in s <==> k.owner[x] == Some(c));
      if |s| > 1 {
        assert s[1] in s && s[1] != s[0];
        assert r.owner[s[1]] == Some(c);
      }
    }
  }

  lemma ExitOwner(k: K, f: bool)
    requires Inv(k) && k.current.Some? && k.state[k.current.value] == Running && k.owned[k.current.value] != []
    ensures var c := k.current.value; var m := k.owned[c][0];
            m < |k.owner| && |Exit(k, f).owner| == |k.owner| && Exit(k, f).owner[m] != Some(c)
            && forall x :: 0 <= x < |k.owner| && x != m ==> Exit(k, f).owner[x] == k.owner[x]
  {
    var c := k.current.value;
    var m := k.owned[c][0];
    var k1 := k.(state := k.state[c := Finished]);
    ExitReleasing(k);
    if Q(k, MutexQ(m)) == [] {
      ReleaseInv(k1, m, c, f);
    } else {
      HandingHead(k1, m, c);
      HandRecalc(k1, m, c, Q(k, MutexQ(m))[0]);
    }
  }

  /** Exit keeps the invariant if and only if the task holds nothing, or exactly one
      mutex with a sound handover. */
  lemma ExitInv(k: K, f: bool)
    requires Inv(k) && k.current.Some? && k.state[k.current.value] == Running
    ensures Inv(Exit(k, f)) <==> ExitOk(k, f)
  {
    if ExitOk(k, f) {
      ExitKeeps(k, f);
    } else {
      ExitBreaks(k, f);
    }
  }

  lemma ExitBreaks(k: K, f: bool)
    requires Inv(k) && k.current.Some? && k.state[k.current.value] == Running && !ExitOk(k, f)
    ensures !Inv(Exit(k, f))
  {
    var c := k.current.value;
    var s, r := k.owned[c], Exit(k, f);
    ExitReleasing(k);
    if |s| > 1 {
      ExitReleasesAll(k, f);
      ExitOwner(k, f);
      ExitState(k, f);
      var x :| 0 <= x < |k.owner| && r.owner[x] == Some(c);
      if Wf(r) && Owners(r) {
        OwnerHolds(r, x, c);
        assert !Dormant(r);
      }
    } else {
      var k1 := k.(state := k.state[c := Finished]);
      HandingHead(k1, s[0], c);
      HandBroken(k1, s[0], c, Q(k1, MutexQ(s[0]))[0]);
    }
  }

  lemma OwnerHolds(r: K, x: Mid, c: Tid)
    requires Wf(r) && Owners(r) && x < |r.owner| && c < |r.state| && r.owner[x] == Some(c)
    ensures r.owned[c] != []
  {
    assert x in r.owned[c];
  }

  lemma ExitState(k: K, f: bool)
    requires Inv(k) && k.current.Some? && k.state[k.current.value] == Running && k.owned[k.current.value] != []
    ensures |Exit(k, f).state| == |k.state| && Exit(k, f).state[k.current.value] == Finished
  {
    var c := k.current.value;
    var m := k.owned[c][0];
    var k1 := k.(state := k.state[c := Finished]);
    ExitReleasing(k);
    if Q(k1, MutexQ(m)) == [] {
      ReleaseInv(k1, m, c, f);
    } else {
      HandingHead(k1, m, c);
      HandRecalc(k1, m, c, Q(k1, MutexQ(m))[0]);
    }
  }

  lemma ExitKeeps(k: K, f: bool)
    requires Inv(k) && k.current.Some? && k.state[k.current.value] == Running && ExitOk(k, f)
    ensures Inv(Exit(k, f))
  {
    var c := k.current.value;
    if k.owned[c] == [] {
      var k1 := k.(state := k.state[c := Finished]);
      assert SameBut(k, k1, c);
      HomesBut(k, k1, c);
      assert Homes(k1) == Homes(k);
      assert forall w :: 0 <= w < |k.state| ==> MutexWait(k1, w) == MutexWait(k, w) && Holder(k1, w) == Holder(k, w);
      forall u | 0 <= u < |k.state| ensures ExactAt(k1, u) {
        assert ExactAt(k, u);
        assert forall w: nat :: WaitsFor(k1, w, u) <==> WaitsFor(k, w, u);
      }
    } else {
      ExitOne(k, f);
    }
  }
}
