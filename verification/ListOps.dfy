/** The list operations of the scheduler on one list: its head and tail, and the
    next fields of all tasks. */
module ListOps {
  import opened Queues
  import opened KernelState
  import opened TaskLinks

  /** Only t and members of s were written. */
  ghost predicate Within(next: seq<Option<Tid>>, n: seq<Option<Tid>>, s: seq<Tid>, t: Tid) {
    |n| == |next| && forall x: nat {:trigger n[x]} :: x < |next| && x !in s && x != t ==> n[x] == next[x]
  }

  /** queue_pop and priority_queue_pop of a non-empty list */
  method PopNode(next: seq<Option<Tid>>, head: Option<Tid>, tail: Option<Tid>, ghost s: seq<Tid>)
    returns (t: Tid, n: seq<Option<Tid>>, h: Option<Tid>, l: Option<Tid>)
    requires ListRep(next, head, s) && tail == Entry(s, |s| - 1) && Distinct(s) && head.Some?
    ensures t == s[0] && t < |next| && Within(next, n, s, t) && n[t].None?
    ensures ListRep(n, h, s[1..]) && l == Entry(s[1..], |s| - 2)
  {
    RepRemove(next, head, s, 0);
    assert next[s[0]] == Entry(s, 1);
    assert s[..0] + s[1..] == s[1..];
    t := head.value;
    h, l := next[t], tail;
    if h.None? {
      l := None;
    }
    n := next[t := None];
  }

  /** The walk of a keyed push: the last entry the new one goes behind. */
  method WalkTo(next: seq<Option<Tid>>, key: seq<nat>, h: Tid, p: nat, ghost s: seq<Tid>) returns (c: Tid, ghost i: nat)
    requires ListRep(next, Some(h), s) && |key| == |next| && s != [] && Key(key, h) <= p
    ensures i < |s| && c == s[i] && c < |next| && next[c] == Entry(s, i + 1) && Slot(s, key, p) == i + 1
  {
    c, i := h, 0;
    while next[c].Some? && key[next[c].value] <= p
      invariant 0 <= i < |s| && c == s[i] && c < |next|
      invariant forall j :: 0 <= j <= i ==> Key(key, s[j]) <= p
      decreases |s| - i
    {
      assert next[s[i]] == Entry(s, i + 1);
      c, i := next[c].value, i + 1;
    }
    assert next[s[i]] == Entry(s, i + 1);
    SlotIs(s, key, p, i + 1);
  }

  lemma PushDone(next: seq<Option<Tid>>, head: Option<Tid>, tail: Option<Tid>, key: seq<nat>, t: Tid,
                   s: seq<Tid>, p: nat)
    requires ListRep(next, head, s) && tail == Entry(s, |s| - 1) && Distinct(s) && t < |next| && t !in s
    requires p == Slot(s, key, Key(key, t))
    ensures p > 0 ==> s[p - 1] < |next|
    ensures Within(next, Linked1(next, s, t, p), s, t)
    ensures ListRep(Linked1(next, s, t, p), if p == 0 then Some(t) else head, Insert(s, key, t))
    ensures (if p == |s| then Some(t) else tail) == Entry(Insert(s, key, t), |s|)
  {
    RepInsert(next, head, s, t, p);
    assert p > 0 ==> s[p - 1] in s;
  }

  /** queue_push: relies on the task's next field being null already. */
  method AppendNode(next: seq<Option<Tid>>, head: Option<Tid>, tail: Option<Tid>, t: Tid, ghost s: seq<Tid>)
    returns (n: seq<Option<Tid>>, h: Option<Tid>, l: Option<Tid>)
    requires ListRep(next, head, s) && tail == Entry(s, |s| - 1) && Distinct(s)
    requires t < |next| && t !in s && next[t].None?
    ensures Within(next, n, s, t) && ListRep(n, h, Insert(s, [], t)) && l == Entry(Insert(s, [], t), |s|)
  {
    SlotIs(s, [], 0, |s|);
    PushDone(next, head, tail, [], t, s, |s|);
    assert next[t := None] == next;
    if tail.None? {
      n, h, l := next, Some(t), Some(t);
    } else {
      n, h, l := next[tail.value := Some(t)], head, Some(t);
    }
    assert n == Linked1(next, s, t, |s|);
  }

  /** priority_queue_push and sleep_queue_push, which differ in the key compared. */
  method PushNode(next: seq<Option<Tid>>, head: Option<Tid>, tail: Option<Tid>, key: seq<nat>, t: Tid,
                    ghost s: seq<Tid>)
    returns (n: seq<Option<Tid>>, h: Option<Tid>, l: Option<Tid>)
    requires ListRep(next, head, s) && tail == Entry(s, |s| - 1) && Distinct(s)
    requires t < |next| && t !in s && |key| == |next|
    ensures Within(next, n, s, t)
    ensures ListRep(n, h, Insert(s, key, t)) && l == Entry(Insert(s, key, t), |s|)
  {
    ghost var p := Slot(s, key, key[t]);
    n := next[t := None];
    if head.None? {
      h, l := Some(t), Some(t);
    } else if key[t] < key[head.value] {
      SlotIs(s, key, key[t], 0);
      n := n[t := head];
      h, l := Some(t), tail;
    } else {
      RepFrame(next, n, head, s);
      var c, i := WalkTo(n, key, head.value, key[t], s);
      n := n[t := n[c]];
      n := n[c := Some(t)];
      h, l := head, tail;
      if n[t].None? {
        l := Some(t);
      }
    }
    assert p > 0 ==> s[p - 1] < |next|;
    assert n == Linked1(next, s, t, p);
    PushDone(next, head, tail, key, t, s, p);
  }

  /** The walk of priority_queue_remove: the entry in front of t, if t is in the
      list behind its head. */
  method FindBefore(next: seq<Option<Tid>>, h: Tid, t: Tid, ghost s: seq<Tid>) returns (p: Option<Tid>, ghost i: nat)
    requires ListRep(next, Some(h), s) && s != [] && h != t && Distinct(s)
    ensures p.None? ==> t !in s
    ensures p.Some? ==> i + 1 < |s| && p.value == s[i] && s[i + 1] == t && p.value < |next|
  {
    var c := h;
    i := 0;
    while next[c].Some?
      invariant 0 <= i < |s| && c == s[i] && c < |next|
      invariant forall j :: 0 <= j <= i ==> s[j] != t
      decreases |s| - i
    {
      assert next[s[i]] == Entry(s, i + 1);
      if next[c] == Some(t) {
        return Some(c), i;
      }
      c, i := next[c].value, i + 1;
    }
    assert next[s[i]] == Entry(s, i + 1);
    p := None;
  }

  lemma RemoveTail(s: seq<Tid>, i: nat)
    requires Distinct(s) && i < |s|
    ensures var r := Remove(s, s[i]);
            r == s[..i] + s[i + 1..] && Entry(r, |r| - 1) == Entry(s, if i == |s| - 1 then i - 1 else |s| - 1)
    ensures Entry(s, |s| - 1) == Some(s[i]) <==> i == |s| - 1
  {
    RemoveAt(s, i);
  }

  lemma RemoveWithin(next: seq<Option<Tid>>, s: seq<Tid>, i: nat)
    requires i < |s| && s[i] < |next| && (i > 0 ==> s[i - 1] < |next|)
    ensures Within(next, Unlinked1(next, s, i), s, s[i]) && Unlinked1(next, s, i)[s[i]].None?
  {
    assert i > 0 ==> s[i - 1] in s;
  }

  lemma RemoveDone(next: seq<Option<Tid>>, head: Option<Tid>, s: seq<Tid>, i: nat)
    requires ListRep(next, head, s) && Distinct(s) && i < |s|
    ensures s[i] < |next| && (i > 0 ==> s[i - 1] < |next|)
    ensures ListRep(Unlinked1(next, s, i), if i == 0 then next[s[0]] else head, Remove(s, s[i]))
  {
    RepRemove(next, head, s, i);
    RemoveTail(s, i);
  }

  /** priority_queue_remove */
  method RemoveNode(next: seq<Option<Tid>>, head: Option<Tid>, tail: Option<Tid>, t: Tid, ghost s: seq<Tid>)
    returns (n: seq<Option<Tid>>, h: Option<Tid>, l: Option<Tid>)
    requires ListRep(next, head, s) && tail == Entry(s, |s| - 1) && Distinct(s) && t < |next|
    ensures Within(next, n, s, t) && (t in s ==> n[t].None?) && (t !in s ==> n == next)
    ensures ListRep(n, h, Remove(s, t)) && l == Entry(Remove(s, t), |Remove(s, t)| - 1)
  {
    n, h, l := next, head, tail;
    if head.None? {
      return;
    }
    ghost var i: nat;
    if head == Some(t) {
      i := 0;
      h := next[t];
      if tail == Some(t) {
        l := None;
      }
    } else {
      var p;
      p, i := FindBefore(next, head.value, t, s);
      if p.None? {
        return;
      }
      i := i + 1;
      n := n[p.value := n[t]];
      if tail == Some(t) {
        l := p;
      }
    }
    n := n[t := None];
    assert s[i] == t && n == Unlinked1(next, s, i);
    RemoveDone(next, head, s, i);
    RemoveWithin(next, s, i);
    assert l == Entry(Remove(s, t), |Remove(s, t)| - 1) by {
      RemoveTail(s, i);
    }
  }

  /** sleep_queue_pop of a due head: unlike the other pops it leaves the popped
      task's next field as it is. */
  method PopSleeper(next: seq<Option<Tid>>, head: Option<Tid>, tail: Option<Tid>, ghost s: seq<Tid>)
    returns (h: Option<Tid>, l: Option<Tid>)
    requires ListRep(next, head, s) && tail == Entry(s, |s| - 1) && head.Some?
    ensures ListRep(next, h, s[1..]) && l == Entry(s[1..], |s| - 2)
  {
    assert next[s[0]] == Entry(s, 1);
    forall i {:trigger next[s[1..][i]]} | 0 <= i < |s| - 1 ensures next[s[1..][i]] == Entry(s[1..], i + 1) {
      assert next[s[i + 1]] == Entry(s, i + 2);
    }
    h, l := next[head.value], tail;
    if h.None? {
      l := None;
    }
  }

  /** mutex_queue_remove, on the next_owned fields. */
  method RemoveOwned(next: seq<Option<Mid>>, head: Option<Mid>, m: Mid, ghost s: seq<Mid>)
    returns (n: seq<Option<Mid>>, h: Option<Mid>)
    requires ListRep(next, head, s) && Distinct(s) && m < |next|
    ensures Within(next, n, s, m) && (m in s ==> n[m].None?) && (m !in s ==> n == next)
    ensures ListRep(n, h, Remove(s, m))
  {
    n, h := next, head;
    ghost var i: nat;
    if head == Some(m) {
      i := 0;
      h := next[m];
    } else {
      if head.None? {
        return;
      }
      var p;
      p, i := FindBefore(next, head.value, m, s);
      if p.None? {
        return;
      }
      i := i + 1;
      n := n[p.value := n[m]];
    }
    n := n[m := None];
    assert s[i] == m && n == Unlinked1(next, s, i);
    RemoveDone(next, head, s, i);
    RemoveWithin(next, s, i);
  }
}
