/** The intrusive singly linked lists: what the next, head and tail fields must
    hold for them to represent given sequences, and how one insertion or one
    removal re-establishes that for all lists at once. */
module TaskLinks {
  import opened Queues
  import opened KernelState
  import opened KernelInvariant

  type Ends = map<QueueRef, Option<Tid>>

  function End(ends: Ends, q: QueueRef): Option<Tid> {
    if q in ends then ends[q] else None
  }

  /** s[i], or null past the end. */
  function Entry(s: seq<nat>, i: int): Option<nat> {
    if 0 <= i < |s| then Some(s[i]) else None
  }

  ghost predicate ListRep(next: seq<Option<nat>>, head: Option<nat>, s: seq<nat>) {
    && head == Entry(s, 0)
    && (forall i {:trigger s[i]} :: 0 <= i < |s| ==> s[i] < |next|)
    && (forall i {:trigger next[s[i]]} :: 0 <= i < |s| ==> next[s[i]] == Entry(s, i + 1))
  }

  ghost predicate Chained(next: seq<Option<Tid>>, head: Ends, queue: map<QueueRef, seq<Tid>>) {
    forall q {:trigger ListRep(next, End(head, q), At(queue, q))} :: ListRep(next, End(head, q), At(queue, q))
  }

  ghost predicate Tailed(tail: Ends, queue: map<QueueRef, seq<Tid>>) {
    forall q {:trigger End(tail, q)} :: End(tail, q) == Entry(At(queue, q), |At(queue, q)| - 1)
  }

  ghost predicate Links(next: seq<Option<Tid>>, head: Ends, tail: Ends,
                        queue: map<QueueRef, seq<Tid>>, home: seq<Option<QueueRef>>) {
    && |next| == |home|
    && HomeOk(queue, home)
    && Chained(next, head, queue)
    && Tailed(tail, queue)
  }

  /** Writes to the next fields of tasks outside a list do not disturb it. */
  lemma RepFrame(next: seq<Option<nat>>, next1: seq<Option<nat>>, head: Option<nat>, s: seq<nat>)
    requires ListRep(next, head, s) && |next1| == |next|
    requires forall t: nat :: t in s ==> t < |next| && next1[t] == next[t]
    ensures ListRep(next1, head, s)
  {
    forall i {:trigger next1[s[i]]} | 0 <= i < |s| ensures next1[s[i]] == Entry(s, i + 1) {
      assert s[i] in s;
      assert next[s[i]] == Entry(s, i + 1);
    }
  }

  function Linked1(next: seq<Option<nat>>, s: seq<nat>, t: nat, p: nat): seq<Option<nat>>
    requires t < |next| && p <= |s| && (p > 0 ==> s[p - 1] < |next|)
  {
    var n1 := next[t := Entry(s, p)];
    if p == 0 then n1 else n1[s[p - 1] := Some(t)]
  }

  lemma RepInsert(next: seq<Option<nat>>, head: Option<nat>, s: seq<nat>, t: nat, p: nat)
    requires ListRep(next, head, s) && Distinct(s) && t < |next| && t !in s && p <= |s|
    ensures p > 0 ==> s[p - 1] < |next|
    ensures ListRep(Linked1(next, s, t, p), if p == 0 then Some(t) else head, s[..p] + [t] + s[p..])
  {
    var r := s[..p] + [t] + s[p..];
    var n1 := Linked1(next, s, t, p);
    forall i {:trigger n1[r[i]]} | 0 <= i < |r| ensures r[i] < |n1| && n1[r[i]] == Entry(r, i + 1) {
      var j := if i <= p then i else i - 1;
      assert r[i] == if i == p then t else s[j];
      assert i + 1 < |r| ==> r[i + 1] == if i + 1 == p then t else if i < p then s[i + 1] else s[i];
      if i != p {
        assert s[j] != t && next[s[j]] == Entry(s, j + 1);
        assert p > 0 && j != p - 1 ==> s[j] != s[p - 1];
      }
    }
  }

  function Unlinked1(next: seq<Option<nat>>, s: seq<nat>, i: nat): seq<Option<nat>>
    requires i < |s| && s[i] < |next| && (i > 0 ==> s[i - 1] < |next|)
  {
    var n1 := if i == 0 then next else next[s[i - 1] := next[s[i]]];
    n1[s[i] := None]
  }

  lemma RepRemove(next: seq<Option<nat>>, head: Option<nat>, s: seq<nat>, i: nat)
    requires ListRep(next, head, s) && Distinct(s) && i < |s|
    ensures s[i] < |next| && (i > 0 ==> s[i - 1] < |next|)
    ensures ListRep(Unlinked1(next, s, i), if i == 0 then next[s[0]] else head, s[..i] + s[i + 1..])
  {
    var r := s[..i] + s[i + 1..];
    assert next[s[i]] == Entry(s, i + 1);
    assert i > 0 ==> s[i - 1] < |next|;
    var n1 := Unlinked1(next, s, i);
    forall j {:trigger n1[r[j]]} | 0 <= j < |r| ensures r[j] < |n1| && n1[r[j]] == Entry(r, j + 1) {
      if j < i {
        assert r[j] == s[j] && s[j] != s[i];
        assert next[s[j]] == Entry(s, j + 1);
        assert j + 1 < i ==> s[j] != s[i - 1] && r[j + 1] == s[j + 1];
      } else {
        assert r[j] == s[j + 1] && s[j + 1] != s[i];
        assert next[s[j + 1]] == Entry(s, j + 2);
        assert i > 0 ==> s[j + 1] != s[i - 1];
      }
    }
  }

  // ---- all lists at once ----

  /** Only members of list q and task t had their next field written. */
  ghost predicate Untouched(next: seq<Option<Tid>>, n: seq<Option<Tid>>, home: seq<Option<QueueRef>>,
                              q: QueueRef, t: Tid) {
    |n| == |next| == |home|
    && forall x {:trigger n[x]} :: 0 <= x < |home| && home[x] != Some(q) && x != t ==> n[x] == next[x]
  }

  /** The lists other than q are untouched by next-field writes inside q. */
  lemma ChainOthers(next: seq<Option<Tid>>, next1: seq<Option<Tid>>, head: Ends, queue: map<QueueRef, seq<Tid>>,
                    home: seq<Option<QueueRef>>, q: QueueRef, t: Tid, h: Option<Tid>, s: seq<Tid>)
    requires HomeOk(queue, home) && Chained(next, head, queue) && Untouched(next, next1, home, q, t)
    requires t < |home| && (home[t].None? || home[t] == Some(q))
    requires ListRep(next1, h, s)
    ensures Chained(next1, head[q := h], queue[q := s])
  {
    forall u {:trigger ListRep(next1, End(head[q := h], u), At(queue[q := s], u))}
      ensures ListRep(next1, End(head[q := h], u), At(queue[q := s], u))
    {
      if u != q {
        forall x: nat | x in At(queue, u) ensures x < |next| && next1[x] == next[x] {
          assert home[x] == Some(u);
        }
        assert ListRep(next, End(head, u), At(queue, u));
        RepFrame(next, next1, End(head, u), At(queue, u));
      }
    }
  }

  /** One list changed by writes to the next fields of its own members and of
      tasks in no list: all lists are again represented. */
  lemma Relink(next: seq<Option<Tid>>, next1: seq<Option<Tid>>, head: Ends, tail: Ends, queue: map<QueueRef, seq<Tid>>,
               home: seq<Option<QueueRef>>, home1: seq<Option<QueueRef>>, q: QueueRef,
               t: Tid, h: Option<Tid>, l: Option<Tid>, s: seq<Tid>)
    requires Links(next, head, tail, queue, home) && |home1| == |home| && Untouched(next, next1, home, q, t)
    requires t < |home| && (home[t].None? || home[t] == Some(q))
    requires ListRep(next1, h, s) && l == Entry(s, |s| - 1) && HomeOk(queue[q := s], home1)
    ensures Links(next1, head[q := h], tail[q := l], queue[q := s], home1)
  {
    ChainOthers(next, next1, head, queue, home, q, t, h, s);
    forall u {:trigger End(tail[q := l], u)}
      ensures End(tail[q := l], u) == Entry(At(queue[q := s], u), |At(queue[q := s], u)| - 1)
    {
      assert End(tail, u) == Entry(At(queue, u), |At(queue, u)| - 1);
    }
  }

  lemma ListOf(next: seq<Option<Tid>>, head: Ends, tail: Ends, queue: map<QueueRef, seq<Tid>>,
               home: seq<Option<QueueRef>>, q: QueueRef)
    requires Links(next, head, tail, queue, home)
    ensures var s := At(queue, q);
            ListRep(next, End(head, q), s) && End(tail, q) == Entry(s, |s| - 1) && Distinct(s)
            && forall x: nat :: x in s <==> x < |home| && home[x] == Some(q)
  {
    assert ListRep(next, End(head, q), At(queue, q)) && Distinct(At(queue, q));
    forall x: nat | x < |home| && home[x] == Some(q) ensures x in At(queue, q) {
    }
  }
}
