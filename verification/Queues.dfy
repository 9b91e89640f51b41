/** Sequence views of the kernel's intrusive task lists: stable insertion by
    key, removal, and what both keep. A key table gives every task slot its
    ordering key (effective priority, or wake tick for the sleep list). */
module Queues {

  datatype Option<+T> = None | Some(value: T)

  ghost predicate Distinct(s: seq<nat>) {
    forall i, j :: 0 <= i < j < |s| ==> s[i] != s[j]
  }

  function Key(key: seq<nat>, t: nat): nat {
    if t < |key| then key[t] else 0
  }

  ghost predicate Sorted(s: seq<nat>, key: seq<nat>) {
    forall i, j :: 0 <= i < j < |s| ==> Key(key, s[i]) <= Key(key, s[j])
  }

  /** The position at which a task of key p joins the list: before the first
      strictly worse entry, so behind all equals. */
  function Slot(s: seq<nat>, key: seq<nat>, p: nat): (r: nat)
    ensures r <= |s|
    ensures forall i :: 0 <= i < r ==> Key(key, s[i]) <= p
    ensures r < |s| ==> Key(key, s[r]) > p
  {
    if s == [] || Key(key, s[0]) > p then 0 else 1 + Slot(s[1..], key, p)
  }

  function Insert(s: seq<nat>, key: seq<nat>, t: nat): seq<nat> {
    var p := Slot(s, key, Key(key, t));
    s[..p] + [t] + s[p..]
  }

  function Remove(s: seq<nat>, t: nat): (r: seq<nat>)
    ensures t !in s ==> r == s
  {
    if s == [] then [] else if s[0] == t then s[1..] else [s[0]] + Remove(s[1..], t)
  }

  lemma {:induction false} RemoveAt(s: seq<nat>, i: nat)
    requires Distinct(s) && i < |s|
    ensures Remove(s, s[i]) == s[..i] + s[i + 1..]
  {
    if i > 0 {
      RemoveAt(s[1..], i - 1);
      assert s[1..][i - 1] == s[i] && s[0] != s[i];
      assert [s[0]] + s[1..][..i - 1] == s[..i] && s[1..][i..] == s[i + 1..];
    }
  }

  lemma CutIndex(s: seq<nat>, i: nat, r: seq<nat>)
    requires i < |s| && r == s[..i] + s[i + 1..]
    ensures forall j {:trigger r[j]} :: 0 <= j < |r| ==> r[j] == s[if j < i then j else j + 1]
    ensures forall j {:trigger s[j]} :: 0 <= j < |s| && j != i ==> s[j] == r[if j < i then j else j - 1]
  {
  }

  lemma CutMembers(s: seq<nat>, i: nat, r: seq<nat>)
    requires Distinct(s) && i < |s| && r == s[..i] + s[i + 1..]
    ensures Distinct(r)
    ensures forall u :: u in r <==> u in s && u != s[i]
  {
    CutIndex(s, i, r);
    forall u | u in s && u != s[i] ensures u in r {
      var j :| 0 <= j < |s| && s[j] == u;
    }
  }

  /** Removal keeps the order and takes out exactly the one task. */
  lemma RemoveKeeps(s: seq<nat>, t: nat)
    requires Distinct(s)
    ensures Distinct(Remove(s, t))
    ensures forall u :: u in Remove(s, t) <==> u in s && u != t
    ensures forall key :: Sorted(s, key) ==> Sorted(Remove(s, t), key)
  {
    if t in s {
      var i :| 0 <= i < |s| && s[i] == t;
      RemoveAt(s, i);
      CutMembers(s, i, Remove(s, t));
      CutIndex(s, i, Remove(s, t));
    }
  }

  lemma InsertIndex(s: seq<nat>, p: nat, t: nat, r: seq<nat>)
    requires p <= |s| && r == s[..p] + [t] + s[p..]
    ensures r[p] == t
    ensures forall j {:trigger r[j]} :: 0 <= j < |r| ==> r[j] == if j < p then s[j] else if j == p then t else s[j - 1]
    ensures forall j {:trigger s[j]} :: 0 <= j < |s| ==> s[j] == r[if j < p then j else j + 1]
  {
  }

  lemma InsertMembers(s: seq<nat>, key: seq<nat>, t: nat)
    requires Distinct(s) && t !in s
    ensures Distinct(Insert(s, key, t))
    ensures forall u :: u in Insert(s, key, t) <==> u in s || u == t
  {
    var r := Insert(s, key, t);
    InsertIndex(s, Slot(s, key, Key(key, t)), t, r);
    forall u | u in s ensures u in r {
      var j :| 0 <= j < |s| && s[j] == u;
    }
  }

  lemma InsertSorted(s: seq<nat>, key: seq<nat>, t: nat)
    requires Sorted(s, key)
    ensures Sorted(Insert(s, key, t), key)
  {
    var p := Slot(s, key, Key(key, t));
    var r := s[..p] + [t] + s[p..];
    forall i, j | 0 <= i < j < |r| ensures Key(key, r[i]) <= Key(key, r[j]) {
      assert r[i] == (if i < p then s[i] else if i == p then t else s[i - 1]);
      assert r[j] == (if j < p then s[j] else if j == p then t else s[j - 1]);
      if i == p {
        assert Key(key, s[p]) <= Key(key, s[j - 1]);
      }
    }
  }

  /** The insertion point is determined by its two defining comparisons. */
  lemma SlotIs(s: seq<nat>, key: seq<nat>, p: nat, r: nat)
    requires r <= |s|
    requires forall i :: 0 <= i < r ==> Key(key, s[i]) <= p
    requires r < |s| ==> Key(key, s[r]) > p
    ensures Slot(s, key, p) == r
  {
  }

  /** With no key to compare, insertion is first in, first out. */
  lemma InsertFifo(s: seq<nat>, t: nat)
    ensures Insert(s, [], t) == s + [t]
  {
    SlotIs(s, [], 0, |s|);
  }
}
