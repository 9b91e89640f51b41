/** The per-task lists of owned mutexes, threaded through next_owned, and what
    linking a mutex into one of them does while it is still in another. */
module OwnedLists {
  import opened Queues
  import opened KernelState
  import opened TaskLinks
  import opened ListOps

  ghost predicate OwnOk(next: seq<Option<Mid>>, heads: seq<Option<Mid>>, owned: seq<seq<Mid>>) {
    |heads| == |owned| && forall t {:trigger owned[t]} :: 0 <= t < |owned| ==> ListRep(next, heads[t], owned[t])
  }

  /** No mutex is in two owned lists, or twice in one. */
  ghost predicate Apart(owned: seq<seq<Mid>>) {
    && (forall t, u, x: nat {:trigger x in owned[t], x in owned[u]} ::
          0 <= t < |owned| && 0 <= u < |owned| && x in owned[t] && x in owned[u] ==> t == u)
    && (forall t {:trigger Distinct(owned[t])} :: 0 <= t < |owned| ==> Distinct(owned[t]))
  }

  /** mutex_queue_push of a mutex in no list */
  lemma OwnPush(next: seq<Option<Mid>>, heads: seq<Option<Mid>>, owned: seq<seq<Mid>>, t: Tid, m: Mid)
    requires OwnOk(next, heads, owned) && t < |owned| && m < |next|
    requires forall u :: 0 <= u < |owned| ==> m !in owned[u]
    ensures OwnOk(next[m := heads[t]], heads[t := Some(m)], owned[t := [m] + owned[t]])
  {
    var next1, heads1, owned1 := next[m := heads[t]], heads[t := Some(m)], owned[t := [m] + owned[t]];
    forall u {:trigger owned1[u]} | 0 <= u < |owned| ensures ListRep(next1, heads1[u], owned1[u]) {
      assert m !in owned[u];
      RepFrame(next, next1, heads[u], owned[u]);
      if u == t {
        RepCons(next1, heads[t], owned[t], m);
      }
    }
  }

  /** A task that starts over owns nothing. */
  lemma OwnClear(next: seq<Option<Mid>>, heads: seq<Option<Mid>>, owned: seq<seq<Mid>>, t: Tid)
    requires OwnOk(next, heads, owned) && t < |owned|
    ensures OwnOk(next, heads[t := None], owned[t := []])
  {
    var heads1, owned1 := heads[t := None], owned[t := []];
    forall u {:trigger owned1[u]} | 0 <= u < |owned| ensures ListRep(next, heads1[u], owned1[u]) {
      if u != t {
        assert ListRep(next, heads[u], owned[u]);
      }
    }
  }

  lemma RepCons(next: seq<Option<Mid>>, head: Option<Mid>, s: seq<Mid>, m: Mid)
    requires ListRep(next, head, s) && m < |next| && next[m] == head
    ensures ListRep(next, Some(m), [m] + s)
  {
    var r := [m] + s;
    forall i {:trigger next[r[i]]} | 0 <= i < |r| ensures r[i] < |next| && next[r[i]] == Entry(r, i + 1) {
      if i > 0 {
        assert r[i] == s[i - 1] && next[s[i - 1]] == Entry(s, i);
      }
    }
  }

  /** Removing m from task t's list, when only that list changes. */
  lemma OwnRemove(next: seq<Option<Mid>>, heads: seq<Option<Mid>>, owned: seq<seq<Mid>>, t: Tid, m: Mid,
                  next1: seq<Option<Mid>>, h: Option<Mid>)
    requires OwnOk(next, heads, owned) && Apart(owned) && t < |owned| && m in owned[t]
    requires Within(next, next1, owned[t], m) && ListRep(next1, h, Remove(owned[t], m))
    ensures OwnOk(next1, heads[t := h], owned[t := Remove(owned[t], m)])
  {
    var heads1, owned1 := heads[t := h], owned[t := Remove(owned[t], m)];
    forall u {:trigger owned1[u]} | 0 <= u < |owned| ensures ListRep(next1, heads1[u], owned1[u]) {
      if u != t {
        assert ListRep(next, heads[u], owned[u]);
        forall x: nat | x in owned[u] ensures x < |next| && next1[x] == next[x] {
          assert x !in owned[t];
        }
        RepFrame(next, next1, heads[u], owned[u]);
      }
    }
  }

  // ---- the spliced state between the two list operations ----

  lemma {:induction false} BeforeIndex(s: seq<Mid>, i: nat)
    requires Distinct(s) && i < |s|
    ensures Before(s, s[i]) == s[..i]
  {
    if i > 0 {
      BeforeIndex(s[1..], i - 1);
      assert s[0] != s[i] && s[1..][i - 1] == s[i] && [s[0]] + s[1..][..i - 1] == s[..i];
    }
  }

  lemma RepSplice(next: seq<Option<Mid>>, hc: Option<Mid>, sc: seq<Mid>, hn: Option<Mid>, sn: seq<Mid>, i: nat)
    requires ListRep(next, hc, sc) && ListRep(next, hn, sn) && Distinct(sc) && i < |sc| && sc[i] !in sn
    ensures sc[i] < |next| && ListRep(next[sc[i] := hn], hc, sc[..i] + [sc[i]] + sn)
  {
    var m := sc[i];
    var next1, r := next[m := hn], sc[..i] + [m] + sn;
    forall j {:trigger next1[r[j]]} | 0 <= j < |r| ensures r[j] < |next1| && next1[r[j]] == Entry(r, j + 1) {
      if j < i {
        assert r[j] == sc[j] && sc[j] != m && next[sc[j]] == Entry(sc, j + 1);
      } else if j > i {
        assert r[j] == sn[j - i - 1] && r[j] in sn && next[sn[j - i - 1]] == Entry(sn, j - i);
      }
    }
  }

  function Spliced(owned: seq<seq<Mid>>, c: Tid, n: Tid, m: Mid): seq<seq<Mid>>
    requires c < |owned| && n < |owned|
  {
    owned[n := [m] + owned[n]][c := Before(owned[c], m) + [m] + owned[n]]
  }

  /** Linking m into n's list while it is in c's makes c's list run into n's. */
  lemma OwnSplice(next: seq<Option<Mid>>, heads: seq<Option<Mid>>, owned: seq<seq<Mid>>, c: Tid, n: Tid, m: Mid)
    requires OwnOk(next, heads, owned) && Apart(owned) && c < |owned| && n < |owned| && c != n
    requires m < |next| && m in owned[c]
    ensures OwnOk(next[m := heads[n]], heads[n := Some(m)], Spliced(owned, c, n, m))
  {
    var next1, heads1, owned1 := next[m := heads[n]], heads[n := Some(m)], Spliced(owned, c, n, m);
    forall u {:trigger owned1[u]} | 0 <= u < |owned| ensures ListRep(next1, heads1[u], owned1[u]) {
      assert u != c ==> m !in owned[u];
      if u == c {
        var i :| 0 <= i < |owned[c]| && owned[c][i] == m;
        assert Distinct(owned[c]);
        BeforeIndex(owned[c], i);
        RepSplice(next, heads[c], owned[c], heads[n], owned[n], i);
      } else {
        RepFrame(next, next1, heads[u], owned[u]);
        if u == n {
          RepCons(next1, heads[n], owned[n], m);
        }
      }
    }
  }

  lemma SpliceIndex(s: seq<Mid>, i: nat, sn: seq<Mid>, r: seq<Mid>)
    requires i < |s| && r == s[..i] + [s[i]] + sn
    ensures forall a {:trigger r[a]} :: 0 <= a < |r| ==> r[a] == if a <= i then s[a] else sn[a - i - 1]
    ensures r[..i] + r[i + 1..] == s[..i] + sn
  {
  }

  lemma SpliceDistinct(s: seq<Mid>, i: nat, sn: seq<Mid>, r: seq<Mid>)
    requires Distinct(s) && Distinct(sn) && i < |s| && r == s[..i] + [s[i]] + sn && forall x: nat :: x in s ==> x !in sn
    ensures Distinct(r)
  {
    SpliceIndex(s, i, sn, r);
    forall a, b | 0 <= a < b < |r| ensures r[a] != r[b] {
      if a <= i < b {
        assert s[a] in s && sn[b - i - 1] in sn;
      }
    }
  }

  lemma {:induction false} SplicedList(s: seq<Mid>, m: Mid, sn: seq<Mid>)
    requires Distinct(s) && m in s && Distinct(sn) && m !in sn && forall x: nat :: x in s ==> x !in sn
    ensures Distinct(Before(s, m) + [m] + sn) && Remove(Before(s, m) + [m] + sn, m) == Before(s, m) + sn
  {
    var i :| 0 <= i < |s| && s[i] == m;
    BeforeIndex(s, i);
    var r := s[..i] + [s[i]] + sn;
    SpliceDistinct(s, i, sn, r);
    SpliceIndex(s, i, sn, r);
    RemoveAt(r, i);
  }

  ghost predicate Unlinking(next: seq<Option<Mid>>, owned: seq<seq<Mid>>, c: Tid, n: Tid, m: Mid,
                            next1: seq<Option<Mid>>, h: Option<Mid>)
    requires c < |owned| && n < |owned|
  {
    var s := Before(owned[c], m) + [m] + owned[n];
    Within(next, next1, s, m) && ListRep(next1, h, Remove(s, m)) && m < |next| && next1[m].None?
  }

  lemma {:induction false} BeforeMembers(s: seq<Mid>, m: Mid)
    ensures forall x :: x in Before(s, m) ==> x in s
  {
    if s != [] && s[0] != m {
      BeforeMembers(s[1..], m);
    }
  }

  lemma UnspliceOther(next: seq<Option<Mid>>, head: Option<Mid>, owned: seq<seq<Mid>>, c: Tid, n: Tid, m: Mid,
                      next1: seq<Option<Mid>>, h: Option<Mid>, u: Tid)
    requires Apart(owned) && c < |owned| && n < |owned| && m in owned[c] && u < |owned| && u != c && u != n
    requires Unlinking(next, owned, c, n, m, next1, h) && ListRep(next, head, owned[u])
    ensures ListRep(next1, head, owned[u])
  {
    BeforeMembers(owned[c], m);
    var s := Before(owned[c], m) + [m] + owned[n];
    forall x: nat | x in owned[u] ensures x < |next| && next1[x] == next[x] {
      assert x !in owned[c] && x !in owned[n];
      assert x !in s;
    }
    RepFrame(next, next1, head, owned[u]);
  }

  lemma UnspliceHere(owned: seq<seq<Mid>>, c: Tid, n: Tid, m: Mid)
    requires Apart(owned) && c < |owned| && n < |owned| && c != n && m in owned[c]
    ensures Remove(Before(owned[c], m) + [m] + owned[n], m) == Before(owned[c], m) + owned[n]
  {
    assert Distinct(owned[c]) && Distinct(owned[n]);
    assert m !in owned[n] && forall x: nat :: x in owned[c] ==> x !in owned[n];
    SplicedList(owned[c], m, owned[n]);
  }

  /** Unlinking m from the spliced list: c is left with n's mutexes, n with m alone. */
  lemma OwnUnsplice(next: seq<Option<Mid>>, heads: seq<Option<Mid>>, owned: seq<seq<Mid>>, c: Tid, n: Tid, m: Mid,
                    next1: seq<Option<Mid>>, h: Option<Mid>)
    requires Apart(owned) && c < |owned| && n < |owned| && c != n && m in owned[c]
    requires OwnOk(next, heads, Spliced(owned, c, n, m)) && heads[n] == Some(m)
    requires Unlinking(next, owned, c, n, m, next1, h)
    ensures OwnOk(next1, heads[c := h], HandOwned(owned, c, n, m, false))
  {
    var owned0, owned1 := Spliced(owned, c, n, m), HandOwned(owned, c, n, m, false);
    UnspliceHere(owned, c, n, m);
    forall u {:trigger owned1[u]} | 0 <= u < |owned| ensures ListRep(next1, heads[c := h][u], owned1[u]) {
      if u != c && u != n {
        assert owned0[u] == owned[u];
        UnspliceOther(next, heads[u], owned, c, n, m, next1, h, u);
      }
    }
  }
}
