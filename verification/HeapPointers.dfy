/** The heap as its callers see it: which pointers are in use and how large their
    blocks are, after each call and over every run. */
module HeapPointers {
  import opened Machine
  import opened HeapBlocks
  import opened HeapRuns

  /** A block in use of sz bytes has its payload at p. */
  ghost predicate UsedAt(bs: seq<Block>, p: nat, sz: nat) {
    exists j: nat {:trigger bs[j]} :: j < |bs| && !bs[j].free && Payload(bs[j]) == p && bs[j].size == sz
  }

  lemma UsedIndex(bs: seq<Block>, j: nat)
    requires j < |bs| && !bs[j].free
    ensures UsedAt(bs, Payload(bs[j]), bs[j].size)
  {
  }

  lemma SamePayload(bs: seq<Block>, lo: nat, hi: nat, i: nat, j: nat)
    requires Tiles(bs, lo, hi) && i < |bs| && j < |bs| && Payload(bs[i]) == Payload(bs[j])
    ensures i == j
  {
    if i < j {
      Disjoint(bs, lo, hi, i, j);
    } else if j < i {
      Disjoint(bs, lo, hi, j, i);
    }
  }

  /** Every block in use of a is one of b. */
  ghost predicate UsedWithin(a: seq<Block>, b: seq<Block>) {
    forall j: nat {:trigger a[j]} :: j < |a| && !a[j].free ==> UsedAt(b, Payload(a[j]), a[j].size)
  }

  lemma SameUsed(a: seq<Block>, b: seq<Block>)
    requires UsedWithin(a, b) && UsedWithin(b, a)
    ensures forall p, sz: nat :: UsedAt(a, p, sz) <==> UsedAt(b, p, sz)
  {
    forall p, sz: nat ensures UsedAt(a, p, sz) <==> UsedAt(b, p, sz) {
      if UsedAt(a, p, sz) {
        var j: nat :| j < |a| && !a[j].free && Payload(a[j]) == p && a[j].size == sz;
        assert UsedAt(b, Payload(a[j]), a[j].size);
      }
      if UsedAt(b, p, sz) {
        var j: nat :| j < |b| && !b[j].free && Payload(b[j]) == p && b[j].size == sz;
        assert UsedAt(a, Payload(b[j]), b[j].size);
      }
    }
  }

  // ---- kfree ----

  lemma MergeUsed(bs: seq<Block>, k: nat)
    requires k < |bs|
    ensures forall p, sz: nat :: UsedAt(MergeIf(bs, k), p, sz) <==> UsedAt(bs, p, sz)
  {
    var r := MergeIf(bs, k);
    if k + 1 < |bs| && bs[k].free && bs[k + 1].free {
      forall j: nat {:trigger r[j]} | j < |r| && !r[j].free ensures UsedAt(bs, Payload(r[j]), r[j].size) {
        MergeAt(bs, k, j);
        UsedIndex(bs, if j < k then j else j + 1);
      }
      forall j: nat {:trigger bs[j]} | j < |bs| && !bs[j].free ensures UsedAt(r, Payload(bs[j]), bs[j].size) {
        var x := if j < k then j else j - 1;
        MergeAt(bs, k, x);
        UsedIndex(r, x);
      }
      SameUsed(r, bs);
    }
  }

  lemma MarkUsed(bs: seq<Block>, i: nat, lo: nat, hi: nat)
    requires Tiles(bs, lo, hi) && i < |bs|
    ensures var m := bs[i := bs[i].(free := true)];
            forall p, sz: nat :: UsedAt(m, p, sz) <==> UsedAt(bs, p, sz) && p != Payload(bs[i])
  {
    var m := bs[i := bs[i].(free := true)];
    forall p, sz: nat ensures UsedAt(m, p, sz) <==> UsedAt(bs, p, sz) && p != Payload(bs[i]) {
      if UsedAt(m, p, sz) {
        var j: nat :| j < |m| && !m[j].free && Payload(m[j]) == p && m[j].size == sz;
        UsedIndex(bs, j);
        if p == Payload(bs[i]) {
          SamePayload(bs, lo, hi, i, j);
        }
      }
      if UsedAt(bs, p, sz) && p != Payload(bs[i]) {
        var j: nat :| j < |bs| && !bs[j].free && Payload(bs[j]) == p && bs[j].size == sz;
        UsedIndex(m, j);
      }
    }
  }

  /** Block x lies inside a free block. */
  ghost predicate InsideFree(bs: seq<Block>, x: Block) {
    exists j: nat {:trigger bs[j]} :: j < |bs| && bs[j].free && bs[j].addr <= x.addr && Limit(x) <= Limit(bs[j])
  }

  lemma MergeInside(bs: seq<Block>, k: nat, lo: nat, hi: nat, x: Block)
    requires Tiles(bs, lo, hi) && k < |bs| && InsideFree(bs, x)
    ensures InsideFree(MergeIf(bs, k), x)
  {
    var r := MergeIf(bs, k);
    var j: nat :| j < |bs| && bs[j].free && bs[j].addr <= x.addr && Limit(x) <= Limit(bs[j]);
    if k + 1 < |bs| && bs[k].free && bs[k + 1].free {
      assert Adjoins(bs, k + 1);
      var y := if j <= k then j else j - 1;
      MergeAt(bs, k, y);
      assert r[y].free && r[y].addr <= x.addr && Limit(x) <= Limit(r[y]);
    } else {
      assert r[j].free;
    }
  }

  /** kfree takes exactly its own block out of use: every other pointer stays in use
      with its size, and all of the block then lies inside a free one. */
  lemma FreeOutcome(bs: seq<Block>, i: nat, lo: nat, hi: nat)
    requires HeapOk(bs, lo, hi) && i < |bs|
    ensures forall p, sz: nat :: UsedAt(Free(bs, i), p, sz) <==> UsedAt(bs, p, sz) && p != Payload(bs[i])
    ensures InsideFree(Free(bs, i), bs[i])
  {
    var m := bs[i := bs[i].(free := true)];
    MarkUsed(bs, i, lo, hi);
    MarkTiles(bs, i, lo, hi);
    assert m[i].free && m[i].addr == bs[i].addr && Limit(m[i]) == Limit(bs[i]);
    MergeUsed(m, i);
    MergeInside(m, i, lo, hi, bs[i]);
    var r := MergeIf(m, i);
    MergeIfTiles(m, i, lo, hi);
    if i > 0 {
      MergeUsed(r, i - 1);
      MergeInside(r, i - 1, lo, hi, bs[i]);
    }
  }

  lemma MarkTiles(bs: seq<Block>, i: nat, lo: nat, hi: nat)
    requires Tiles(bs, lo, hi) && Aligned(bs) && i < |bs|
    ensures var m := bs[i := bs[i].(free := true)]; Tiles(m, lo, hi) && Aligned(m)
  {
    var m := bs[i := bs[i].(free := true)];
    forall j | 0 < j < |m| ensures Adjoins(m, j) {
      assert Adjoins(bs, j);
    }
  }

  lemma MergeIfTiles(bs: seq<Block>, k: nat, lo: nat, hi: nat)
    requires Tiles(bs, lo, hi) && Aligned(bs) && k < |bs|
    ensures Tiles(MergeIf(bs, k), lo, hi) && Aligned(MergeIf(bs, k))
  {
    if k + 1 < |bs| {
      MergeTiles(bs, k, lo, hi);
    }
  }

  // ---- kmalloc ----

  lemma CutUsed(bs: seq<Block>, i: nat, n: nat)
    requires i < |bs| && bs[i].free && n + HDR <= bs[i].size
    ensures forall p, sz: nat :: UsedAt(Cut(bs, i, n), p, sz) <==> UsedAt(bs, p, sz) || (p == Payload(bs[i]) && sz == n)
  {
    var r := Cut(bs, i, n);
    CutAt(bs, i, n, i);
    forall p, sz: nat ensures UsedAt(r, p, sz) <==> UsedAt(bs, p, sz) || (p == Payload(bs[i]) && sz == n) {
      if UsedAt(r, p, sz) {
        var j: nat :| j < |r| && !r[j].free && Payload(r[j]) == p && r[j].size == sz;
        CutAt(bs, i, n, j);
        if j != i {
          UsedIndex(bs, if j < i then j else j - 1);
        }
      }
      if UsedAt(bs, p, sz) {
        var j: nat :| j < |bs| && !bs[j].free && Payload(bs[j]) == p && bs[j].size == sz;
        var x := if j < i then j else j + 1;
        CutAt(bs, i, n, x);
        UsedIndex(r, x);
      }
      UsedIndex(r, i);
    }
  }

  lemma WholeUsed(bs: seq<Block>, i: nat)
    requires i < |bs| && bs[i].free
    ensures var r := bs[i := bs[i].(free := false)];
            forall p, sz: nat :: UsedAt(r, p, sz) <==> UsedAt(bs, p, sz) || (p == Payload(bs[i]) && sz == bs[i].size)
  {
    var r := bs[i := bs[i].(free := false)];
    forall p, sz: nat ensures UsedAt(r, p, sz) <==> UsedAt(bs, p, sz) || (p == Payload(bs[i]) && sz == bs[i].size) {
      if UsedAt(r, p, sz) {
        var j: nat :| j < |r| && !r[j].free && Payload(r[j]) == p && r[j].size == sz;
        if j != i {
          UsedIndex(bs, j);
        }
      }
      if UsedAt(bs, p, sz) {
        var j: nat :| j < |bs| && !bs[j].free && Payload(bs[j]) == p && bs[j].size == sz;
        UsedIndex(r, j);
      }
      UsedIndex(r, i);
    }
  }

  /** The size of the block that serves a request. */
  function Granted(bs: seq<Block>, n: nat): nat {
    match FirstFit(bs, Rounded(n), 0)
    case None => 0
    case Some(i) => if Splits(bs[i], Rounded(n)) then Rounded(n) else bs[i].size
  }

  /** kmalloc brings exactly one pointer into use, one that was not, with at least the
      rounded size and less than a header and a minimal block more; every other
      pointer stays in use with its size. */
  lemma MallocOutcome(bs: seq<Block>, n: nat, lo: nat, hi: nat)
    requires HeapOk(bs, lo, hi) && 0 < n < U32 && Malloc(bs, n).1.Some?
    ensures var (r, p) := Malloc(bs, n);
            && (forall q, sz: nat :: UsedAt(r, q, sz) <==> UsedAt(bs, q, sz) || (q == p.value && sz == Granted(bs, n)))
            && (forall sz: nat :: !UsedAt(bs, p.value, sz))
            && Rounded(n) <= Granted(bs, n) < Rounded(n) + HDR + ALIGN
  {
    RoundedIs(n);
    var i, z := FirstFit(bs, Rounded(n), 0).value, Rounded(n);
    SplitsIs(bs, lo, hi, i, z);
    if Splits(bs[i], z) {
      CutUsed(bs, i, z);
    } else {
      WholeUsed(bs, i);
    }
    forall sz: nat ensures !UsedAt(bs, Payload(bs[i]), sz) {
      FreeNotUsed(bs, i, lo, hi, sz);
    }
  }

  lemma FreeNotUsed(bs: seq<Block>, i: nat, lo: nat, hi: nat, sz: nat)
    requires Tiles(bs, lo, hi) && i < |bs| && bs[i].free
    ensures !UsedAt(bs, Payload(bs[i]), sz)
  {
    forall j: nat {:trigger bs[j]} | j < |bs| && Payload(bs[j]) == Payload(bs[i]) ensures j == i {
      SamePayload(bs, lo, hi, i, j);
    }
  }

  // ---- whole runs ----

  /** The pointers the callers hold, with their sizes, are the ones in use. */
  ghost predicate Tracks(bs: seq<Block>, live: map<nat, nat>) {
    forall p, sz: nat :: UsedAt(bs, p, sz) <==> p in live && live[p] == sz
  }

  function HeldAfter(bs: seq<Block>, c: Call, live: map<nat, nat>): map<nat, nat> {
    match c
    case CallFree(p) => live - {p}
    case CallMalloc(n) =>
      match Malloc(bs, n).1
      case None => live
      case Some(p) => live[p := Granted(bs, n)]
  }

  function HeldAtEnd(h: Heads, calls: seq<Call>, fixPrev: bool, live: map<nat, nat>): map<nat, nat>
    decreases |calls|
  {
    if calls == [] || !Legal(h.bs, calls[0]) then live
    else HeldAtEnd(Next(h, calls[0], fixPrev), calls[1..], fixPrev, HeldAfter(h.bs, calls[0], live))
  }

  function EndOf(h: Heads, calls: seq<Call>, fixPrev: bool): Heads
    decreases |calls|
  {
    if calls == [] || !Legal(h.bs, calls[0]) then h else EndOf(Next(h, calls[0], fixPrev), calls[1..], fixPrev)
  }

  lemma TracksStep(h: Heads, c: Call, fixPrev: bool, live: map<nat, nat>, lo: nat, hi: nat)
    requires HeapOk(h.bs, lo, hi) && Legal(h.bs, c) && Tracks(h.bs, live)
    ensures HeapOk(Next(h, c, fixPrev).bs, lo, hi)
    ensures Tracks(Next(h, c, fixPrev).bs, HeldAfter(h.bs, c, live))
  {
    match c
    case CallMalloc(n) =>
      MallocKeeps(h.bs, n, lo, hi);
      if n > 0 && Malloc(h.bs, n).1.Some? {
        MallocOutcome(h.bs, n, lo, hi);
        assert forall sz: nat :: !UsedAt(h.bs, Malloc(h.bs, n).1.value, sz);
        TracksMore(h.bs, Malloc(h.bs, n).0, live, Malloc(h.bs, n).1.value, Granted(h.bs, n));
      }
    case CallFree(p) =>
      var i := Used(h.bs, p, 0).value;
      FreeKeeps(h.bs, i, lo, hi);
      FreeOutcome(h.bs, i, lo, hi);
  }

  lemma TracksMore(bs: seq<Block>, r: seq<Block>, live: map<nat, nat>, p: nat, n: nat)
    requires Tracks(bs, live) && forall sz: nat :: !UsedAt(bs, p, sz)
    requires forall q, sz: nat :: UsedAt(r, q, sz) <==> UsedAt(bs, q, sz) || (q == p && sz == n)
    ensures Tracks(r, live[p := n])
  {
    assert forall q :: q in live ==> UsedAt(bs, q, live[q]);
  }

  /** Over every run: the pointers in use, with their sizes, are exactly those kmalloc
      has returned and kfree has not taken back. */
  lemma {:induction false} RunTracks(h: Heads, calls: seq<Call>, fixPrev: bool, live: map<nat, nat>, lo: nat, hi: nat)
    requires HeapOk(h.bs, lo, hi) && Traces(h, calls, fixPrev) && Tracks(h.bs, live)
    ensures HeapOk(EndOf(h, calls, fixPrev).bs, lo, hi)
    ensures Tracks(EndOf(h, calls, fixPrev).bs, HeldAtEnd(h, calls, fixPrev, live))
    decreases |calls|
  {
    if calls != [] {
      TracksStep(h, calls[0], fixPrev, live, lo, hi);
      RunTracks(Next(h, calls[0], fixPrev), calls[1..], fixPrev, HeldAfter(h.bs, calls[0], live), lo, hi);
    }
  }
}
