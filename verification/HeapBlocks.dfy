/** The heap as the sequence of its blocks in address order: first-fit
    allocation with splitting, and freeing with coalescing. */
module HeapBlocks {
  import opened Machine
  import opened Queues

  /** sizeof(heap_block_t) */
  const HDR: nat := 16
  const ALIGN: nat := 8

  datatype Block = Block(addr: nat, size: nat, free: bool)

  function Payload(b: Block): nat { b.addr + HDR }

  function Limit(b: Block): nat { b.addr + HDR + b.size }

  /** Block i starts where its predecessor ends. */
  ghost predicate Adjoins(bs: seq<Block>, i: nat)
    requires 0 < i < |bs|
  {
    bs[i].addr == Limit(bs[i - 1])
  }

  /** Block i and its predecessor are not both free. */
  ghost predicate Apart(bs: seq<Block>, i: nat)
    requires 0 < i < |bs|
  {
    !(bs[i - 1].free && bs[i].free)
  }

  /** Header plus payload blocks tile the heap from lo to hi exactly. */
  ghost predicate Tiles(bs: seq<Block>, lo: nat, hi: nat) {
    && bs != [] && bs[0].addr == lo && Limit(bs[|bs| - 1]) == hi
    && forall i :: 0 < i < |bs| ==> Adjoins(bs, i)
  }

  /** No two neighbours are both free. */
  ghost predicate Coalesced(bs: seq<Block>) {
    forall i :: 0 < i < |bs| ==> Apart(bs, i)
  }

  ghost predicate Aligned(bs: seq<Block>) {
    forall i {:trigger bs[i]} :: 0 <= i < |bs| ==> bs[i].addr % ALIGN == 0 && bs[i].size % ALIGN == 0
  }

  ghost predicate HeapOk(bs: seq<Block>, lo: nat, hi: nat) {
    Tiles(bs, lo, hi) && Coalesced(bs) && Aligned(bs) && hi + HDR + ALIGN <= U32
  }

  /** The align macro on a 32-bit size. */
  function Rounded(n: nat): nat {
    (n + 7) % U32 / 8 * 8
  }

  // ---- first fit ----

  function FirstFit(bs: seq<Block>, n: nat, i: nat): (r: Option<nat>)
    requires i <= |bs|
    ensures r.Some? ==> i <= r.value < |bs| && bs[r.value].free && bs[r.value].size >= n
                        && forall j :: i <= j < r.value ==> !(bs[j].free && bs[j].size >= n)
    ensures r.None? ==> forall j :: i <= j < |bs| ==> !(bs[j].free && bs[j].size >= n)
    decreases |bs| - i
  {
    if i == |bs| then None
    else if bs[i].free && bs[i].size >= n then Some(i)
    else FirstFit(bs, n, i + 1)
  }

  predicate Splits(b: Block, n: nat) {
    b.size >= (n + HDR + ALIGN) % U32
  }

  /** Block i cut after n payload bytes. */
  function Cut(bs: seq<Block>, i: nat, n: nat): (r: seq<Block>)
    requires i < |bs| && n + HDR <= bs[i].size
  {
    bs[..i] + [Block(bs[i].addr, n, false), Block(bs[i].addr + HDR + n, bs[i].size - n - HDR, true)] + bs[i + 1..]
  }

  function Take(bs: seq<Block>, i: nat, n: nat): seq<Block>
    requires i < |bs|
  {
    if Splits(bs[i], n) && n + HDR <= bs[i].size then Cut(bs, i, n) else bs[i := bs[i].(free := false)]
  }

  /** kmalloc: the blocks afterwards and the payload address. */
  function Malloc(bs: seq<Block>, n: nat): (r: (seq<Block>, Option<nat>)) {
    if n == 0 then (bs, None)
    else match FirstFit(bs, Rounded(n), 0)
      case None => (bs, None)
      case Some(i) => (Take(bs, i, Rounded(n)), Some(Payload(bs[i])))
  }

  // ---- coalescing ----

  /** Block j swallows block j + 1. */
  function Merge(bs: seq<Block>, j: nat): (r: seq<Block>)
    requires j + 1 < |bs|
    ensures |r| == |bs| - 1
  {
    bs[..j] + [Block(bs[j].addr, bs[j].size + HDR + bs[j + 1].size, bs[j].free)] + bs[j + 2..]
  }

  function MergeIf(bs: seq<Block>, j: nat): (r: seq<Block>)
    requires j < |bs|
  {
    if j + 1 < |bs| && bs[j].free && bs[j + 1].free then Merge(bs, j) else bs
  }

  /** kfree of block i: mark it free, then join it with its successor, then with
      its predecessor. */
  function Free(bs: seq<Block>, i: nat): (r: seq<Block>)
    requires i < |bs|
  {
    var r := MergeIf(bs[i := bs[i].(free := true)], i);
    if i > 0 then MergeIf(r, i - 1) else r
  }

  // ---- what every call keeps ----

  lemma CutAt(bs: seq<Block>, i: nat, n: nat, j: nat)
    requires i < |bs| && n + HDR <= bs[i].size && j <= |bs|
    ensures |Cut(bs, i, n)| == |bs| + 1
    ensures Cut(bs, i, n)[j] == if j < i then bs[j] else if j == i then Block(bs[i].addr, n, false)
                                else if j == i + 1 then Block(bs[i].addr + HDR + n, bs[i].size - n - HDR, true)
                                else bs[j - 1]
  {
  }

  lemma CutKeeps(bs: seq<Block>, i: nat, n: nat, lo: nat, hi: nat)
    requires HeapOk(bs, lo, hi) && i < |bs| && bs[i].free && n % ALIGN == 0 && n + HDR <= bs[i].size
    ensures HeapOk(Cut(bs, i, n), lo, hi)
  {
    var r := Cut(bs, i, n);
    CutAt(bs, i, n, 0);
    CutAt(bs, i, n, |bs|);
    forall j | 0 < j < |r| ensures Adjoins(r, j) && Apart(r, j) {
      CutAt(bs, i, n, j);
      CutAt(bs, i, n, j - 1);
      assert j <= i ==> Adjoins(bs, j) && Apart(bs, j);
      assert j > i + 1 ==> Adjoins(bs, j - 1) && Apart(bs, j - 1);
    }
    forall j {:trigger r[j]} | 0 <= j < |r| ensures r[j].addr % ALIGN == 0 && r[j].size % ALIGN == 0 {
      CutAt(bs, i, n, j);
      assert bs[i].addr % ALIGN == 0 && bs[i].size % ALIGN == 0;
      assert j > 0 ==> bs[j - 1].addr % ALIGN == 0 && bs[j - 1].size % ALIGN == 0;
    }
  }

  lemma MarkKeeps(bs: seq<Block>, i: nat, lo: nat, hi: nat)
    requires HeapOk(bs, lo, hi) && i < |bs|
    ensures HeapOk(bs[i := bs[i].(free := false)], lo, hi)
  {
    var r := bs[i := bs[i].(free := false)];
    forall j | 0 < j < |r| ensures Adjoins(r, j) && Apart(r, j) {
      assert Adjoins(bs, j) && Apart(bs, j);
    }
  }

  lemma RoundedIs(n: nat)
    requires 0 < n < U32
    ensures Rounded(n) % ALIGN == 0 && Rounded(n) < U32
    ensures n <= 0xFFFF_FFF8 ==> n <= Rounded(n) < n + 8
    ensures n > 0xFFFF_FFF8 ==> Rounded(n) == 0
  {
  }

  lemma {:induction false} InHeap(bs: seq<Block>, lo: nat, hi: nat, i: nat)
    requires Tiles(bs, lo, hi) && i < |bs|
    ensures lo <= bs[i].addr && Limit(bs[i]) <= hi
    decreases |bs| - i
  {
    LowerEnd(bs, lo, hi, i);
    if i + 1 < |bs| {
      InHeap(bs, lo, hi, i + 1);
      assert Adjoins(bs, i + 1);
    }
  }

  lemma {:induction false} LowerEnd(bs: seq<Block>, lo: nat, hi: nat, i: nat)
    requires Tiles(bs, lo, hi) && i < |bs|
    ensures lo <= bs[i].addr
  {
    if i > 0 {
      LowerEnd(bs, lo, hi, i - 1);
      assert Adjoins(bs, i);
    }
  }

  /** Two blocks never overlap. */
  lemma {:induction false} Disjoint(bs: seq<Block>, lo: nat, hi: nat, i: nat, j: nat)
    requires Tiles(bs, lo, hi) && i < j < |bs|
    ensures Limit(bs[i]) <= bs[j].addr
    decreases j
  {
    assert Adjoins(bs, j);
    if i < j - 1 {
      Disjoint(bs, lo, hi, i, j - 1);
    }
  }

  /** Inside the heap the 32-bit sum in the split test does not wrap. */
  lemma SplitsIs(bs: seq<Block>, lo: nat, hi: nat, i: nat, n: nat)
    requires HeapOk(bs, lo, hi) && i < |bs| && n <= bs[i].size
    ensures Splits(bs[i], n) <==> bs[i].size >= n + HDR + ALIGN
  {
    InHeap(bs, lo, hi, i);
    assert n + HDR + ALIGN < U32;
  }

  /** kmalloc keeps the heap tiled, aligned and coalesced. */
  lemma MallocKeeps(bs: seq<Block>, n: nat, lo: nat, hi: nat)
    requires HeapOk(bs, lo, hi) && n < U32
    ensures HeapOk(Malloc(bs, n).0, lo, hi)
  {
    if n > 0 {
      RoundedIs(n);
      match FirstFit(bs, Rounded(n), 0)
      case None =>
      case Some(i) => TakeKeeps(bs, i, Rounded(n), lo, hi);
    }
  }

  lemma TakeKeeps(bs: seq<Block>, i: nat, n: nat, lo: nat, hi: nat)
    requires HeapOk(bs, lo, hi) && i < |bs| && bs[i].free && n <= bs[i].size && n % ALIGN == 0
    ensures HeapOk(Take(bs, i, n), lo, hi)
    ensures i < |Take(bs, i, n)| && !Take(bs, i, n)[i].free && Payload(Take(bs, i, n)[i]) == Payload(bs[i])
    ensures n <= Take(bs, i, n)[i].size < n + HDR + ALIGN
    ensures forall j :: 0 <= j < i ==> Take(bs, i, n)[j] == bs[j]
  {
    SplitsIs(bs, lo, hi, i, n);
    if Splits(bs[i], n) {
      CutKeeps(bs, i, n, lo, hi);
      CutAt(bs, i, n, i);
    } else {
      MarkKeeps(bs, i, lo, hi);
    }
  }

  /** kmalloc serves the lowest-addressed free block that fits and fails only if
      there is none; the payload is 8-aligned, and as large as asked for if and
      only if the request did not wrap to zero in the rounding. */
  lemma MallocServes(bs: seq<Block>, n: nat, lo: nat, hi: nat)
    requires HeapOk(bs, lo, hi) && 0 < n < U32
    ensures Malloc(bs, n).1.None? <==> forall j :: 0 <= j < |bs| ==> !(bs[j].free && bs[j].size >= Rounded(n))
    ensures Malloc(bs, n).1.Some? ==> exists i :: 0 <= i < |bs| && Serves(bs, n, i)
  {
    RoundedIs(n);
    match FirstFit(bs, Rounded(n), 0)
    case None =>
    case Some(i) =>
      TakeKeeps(bs, i, Rounded(n), lo, hi);
      InHeap(bs, lo, hi, i);
      assert bs[i].addr % ALIGN == 0;
      RoundedFits(bs, i, n, lo, hi);
      assert Serves(bs, n, i);
  }

  lemma RoundedFits(bs: seq<Block>, i: nat, n: nat, lo: nat, hi: nat)
    requires HeapOk(bs, lo, hi) && i < |bs| && bs[i].free && 0 < n < U32 && Rounded(n) <= bs[i].size
    ensures i < |Take(bs, i, Rounded(n))|
    ensures n <= Take(bs, i, Rounded(n))[i].size <==> n <= 0xFFFF_FFF8
  {
    RoundedIs(n);
    TakeKeeps(bs, i, Rounded(n), lo, hi);
    InHeap(Take(bs, i, Rounded(n)), lo, hi, i);
  }

  /** Block i is what kmalloc(n) hands out. */
  ghost predicate Serves(bs: seq<Block>, n: nat, i: nat)
    requires i < |bs|
  {
    var (r, p) := Malloc(bs, n);
    && i < |r| && p == Some(Payload(bs[i])) && Payload(r[i]) == Payload(bs[i]) && Payload(bs[i]) % ALIGN == 0
    && bs[i].free && !r[i].free && (n <= r[i].size <==> n <= 0xFFFF_FFF8)
    && forall j :: 0 <= j < i ==> r[j] == bs[j] && !(bs[j].free && bs[j].size >= Rounded(n))
  }

  // ---- freeing ----

  lemma MergeAt(bs: seq<Block>, k: nat, j: nat)
    requires k + 1 < |bs| && j + 1 < |bs|
    ensures Merge(bs, k)[j] == if j < k then bs[j]
                               else if j == k then Block(bs[k].addr, bs[k].size + HDR + bs[k + 1].size, bs[k].free)
                               else bs[j + 1]
  {
  }

  lemma MergeTiles(bs: seq<Block>, k: nat, lo: nat, hi: nat)
    requires Tiles(bs, lo, hi) && Aligned(bs) && k + 1 < |bs|
    ensures Tiles(Merge(bs, k), lo, hi) && Aligned(Merge(bs, k))
  {
    var r := Merge(bs, k);
    assert Adjoins(bs, k + 1);
    MergeAt(bs, k, 0);
    MergeAt(bs, k, |bs| - 2);
    forall j | 0 < j < |r| ensures Adjoins(r, j) {
      MergeAt(bs, k, j);
      MergeAt(bs, k, j - 1);
      assert j <= k ==> Adjoins(bs, j);
      assert j > k ==> Adjoins(bs, j + 1);
    }
    forall j {:trigger r[j]} | 0 <= j < |r| ensures r[j].addr % ALIGN == 0 && r[j].size % ALIGN == 0 {
      MergeAt(bs, k, j);
      assert bs[k].size % ALIGN == 0 && bs[k + 1].size % ALIGN == 0 && bs[k].addr % ALIGN == 0;
      assert bs[j].addr % ALIGN == 0 && bs[j + 1].addr % ALIGN == 0;
    }
  }

  /** Neighbours of block i may be free while it is being freed. */
  ghost predicate CoalescedBut(bs: seq<Block>, i: nat) {
    forall j :: 0 < j < |bs| && j != i && j != i + 1 ==> Apart(bs, j)
  }

  lemma MergeNext(bs: seq<Block>, i: nat, lo: nat, hi: nat)
    requires Tiles(bs, lo, hi) && Aligned(bs) && CoalescedBut(bs, i) && i < |bs| && bs[i].free
    ensures var r := MergeIf(bs, i);
            Tiles(r, lo, hi) && Aligned(r) && i < |r| && r[i].free && (forall j :: 0 <= j < i ==> r[j] == bs[j])
            && forall j :: 0 < j < |r| && j != i ==> Apart(r, j)
  {
    var r := MergeIf(bs, i);
    if i + 1 < |bs| && bs[i + 1].free {
      MergeTiles(bs, i, lo, hi);
      MergeAt(bs, i, i);
      forall j | 0 <= j < i ensures r[j] == bs[j] {
        MergeAt(bs, i, j);
      }
      forall j | 0 < j < |r| && j != i ensures Apart(r, j) {
        MergeAt(bs, i, j);
        MergeAt(bs, i, j - 1);
        assert j < i ==> Apart(bs, j);
        assert j > i ==> Apart(bs, j + 1);
      }
    } else {
      forall j | 0 < j < |r| && j != i ensures Apart(r, j) {
        assert j != i + 1 ==> Apart(bs, j);
      }
    }
  }

  lemma MergePrev(bs: seq<Block>, i: nat, lo: nat, hi: nat)
    requires Tiles(bs, lo, hi) && Aligned(bs) && 0 < i < |bs| && bs[i].free && forall j :: 0 < j < |bs| && j != i ==>
               Apart(bs, j)
    ensures var r := MergeIf(bs, i - 1); Tiles(r, lo, hi) && Aligned(r) && Coalesced(r)
  {
    var r := MergeIf(bs, i - 1);
    if bs[i - 1].free {
      MergeTiles(bs, i - 1, lo, hi);
      forall j | 0 < j < |r| ensures Apart(r, j) {
        MergeAt(bs, i - 1, j);
        MergeAt(bs, i - 1, j - 1);
        assert j <= i - 1 ==> Apart(bs, j);
        assert j > i - 1 ==> Apart(bs, j + 1);
      }
    }
  }

  /** kfree keeps the heap tiled, aligned and coalesced. */
  lemma FreeKeeps(bs: seq<Block>, i: nat, lo: nat, hi: nat)
    requires HeapOk(bs, lo, hi) && i < |bs|
    ensures HeapOk(Free(bs, i), lo, hi)
  {
    var m := bs[i := bs[i].(free := true)];
    forall j | 0 < j < |m| ensures Adjoins(m, j) && (j != i && j != i + 1 ==> Apart(m, j)) {
      assert Adjoins(bs, j) && Apart(bs, j);
    }
    MergeNext(m, i, lo, hi);
    var r := MergeIf(m, i);
    if i > 0 {
      MergePrev(r, i, lo, hi);
    } else {
      assert Coalesced(r);
    }
  }

  /** Freeing a block just taken restores the previous block list exactly. */
  lemma FreeUndoesTake(bs: seq<Block>, i: nat, n: nat, lo: nat, hi: nat)
    requires HeapOk(bs, lo, hi) && i < |bs| && bs[i].free && n <= bs[i].size
    ensures i < |Take(bs, i, n)| && Free(Take(bs, i, n), i) == bs
  {
    SplitsIs(bs, lo, hi, i, n);
    var t := Take(bs, i, n);
    assert i > 0 ==> Apart(bs, i);
    assert i + 1 < |bs| ==> Apart(bs, i + 1);
    if Splits(bs[i], n) {
      CutAt(bs, i, n, i);
      CutAt(bs, i, n, i + 1);
      var m := t[i := t[i].(free := true)];
      assert m[..i] == bs[..i] && m[i + 2..] == bs[i + 1..];
      assert Merge(m, i) == bs[..i] + [bs[i]] + bs[i + 1..] == bs;
    } else {
      assert t[i := t[i].(free := true)] == bs;
    }
  }

  // ---- whole runs ----

  /** One call: a request, or the release of a pointer kmalloc returned. */
  datatype Call = CallMalloc(n: nat) | CallFree(p: nat)

  ghost predicate InUse(bs: seq<Block>, p: nat, i: nat) {
    i < |bs| && Payload(bs[i]) == p && !bs[i].free
  }

  /** kfree of the pointer kmalloc has just returned restores the block list
      exactly, whatever the request. */
  lemma FreeUndoesMalloc(bs: seq<Block>, n: nat, lo: nat, hi: nat, i: nat)
    requires HeapOk(bs, lo, hi) && n < U32 && Malloc(bs, n).1.Some? && InUse(Malloc(bs, n).0, Malloc(bs, n).1.value, i)
    ensures Free(Malloc(bs, n).0, i) == bs
  {
    RoundedIs(n);
    var j := FirstFit(bs, Rounded(n), 0).value;
    var r := Malloc(bs, n).0;
    TakeKeeps(bs, j, Rounded(n), lo, hi);
    if i < j {
      Disjoint(r, lo, hi, i, j);
    } else if j < i {
      Disjoint(r, lo, hi, j, i);
    }
    FreeUndoesTake(bs, j, Rounded(n), lo, hi);
  }

  ghost predicate Runs(bs: seq<Block>, calls: seq<Call>, bs1: seq<Block>)
    decreases |calls|
  {
    if calls == [] then bs1 == bs
    else match calls[0]
      case CallMalloc(n) => n < U32 && Runs(Malloc(bs, n).0, calls[1..], bs1)
      case CallFree(p) => exists i: nat :: InUse(bs, p, i) && Runs(Free(bs, i), calls[1..], bs1)
  }

  /** Over every sequence of kmalloc and kfree calls the heap stays tiled exactly,
      8-aligned, and free of neighbouring free blocks. */
  lemma {:induction false} RunKeeps(bs: seq<Block>, calls: seq<Call>, bs1: seq<Block>, lo: nat, hi: nat)
    requires HeapOk(bs, lo, hi) && Runs(bs, calls, bs1)
    ensures HeapOk(bs1, lo, hi)
    decreases |calls|
  {
    if calls != [] {
      match calls[0]
      case CallMalloc(n) =>
        MallocKeeps(bs, n, lo, hi);
        RunKeeps(Malloc(bs, n).0, calls[1..], bs1, lo, hi);
      case CallFree(p) =>
        var i: nat :| InUse(bs, p, i) && Runs(Free(bs, i), calls[1..], bs1);
        FreeKeeps(bs, i, lo, hi);
        RunKeeps(Free(bs, i), calls[1..], bs1, lo, hi);
    }
  }

  /** heap_init */
  lemma InitOk(lo: nat, size: nat)
    requires lo % ALIGN == 0 && size % ALIGN == 0 && size >= HDR && lo + size + HDR + ALIGN <= U32
    ensures HeapOk([Block(lo, size - HDR, true)], lo, lo + size)
  {
  }
}
