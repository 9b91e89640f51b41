/** The heap as the kernel keeps it: headers in memory, doubly linked, split and
    merged in place. */
module HeapCode {
  import opened Machine
  import opened Queues
  import opened HeapBlocks

  /** heap_block_t */
  datatype Hdr = Hdr(size: nat, next: Option<nat>, prev: Option<nat>, free: bool)

  type Mem = map<nat, Hdr>

  function AddrAt(bs: seq<Block>, i: int): Option<nat> {
    if 0 <= i < |bs| then Some(bs[i].addr) else None
  }

  /** The header of block i is in memory and links to its successor. */
  ghost predicate HdrOk(mem: Mem, bs: seq<Block>, i: nat)
    requires i < |bs|
  {
    bs[i].addr in mem && mem[bs[i].addr].size == bs[i].size && mem[bs[i].addr].free == bs[i].free
    && mem[bs[i].addr].next == AddrAt(bs, i + 1)
  }

  ghost predicate Rep(mem: Mem, bs: seq<Block>) {
    forall i :: 0 <= i < |bs| ==> HdrOk(mem, bs, i)
  }

  ghost predicate PrevAt(mem: Mem, bs: seq<Block>, i: nat)
    requires i < |bs|
  {
    bs[i].addr in mem && mem[bs[i].addr].prev == AddrAt(bs, i - 1)
  }

  /** Every prev field names the true predecessor. */
  ghost predicate PrevOk(mem: Mem, bs: seq<Block>) {
    forall i :: 0 <= i < |bs| ==> PrevAt(mem, bs, i)
  }

  ghost predicate Increasing(bs: seq<Block>) {
    forall i, j :: 0 <= i < j < |bs| ==> Limit(bs[i]) <= bs[j].addr
  }

  lemma TilesIncreasing(bs: seq<Block>, lo: nat, hi: nat)
    requires Tiles(bs, lo, hi)
    ensures Increasing(bs)
  {
    forall i, j | 0 <= i < j < |bs| ensures Limit(bs[i]) <= bs[j].addr {
      Disjoint(bs, lo, hi, i, j);
    }
  }

  // ---- splitting ----

  function SetPrev(mem: Mem, a: Option<nat>, p: nat): Mem {
    if a.Some? && a.value in mem then mem[a.value := mem[a.value].(prev := Some(p))] else mem
  }

  /** The split of kmalloc; with `fixPrev` the old successor is told about its new
      predecessor, which the kernel leaves out. */
  function SplitMem(mem: Mem, a: nat, n: nat, fixPrev: bool): Mem
    requires a in mem && n + HDR <= mem[a].size
  {
    var t, b := mem[a], a + HDR + n;
    var m := mem[b := Hdr(t.size - n - HDR, t.next, Some(a), true)][a := t.(size := n, next := Some(b), free := false)];
    if fixPrev then SetPrev(m, t.next, b) else m
  }

  lemma SplitRep(mem: Mem, bs: seq<Block>, i: nat, n: nat, fixPrev: bool)
    requires Rep(mem, bs) && Increasing(bs) && i < |bs| && bs[i].addr in mem
    requires n + HDR <= bs[i].size == mem[bs[i].addr].size
    ensures Rep(SplitMem(mem, bs[i].addr, n, fixPrev), Cut(bs, i, n))
  {
    var m, r := SplitMem(mem, bs[i].addr, n, fixPrev), Cut(bs, i, n);
    CutAt(bs, i, n, 0);
    forall j | 0 <= j < |r| ensures HdrOk(m, r, j) {
      SplitHdr(mem, bs, i, n, fixPrev, j);
    }
  }

  lemma SplitHdr(mem: Mem, bs: seq<Block>, i: nat, n: nat, fixPrev: bool, j: nat)
    requires Rep(mem, bs) && Increasing(bs) && i < |bs| && bs[i].addr in mem
    requires n + HDR <= bs[i].size == mem[bs[i].addr].size
    requires j <= |bs|
    ensures j < |Cut(bs, i, n)| && HdrOk(SplitMem(mem, bs[i].addr, n, fixPrev), Cut(bs, i, n), j)
  {
    assert HdrOk(mem, bs, i);
    CutAt(bs, i, n, j);
    if j < |bs| {
      CutAt(bs, i, n, j + 1);
    }
    if j < i {
      assert HdrOk(mem, bs, j) && Limit(bs[j]) <= bs[i].addr;
    } else if j > i + 1 {
      assert HdrOk(mem, bs, j - 1) && Limit(bs[i]) <= bs[j - 1].addr;
    }
  }

  lemma SplitPrevAt(mem: Mem, bs: seq<Block>, i: nat, n: nat, fixPrev: bool, j: nat)
    requires Rep(mem, bs) && PrevOk(mem, bs) && Increasing(bs) && i < |bs| && bs[i].addr in mem
    requires n + HDR <= bs[i].size == mem[bs[i].addr].size && j <= |bs|
    ensures j < |Cut(bs, i, n)|
    ensures PrevAt(SplitMem(mem, bs[i].addr, n, fixPrev), Cut(bs, i, n), j) <==> (j != i + 2 || fixPrev)
  {
    CutAt(bs, i, n, j);
    if j > 0 {
      CutAt(bs, i, n, j - 1);
    }
    assert HdrOk(mem, bs, i) && PrevAt(mem, bs, i);
    if j < i {
      assert PrevAt(mem, bs, j) && Limit(bs[j]) <= bs[i].addr;
      assert i + 1 < |bs| ==> Limit(bs[j]) <= bs[i + 1].addr;
    } else if j > i + 1 {
      assert PrevAt(mem, bs, j - 1) && Limit(bs[i]) <= bs[j - 1].addr;
      assert j > i + 2 ==> Limit(bs[i + 1]) <= bs[j - 1].addr;
    } else {
      assert i + 1 < |bs| ==> Limit(bs[i]) <= bs[i + 1].addr;
    }
  }

  /** The split leaves every prev field right if and only if it is repaired or the
      block split was the last one. */
  lemma SplitPrev(mem: Mem, bs: seq<Block>, i: nat, n: nat, fixPrev: bool)
    requires Rep(mem, bs) && PrevOk(mem, bs) && Increasing(bs) && i < |bs| && bs[i].addr in mem
    requires n + HDR <= bs[i].size == mem[bs[i].addr].size
    ensures PrevOk(SplitMem(mem, bs[i].addr, n, fixPrev), Cut(bs, i, n)) <==> fixPrev || i == |bs| - 1
  {
    var m, r := SplitMem(mem, bs[i].addr, n, fixPrev), Cut(bs, i, n);
    CutAt(bs, i, n, 0);
    forall j | 0 <= j < |r| ensures PrevAt(m, r, j) <==> (j != i + 2 || fixPrev) {
      SplitPrevAt(mem, bs, i, n, fixPrev, j);
    }
    if i < |bs| - 1 {
      assert PrevAt(m, r, i + 2) <==> fixPrev;
    }
  }

  // ---- merging ----

  /** Block p swallows block x: both halves of kfree do exactly this. */
  function Absorb(mem: Mem, p: nat, x: nat): Mem
    requires p in mem && x in mem
  {
    SetPrev(mem[p := mem[p].(size := mem[p].size + HDR + mem[x].size, next := mem[x].next)], mem[x].next, p)
  }

  lemma AbsorbList(mem: Mem, bs: seq<Block>, k: nat)
    requires Rep(mem, bs) && Increasing(bs) && k + 1 < |bs|
    ensures bs[k].addr in mem && bs[k + 1].addr in mem
    ensures Rep(Absorb(mem, bs[k].addr, bs[k + 1].addr), Merge(bs, k))
  {
    assert HdrOk(mem, bs, k) && HdrOk(mem, bs, k + 1);
    var m, r := Absorb(mem, bs[k].addr, bs[k + 1].addr), Merge(bs, k);
    forall j | 0 <= j < |r| ensures HdrOk(m, r, j) {
      AbsorbHdr(mem, bs, k, j);
    }
  }

  lemma AbsorbRep(mem: Mem, bs: seq<Block>, k: nat)
    requires Rep(mem, bs) && PrevOk(mem, bs) && Increasing(bs) && k + 1 < |bs|
    ensures bs[k].addr in mem && bs[k + 1].addr in mem
    ensures var m := Absorb(mem, bs[k].addr, bs[k + 1].addr); Rep(m, Merge(bs, k)) && PrevOk(m, Merge(bs, k))
  {
    AbsorbList(mem, bs, k);
    var m, r := Absorb(mem, bs[k].addr, bs[k + 1].addr), Merge(bs, k);
    forall j | 0 <= j < |r| ensures PrevAt(m, r, j) {
      AbsorbPrev(mem, bs, k, j);
    }
  }

  /** Absorb, field by field. */
  lemma AbsorbAt(mem: Mem, p: nat, x: nat, a: nat)
    requires p in mem && x in mem && a in mem
    ensures var m := Absorb(mem, p, x);
            && a in m && m[a].free == mem[a].free
            && m[a].size == (if a == p then mem[p].size + HDR + mem[x].size else mem[a].size)
            && m[a].next == (if a == p then mem[x].next else mem[a].next)
            && m[a].prev == (if mem[x].next == Some(a) then Some(p) else mem[a].prev)
  {
  }

  lemma AbsorbHdr(mem: Mem, bs: seq<Block>, k: nat, j: nat)
    requires Rep(mem, bs) && Increasing(bs) && k + 1 < |bs| && j < |bs| - 1 && bs[k].addr in mem
    requires bs[k + 1].addr in mem
    ensures HdrOk(Absorb(mem, bs[k].addr, bs[k + 1].addr), Merge(bs, k), j)
  {
    MergeAt(bs, k, j);
    if j + 1 < |bs| - 1 {
      MergeAt(bs, k, j + 1);
    }
    var i := if j <= k then j else j + 1;
    assert HdrOk(mem, bs, k) && HdrOk(mem, bs, k + 1) && HdrOk(mem, bs, i);
    assert i < k ==> Limit(bs[i]) <= bs[k].addr;
    assert i > k ==> Limit(bs[k]) <= bs[i].addr;
    AbsorbAt(mem, bs[k].addr, bs[k + 1].addr, bs[i].addr);
  }

  lemma AbsorbPrev(mem: Mem, bs: seq<Block>, k: nat, j: nat)
    requires Rep(mem, bs) && PrevOk(mem, bs) && Increasing(bs) && k + 1 < |bs| && j < |bs| - 1
    requires bs[k].addr in mem && bs[k + 1].addr in mem
    ensures PrevAt(Absorb(mem, bs[k].addr, bs[k + 1].addr), Merge(bs, k), j)
  {
    var i := if j <= k then j else j + 1;
    assert HdrOk(mem, bs, k + 1) && HdrOk(mem, bs, i) && PrevAt(mem, bs, i);
    AbsorbAt(mem, bs[k].addr, bs[k + 1].addr, bs[i].addr);
    MergeAt(bs, k, j);
    if j > 0 {
      MergeAt(bs, k, j - 1);
    }
    if k + 2 < |bs| && i != k + 2 {
      SameAddr(bs, i, k + 2);
    }
  }

  lemma SameAddr(bs: seq<Block>, i: nat, j: nat)
    requires Increasing(bs) && i < |bs| && j < |bs| && i != j
    ensures bs[i].addr != bs[j].addr
  {
    assert i < j ==> Limit(bs[i]) <= bs[j].addr;
    assert j < i ==> Limit(bs[j]) <= bs[i].addr;
  }

  lemma MergeIncreasing(bs: seq<Block>, k: nat)
    requires Increasing(bs) && k + 1 < |bs| && bs[k + 1].addr == Limit(bs[k])
    ensures Increasing(Merge(bs, k))
  {
    var r := Merge(bs, k);
    forall a, b | 0 <= a < b < |r| ensures Limit(r[a]) <= r[b].addr {
      MergeAt(bs, k, a);
      MergeAt(bs, k, b);
      assert Limit(bs[a]) <= bs[b].addr && Limit(bs[a]) <= bs[b + 1].addr && Limit(bs[a + 1]) <= bs[b + 1].addr;
    }
  }

  lemma MarkRep(mem: Mem, bs: seq<Block>, i: nat, f: bool)
    requires Rep(mem, bs) && Increasing(bs) && i < |bs|
    ensures bs[i].addr in mem
    ensures var m, r := mem[bs[i].addr := mem[bs[i].addr].(free := f)], bs[i := bs[i].(free := f)];
            Rep(m, r) && Increasing(r) && (PrevOk(mem, bs) ==> PrevOk(m, r))
  {
    assert HdrOk(mem, bs, i);
    var m, r := mem[bs[i].addr := mem[bs[i].addr].(free := f)], bs[i := bs[i].(free := f)];
    forall j | 0 <= j < |r| ensures HdrOk(m, r, j) && (PrevAt(mem, bs, j) ==> PrevAt(m, r, j)) {
      assert HdrOk(mem, bs, j);
      assert j < i ==> Limit(bs[j]) <= bs[i].addr;
      assert i < j ==> Limit(bs[i]) <= bs[j].addr;
    }
    forall a, b | 0 <= a < b < |r| ensures Limit(r[a]) <= r[b].addr {
      assert Limit(bs[a]) <= bs[b].addr;
    }
  }

  // ---- the two calls on headers, whatever the links say ----

  predicate IsFree(mem: Mem, a: Option<nat>) {
    a.Some? && a.value in mem && mem[a.value].free
  }

  /** The headers after kmalloc has chosen the block at a for z bytes. */
  function TakeMem(mem: Mem, a: nat, z: nat, fixPrev: bool): Mem
    requires a in mem
  {
    if mem[a].size >= (z + HDR + ALIGN) % U32 && z + HDR <= mem[a].size then SplitMem(mem, a, z, fixPrev)
    else mem[a := mem[a].(free := false)]
  }

  /** The headers and the block list agree on what kmalloc does to block i. */
  lemma TakeRep(mem: Mem, bs: seq<Block>, i: nat, z: nat, fixPrev: bool, lo: nat, hi: nat)
    requires Rep(mem, bs) && HeapOk(bs, lo, hi) && i < |bs| && z <= bs[i].size
    ensures bs[i].addr in mem && Rep(TakeMem(mem, bs[i].addr, z, fixPrev), Take(bs, i, z))
    ensures mem[bs[i].addr].size >= (z + HDR + ALIGN) % U32 ==> z + HDR <= mem[bs[i].addr].size
    ensures PrevOk(mem, bs) ==> (PrevOk(TakeMem(mem, bs[i].addr, z, fixPrev), Take(bs, i, z)) <==>
                                 fixPrev || |Take(bs, i, z)| == |bs| || i == |bs| - 1)
  {
    TilesIncreasing(bs, lo, hi);
    SplitsIs(bs, lo, hi, i, z);
    assert HdrOk(mem, bs, i);
    if Splits(bs[i], z) {
      SplitRep(mem, bs, i, z, fixPrev);
      if PrevOk(mem, bs) {
        SplitPrev(mem, bs, i, z, fixPrev);
      }
      CutAt(bs, i, z, 0);
    } else {
      MarkRep(mem, bs, i, false);
    }
  }

  function JoinNextMem(mem: Mem, a: nat): Mem
    requires a in mem
  {
    if IsFree(mem, mem[a].next) then Absorb(mem, a, mem[a].next.value) else mem
  }

  function JoinPrevMem(mem: Mem, a: nat): Mem
    requires a in mem
  {
    if IsFree(mem, mem[a].prev) then Absorb(mem, mem[a].prev.value, a) else mem
  }

  /** The headers after kfree of the block at a. */
  function FreeMem(mem: Mem, a: nat): Mem
    requires a in mem
  {
    JoinPrevMem(JoinNextMem(mem[a := mem[a].(free := true)], a), a)
  }

  /** The neighbours a header names are headers too. */
  predicate LinksIn(mem: Mem, a: nat) {
    && a in mem && (mem[a].next.Some? ==> mem[a].next.value in mem)
    && (mem[a].prev.Some? ==> mem[a].prev.value in mem)
  }

  /** With right links every block meets what kfree asks of its caller. */
  lemma RepLinks(mem: Mem, bs: seq<Block>, i: nat)
    requires Rep(mem, bs) && PrevOk(mem, bs) && i < |bs|
    ensures LinksIn(mem, bs[i].addr)
  {
    assert HdrOk(mem, bs, i) && PrevAt(mem, bs, i);
    assert i + 1 < |bs| ==> HdrOk(mem, bs, i + 1);
    assert i > 0 ==> HdrOk(mem, bs, i - 1);
  }

  lemma JoinNextRep(mem: Mem, bs: seq<Block>, i: nat)
    requires Rep(mem, bs) && Increasing(bs) && i < |bs| && bs[i].free && bs[i].addr in mem
    requires i + 1 < |bs| ==> Adjoins(bs, i + 1)
    ensures var m, r := JoinNextMem(mem, bs[i].addr), MergeIf(bs, i);
            Rep(m, r) && Increasing(r) && i < |r| && r[i].addr == bs[i].addr && r[i].free && bs[i].addr in m
            && m[bs[i].addr].prev == mem[bs[i].addr].prev && (PrevOk(mem, bs) ==> PrevOk(m, r))
  {
    assert HdrOk(mem, bs, i);
    if i + 1 < |bs| {
      assert HdrOk(mem, bs, i + 1);
      if bs[i + 1].free {
        AbsorbList(mem, bs, i);
        MergeIncreasing(bs, i);
        MergeAt(bs, i, i);
        AbsorbAt(mem, bs[i].addr, bs[i + 1].addr, bs[i].addr);
        if i + 2 < |bs| {
          SameAddr(bs, i, i + 2);
        }
        if PrevOk(mem, bs) {
          AbsorbRep(mem, bs, i);
        }
      }
    }
  }

  /** The prev field p leads the second half of kfree of block i to its free
      predecessor if it has one, and to no free block of the list otherwise. */
  ghost predicate Leads(p: Option<nat>, bs: seq<Block>, i: nat)
    requires i < |bs|
  {
    if i > 0 && bs[i - 1].free then p == Some(bs[i - 1].addr)
    else forall k :: 0 <= k < |bs| && bs[k].free ==> p != Some(bs[k].addr)
  }

  /** The second half of kfree gives the joined list if and only if the one prev
      field it reads leads there. */
  lemma JoinPrevIff(mem: Mem, bs: seq<Block>, i: nat)
    requires Rep(mem, bs) && Increasing(bs) && i < |bs| && bs[i].free && bs[i].addr in mem
    ensures var m, r := JoinPrevMem(mem, bs[i].addr), if i > 0 then MergeIf(bs, i - 1) else bs;
            Rep(m, r) <==> Leads(mem[bs[i].addr].prev, bs, i)
  {
    var a := bs[i].addr;
    var p, m := mem[a].prev, JoinPrevMem(mem, a);
    assert HdrOk(mem, bs, i);
    if i > 0 && bs[i - 1].free {
      assert HdrOk(mem, bs, i - 1);
      if p == Some(bs[i - 1].addr) {
        AbsorbList(mem, bs, i - 1);
      } else {
        MissedJoin(mem, bs, i);
      }
    } else if !Leads(p, bs, i) {
      WrongJoin(mem, bs, i);
    } else {
      DeadJoin(mem, bs, i);
    }
  }

  /** The free predecessor is not joined: its header keeps its old size. */
  lemma MissedJoin(mem: Mem, bs: seq<Block>, i: nat)
    requires Rep(mem, bs) && 0 < i < |bs| && bs[i - 1].free && bs[i].addr in mem
    requires mem[bs[i].addr].prev != Some(bs[i - 1].addr)
    ensures !Rep(JoinPrevMem(mem, bs[i].addr), Merge(bs, i - 1))
  {
    var a, b, m := bs[i].addr, bs[i - 1].addr, JoinPrevMem(mem, bs[i].addr);
    assert HdrOk(mem, bs, i - 1);
    if IsFree(mem, mem[a].prev) {
      AbsorbAt(mem, mem[a].prev.value, a, b);
    }
    MergeAt(bs, i - 1, i - 1);
    assert !HdrOk(m, Merge(bs, i - 1), i - 1);
  }

  /** Another free block of the list is joined: its header grows. */
  lemma WrongJoin(mem: Mem, bs: seq<Block>, i: nat)
    requires Rep(mem, bs) && i < |bs| && bs[i].addr in mem
    requires exists k :: 0 <= k < |bs| && bs[k].free && mem[bs[i].addr].prev == Some(bs[k].addr)
    ensures !Rep(JoinPrevMem(mem, bs[i].addr), bs)
  {
    var a := bs[i].addr;
    var k :| 0 <= k < |bs| && bs[k].free && mem[a].prev == Some(bs[k].addr);
    assert HdrOk(mem, bs, k);
    AbsorbAt(mem, bs[k].addr, a, bs[k].addr);
    assert !HdrOk(JoinPrevMem(mem, a), bs, k);
  }

  /** No block of the list is touched. */
  lemma DeadJoin(mem: Mem, bs: seq<Block>, i: nat)
    requires Rep(mem, bs) && i < |bs| && bs[i].addr in mem
    requires forall k :: 0 <= k < |bs| && bs[k].free ==> mem[bs[i].addr].prev != Some(bs[k].addr)
    ensures Rep(JoinPrevMem(mem, bs[i].addr), bs)
  {
    var a, m := bs[i].addr, JoinPrevMem(mem, bs[i].addr);
    if IsFree(mem, mem[a].prev) {
      forall k | 0 <= k < |bs| ensures HdrOk(m, bs, k) {
        assert HdrOk(mem, bs, k);
        AbsorbAt(mem, mem[a].prev.value, a, bs[k].addr);
      }
    }
  }

  lemma JoinPrevRep(mem: Mem, bs: seq<Block>, i: nat)
    requires Rep(mem, bs) && PrevOk(mem, bs) && Increasing(bs) && i < |bs| && bs[i].free && bs[i].addr in mem
    ensures Leads(mem[bs[i].addr].prev, bs, i)
    ensures PrevOk(JoinPrevMem(mem, bs[i].addr), if i > 0 then MergeIf(bs, i - 1) else bs)
  {
    assert HdrOk(mem, bs, i) && PrevAt(mem, bs, i);
    if i > 0 {
      assert HdrOk(mem, bs, i - 1);
      if bs[i - 1].free {
        AbsorbRep(mem, bs, i - 1);
      } else {
        forall k | 0 <= k < |bs| && bs[k].free ensures bs[k].addr != bs[i - 1].addr {
          SameAddr(bs, k, i - 1);
        }
      }
    }
  }

  /** What kfree of block i relies on: its own prev field, once the block is free
      and joined with its successor. */
  ghost predicate Trusty(mem: Mem, bs: seq<Block>, i: nat)
    requires i < |bs| && bs[i].addr in mem
  {
    var r := MergeIf(bs[i := bs[i].(free := true)], i);
    i < |r| && Leads(mem[bs[i].addr].prev, r, i)
  }

  /** kfree on headers is kfree on the block list if and only if the freed block's
      own prev field can be relied on; with all prev fields right it can, and they
      stay right. */
  lemma FreeRep(mem: Mem, bs: seq<Block>, i: nat, lo: nat, hi: nat)
    requires Rep(mem, bs) && Tiles(bs, lo, hi) && i < |bs|
    ensures bs[i].addr in mem && (Rep(FreeMem(mem, bs[i].addr), Free(bs, i)) <==> Trusty(mem, bs, i))
    ensures PrevOk(mem, bs) ==> Trusty(mem, bs, i) && PrevOk(FreeMem(mem, bs[i].addr), Free(bs, i))
  {
    var a := bs[i].addr;
    TilesIncreasing(bs, lo, hi);
    MarkRep(mem, bs, i, true);
    var m, r := mem[a := mem[a].(free := true)], bs[i := bs[i].(free := true)];
    if i + 1 < |bs| {
      assert Adjoins(bs, i + 1);
      assert Adjoins(r, i + 1);
    }
    JoinNextRep(m, r, i);
    JoinPrevIff(JoinNextMem(m, a), MergeIf(r, i), i);
    if PrevOk(mem, bs) {
      JoinPrevRep(JoinNextMem(m, a), MergeIf(r, i), i);
    }
  }

  class Heap {
    var mem: Mem
    var head: nat
    ghost var blocks: seq<Block>
    ghost var lo: nat
    ghost var hi: nat

    ghost predicate Valid()
      reads this
    {
      HeapOk(blocks, lo, hi) && Rep(mem, blocks) && head == lo && lo > 0
    }

    /** heap_init */
    constructor (start: nat, size: nat)
      requires start > 0 && start % ALIGN == 0 && size % ALIGN == 0 && size >= HDR && start + size + HDR + ALIGN <= U32
      ensures Valid() && PrevOk(mem, blocks) && blocks == [Block(start, size - HDR, true)]
      ensures mem == map[start := Hdr(size - HDR, None, None, true)]
    {
      head := start;
      mem := map[start := Hdr(size - HDR, None, None, true)];
      blocks := [Block(start, size - HDR, true)];
      lo, hi := start, start + size;
      new;
      InitOk(start, size);
      assert HdrOk(mem, blocks, 0) && PrevAt(mem, blocks, 0);
    }

    /** The walk of kmalloc: the first free block of at least n bytes. */
    method Search(n: nat) returns (t: Option<nat>, ghost i: nat)
      requires Valid()
      ensures FirstFit(blocks, n, 0).None? ==> t.None?
      ensures FirstFit(blocks, n, 0).Some? ==>
                i == FirstFit(blocks, n, 0).value && i < |blocks| && t == Some(blocks[i].addr)
    {
      t, i := Some(head), 0;
      while t.Some?
        invariant 0 <= i <= |blocks| && t == AddrAt(blocks, i) && FirstFit(blocks, n, 0) == FirstFit(blocks, n, i)
        decreases |blocks| - i
      {
        assert HdrOk(mem, blocks, i);
        if mem[t.value].free && mem[t.value].size >= n {
          return;
        }
        t, i := mem[t.value].next, i + 1;
      }
    }

    /** kmalloc; `fixPrev` selects the repaired split. */
    method Kmalloc(n: nat, fixPrev: bool) returns (p: Option<nat>)
      requires Valid() && n < U32
      modifies this`mem, this`blocks
      ensures Valid() && (blocks, p) == Malloc(old(blocks), n)
      ensures p.None? ==> mem == old(mem)
      ensures p.Some? ==> p.value - HDR in old(mem) && mem == TakeMem(old(mem), p.value - HDR, Rounded(n), fixPrev)
      ensures old(PrevOk(mem, blocks)) ==>
                (PrevOk(mem, blocks) <==> fixPrev || |blocks| == |old(blocks)| || old(LastFit(n)))
    {
      if n == 0 {
        return None;
      }
      RoundedIs(n);
      var z := Rounded(n);
      var t, i := Search(z);
      if t.None? {
        return None;
      }
      TakeBlock(t.value, i, z, fixPrev);
      return Some(t.value + HDR);
    }

    /** The rest of kmalloc, once the block at b is found: split it or take it whole. */
    method TakeBlock(b: nat, ghost i: nat, z: nat, fixPrev: bool)
      requires Valid() && i < |blocks| && b == blocks[i].addr && blocks[i].free && z <= blocks[i].size && z % ALIGN == 0
      modifies this`mem, this`blocks
      ensures Valid() && blocks == Take(old(blocks), i, z) && b in old(mem) && mem == TakeMem(old(mem), b, z, fixPrev)
      ensures old(PrevOk(mem, blocks)) ==>
                (PrevOk(mem, blocks) <==> fixPrev || |blocks| == |old(blocks)| || i == |old(blocks)| - 1)
    {
      TakeRep(mem, blocks, i, z, fixPrev, lo, hi);
      TakeKeeps(blocks, i, z, lo, hi);
      if mem[b].size >= (z + HDR + ALIGN) % U32 {
        mem := SplitMem(mem, b, z, fixPrev);
      } else {
        mem := mem[b := mem[b].(free := false)];
      }
      blocks := Take(blocks, i, z);
    }

    /** The block that will serve n bytes is the last one of the heap. */
    ghost predicate LastFit(n: nat)
      reads this
    {
      FirstFit(blocks, Rounded(n), 0) == Some(|blocks| - 1)
    }

    /** kfree of any pointer to a block, or null. It frees a block in use and keeps the
        heap if and only if the block's prev field can be relied on. */
    method Kfree(p: Option<nat>, ghost i: nat)
      requires p.Some? ==> p.value >= HDR && LinksIn(mem, p.value - HDR)
      modifies this`mem, this`blocks
      ensures mem == if p.None? then old(mem) else FreeMem(old(mem), p.value - HDR)
      ensures p.None? ==> blocks == old(blocks)
      ensures p.Some? && old(Valid() && InUse(blocks, p.value, i)) ==>
                blocks == Free(old(blocks), i) && old(blocks[i].addr in mem)
                && (Valid() <==> old(Trusty(mem, blocks, i)))
                && (old(PrevOk(mem, blocks)) ==> Valid() && PrevOk(mem, blocks))
    {
      if p.None? {
        return;
      }
      if Valid() && InUse(blocks, p.value, i) {
        FreeKeeps(blocks, i, lo, hi);
        FreeRep(mem, blocks, i, lo, hi);
        blocks := Free(blocks, i);
      }
      FreeHeader(p.value - HDR);
    }

    /** The header part of kfree. */
    method FreeHeader(a: nat)
      requires LinksIn(mem, a)
      modifies this`mem
      ensures mem == FreeMem(old(mem), a)
    {
      mem := mem[a := mem[a].(free := true)];
      var x := mem[a].next;
      if x.Some? && mem[x.value].free {
        mem := Absorb(mem, a, x.value);
      }
      var y := mem[a].prev;
      if y.Some? && mem[y.value].free {
        mem := Absorb(mem, y.value, a);
      }
    }

    /** heap_free_size */
    method FreeSize() returns (size: nat)
      requires Valid()
      ensures size == FreeBytes(blocks) && lo + size + UsedBytes(blocks) + HDR * |blocks| == hi
    {
      size := 0;
      var t := Some(head);
      ghost var i := 0;
      assert blocks[..0] == [];
      while t.Some?
        invariant 0 <= i <= |blocks| && t == AddrAt(blocks, i) && size == FreeBytes(blocks[..i])
        decreases |blocks| - i
      {
        assert HdrOk(mem, blocks, i);
        assert blocks[..i + 1][..i] == blocks[..i];
        if mem[t.value].free {
          size := size + mem[t.value].size;
        }
        t, i := mem[t.value].next, i + 1;
      }
      assert blocks[..i] == blocks;
      BytesAccounted(blocks, lo, hi);
    }
  }

  // ---- a stale prev field in action ----

  /** A free block covers block b, which is in use and no longer in the list. */
  ghost predicate Overlaid(mem: Mem, a: nat, b: nat) {
    && a in mem && b in mem && mem[a].free && !mem[b].free && a < b < a + HDR + mem[a].size
    && mem[a].next != Some(b)
  }

  lemma FirstBlocks()
    ensures Malloc([Block(256, 240, true)], 64) == ([Block(256, 64, false), Block(336, 160, true)], Some(272))
    ensures FirstFit([Block(256, 240, true)], 64, 0) == Some(0)
    ensures Malloc([Block(256, 64, false), Block(336, 160, true)], 8) == (BeforeFree(), Some(352))
    ensures FirstFit([Block(256, 64, false), Block(336, 160, true)], 8, 0) == Some(1)
    ensures Free(BeforeFree(), 0) == BeforeFree()[0 := Block(256, 64, true)]
  {
    var b0, b1 := [Block(256, 240, true)], [Block(256, 64, false), Block(336, 160, true)];
    assert Cut(b0, 0, 64) == b1;
    assert FirstFit(b1, 8, 0) == FirstFit(b1, 8, 1);
    assert Cut(b1, 1, 8) == BeforeFree();
  }

  function BeforeFree(): seq<Block> {
    [Block(256, 64, false), Block(336, 8, false), Block(360, 136, true)]
  }

  lemma LaterBlocks()
    ensures var b3 := BeforeFree()[0 := Block(256, 64, true)];
            var b4 := [Block(256, 8, false), Block(280, 40, true), Block(336, 8, false), Block(360, 136, true)];
            Malloc(b3, 8) == (b4, Some(272)) && Malloc(b4, 40).1 == Some(296)
  {
    var b3 := BeforeFree()[0 := Block(256, 64, true)];
    var b4 := [Block(256, 8, false), Block(280, 40, true), Block(336, 8, false), Block(360, 136, true)];
    assert FirstFit(b3, 8, 0) == Some(0);
    assert Cut(b3, 0, 8) == b4;
    assert FirstFit(b4, 40, 0) == FirstFit(b4, 40, 1) == Some(1);
  }

  function MemBeforeFree(): Mem {
    map[256 := Hdr(64, Some(336), None, false), 336 := Hdr(8, Some(360), Some(256), false),
        360 := Hdr(136, None, Some(336), true)]
  }

  /** The header at 336 still names 256 as its predecessor. */
  function MemStale(): Mem {
    map[256 := Hdr(8, Some(280), None, false), 280 := Hdr(40, Some(336), Some(256), false),
        336 := Hdr(8, Some(360), Some(256), false), 360 := Hdr(136, None, Some(336), true)]
  }

  lemma FirstMem()
    ensures var m0: Mem := map[256 := Hdr(240, None, None, true)];
            TakeMem(TakeMem(m0, 256, 64, false), 336, 8, false) == MemBeforeFree()
  {
    var m0: Mem := map[256 := Hdr(240, None, None, true)];
    assert TakeMem(m0, 256, 64, false)
           == map[256 := Hdr(64, Some(336), None, false), 336 := Hdr(160, None, Some(256), true)];
  }

  lemma LaterMem()
    ensures LinksIn(MemBeforeFree(), 256)
    ensures var m3 := FreeMem(MemBeforeFree(), 256);
            TakeMem(TakeMem(m3, 256, 8, false), 280, 40, false) == MemStale()
  {
    var m3 := FreeMem(MemBeforeFree(), 256);
    assert m3 == MemBeforeFree()[256 := Hdr(64, Some(336), None, true)];
  }

  lemma LastMem()
    ensures LinksIn(MemStale(), 256) && LinksIn(FreeMem(MemStale(), 256), 336)
    ensures Overlaid(FreeMem(FreeMem(MemStale(), 256), 336), 256, 280)
  {
    var m6 := FreeMem(MemStale(), 256);
    assert m6 == MemStale()[256 := Hdr(8, Some(280), None, true)];
    var m7 := JoinNextMem(m6[336 := m6[336].(free := true)], 336);
    assert m7[336] == Hdr(160, None, Some(256), true) && m7[256] == m6[256] && m7[280] == m6[280];
    assert FreeMem(m6, 336)[256] == Hdr(184, None, None, true) && FreeMem(m6, 336)[280] == m6[280];
  }

  /** The first three calls: all links are still right. */
  method FirstCalls() returns (h: Heap, b: Option<nat>)
    ensures fresh(h) && h.Valid() && b == Some(352)
    ensures h.blocks == BeforeFree()[0 := Block(256, 64, true)] && h.mem == FreeMem(MemBeforeFree(), 256)
  {
    FirstBlocks();
    FirstMem();
    LaterMem();
    h := new Heap(256, 256);
    var a := h.Kmalloc(64, false);
    b := h.Kmalloc(8, false);
    assert h.blocks == BeforeFree() && h.mem == MemBeforeFree() && PrevOk(h.mem, h.blocks);
    h.Kfree(a, 0);
  }

  /** Seven calls on a fresh heap of 256 bytes: a split leaves a stale prev field, and
      the last kfree follows it. A free block then covers one that is in use. */
  method StalePrevCorrupts() returns (h: Heap)
    ensures Overlaid(h.mem, 256, 280)
  {
    var b;
    h, b := FirstCalls();
    LaterBlocks();
    LaterMem();
    LastMem();
    var c := h.Kmalloc(8, false);
    var d := h.Kmalloc(40, false);
    assert h.mem == MemStale();
    h.Kfree(c, 0);
    h.Kfree(b, 0);
  }

  function FreeBytes(bs: seq<Block>): nat {
    if bs == [] then 0
    else
      var k := |bs| - 1;
      FreeBytes(bs[..k]) + if bs[k].free then bs[k].size else 0
  }

  function UsedBytes(bs: seq<Block>): nat {
    if bs == [] then 0
    else
      var k := |bs| - 1;
      UsedBytes(bs[..k]) + if bs[k].free then 0 else bs[k].size
  }

  /** Free bytes, bytes in use and headers are the whole heap. */
  lemma {:induction false} BytesAccounted(bs: seq<Block>, lo: nat, hi: nat)
    requires Tiles(bs, lo, hi)
    ensures lo + FreeBytes(bs) + UsedBytes(bs) + HDR * |bs| == hi
    decreases |bs|
  {
    var k := |bs| - 1;
    if k > 0 {
      assert Adjoins(bs, k);
      forall i | 0 < i < k ensures Adjoins(bs[..k], i) {
        assert Adjoins(bs, i);
      }
      BytesAccounted(bs[..k], lo, bs[k].addr);
    } else {
      assert bs[..0] == [];
      assert FreeBytes(bs[..0]) == 0 && UsedBytes(bs[..0]) == 0;
    }
  }
}
