/** Whole runs of kmalloc and kfree on the linked headers, beside the block list
    they should represent: exactly when the code as written keeps the heap. */
module HeapRuns {
  import opened Machine
  import opened Queues
  import opened HeapBlocks
  import opened HeapCode

  /** The headers in memory, and the blocks a correct heap would have. */
  datatype Heads = Heads(mem: Mem, bs: seq<Block>)

  /** The block in use whose payload is at p. */
  function Used(bs: seq<Block>, p: nat, i: nat): (r: Option<nat>)
    requires i <= |bs|
    ensures r.Some? ==> i <= r.value < |bs| && !bs[r.value].free && Payload(bs[r.value]) == p
    ensures r.None? ==> forall j :: i <= j < |bs| ==> bs[j].free || Payload(bs[j]) != p
    decreases |bs| - i
  {
    if i == |bs| then None
    else if !bs[i].free && Payload(bs[i]) == p then Some(i)
    else Used(bs, p, i + 1)
  }

  /** A 32-bit request, or the release of a pointer kmalloc returned. */
  predicate Legal(bs: seq<Block>, c: Call) {
    match c
    case CallMalloc(n) => n < U32
    case CallFree(p) => Used(bs, p, 0).Some?
  }

  function AfterMalloc(h: Heads, n: nat, fixPrev: bool): Heads {
    var (r, p) := Malloc(h.bs, n);
    var taken := p.Some? && p.value >= HDR && p.value - HDR in h.mem;
    Heads(if taken then TakeMem(h.mem, p.value - HDR, Rounded(n), fixPrev) else h.mem, r)
  }

  function AfterFree(h: Heads, i: nat): Heads
    requires i < |h.bs|
  {
    Heads(if h.bs[i].addr in h.mem then FreeMem(h.mem, h.bs[i].addr) else h.mem, Free(h.bs, i))
  }

  /** One call, on headers and on blocks. */
  function Next(h: Heads, c: Call, fixPrev: bool): Heads
    requires Legal(h.bs, c)
  {
    match c
    case CallMalloc(n) => AfterMalloc(h, n, fixPrev)
    case CallFree(p) => AfterFree(h, Used(h.bs, p, 0).value)
  }

  ghost predicate Traces(h: Heads, calls: seq<Call>, fixPrev: bool)
    decreases |calls|
  {
    calls == [] || (Legal(h.bs, calls[0]) && Traces(Next(h, calls[0], fixPrev), calls[1..], fixPrev))
  }

  // ---- the two conditions ----

  /** The kmalloc repairs the successor's prev field, does not split, or splits the
      last block. */
  predicate LeavesPrev(bs: seq<Block>, c: Call, fixPrev: bool) {
    c.CallMalloc? ==>
      fixPrev || |Malloc(bs, c.n).0| == |bs| || FirstFit(bs, Rounded(c.n), 0) == Some(|bs| - 1)
  }

  /** The kfree can rely on the one prev field it reads. */
  ghost predicate MayFollow(h: Heads, c: Call)
    requires Legal(h.bs, c)
  {
    c.CallFree? ==>
      var i := Used(h.bs, c.p, 0).value;
      h.bs[i].addr in h.mem && Trusty(h.mem, h.bs, i)
  }

  ghost predicate Represented(h: Heads, lo: nat, hi: nat) {
    HeapOk(h.bs, lo, hi) && Rep(h.mem, h.bs)
  }

  ghost predicate Right(h: Heads, lo: nat, hi: nat) {
    Represented(h, lo, hi) && PrevOk(h.mem, h.bs)
  }

  lemma MallocStep(h: Heads, n: nat, fixPrev: bool, lo: nat, hi: nat)
    requires Represented(h, lo, hi) && n < U32
    ensures Represented(AfterMalloc(h, n, fixPrev), lo, hi)
    ensures PrevOk(h.mem, h.bs) ==>
              (PrevOk(AfterMalloc(h, n, fixPrev).mem, AfterMalloc(h, n, fixPrev).bs) <==>
               LeavesPrev(h.bs, CallMalloc(n), fixPrev))
  {
    MallocKeeps(h.bs, n, lo, hi);
    if n > 0 {
      RoundedIs(n);
      match FirstFit(h.bs, Rounded(n), 0)
      case None =>
      case Some(i) => TakeRep(h.mem, h.bs, i, Rounded(n), fixPrev, lo, hi);
    }
  }

  lemma FreeStep(h: Heads, i: nat, lo: nat, hi: nat)
    requires Represented(h, lo, hi) && i < |h.bs|
    ensures h.bs[i].addr in h.mem && (Represented(AfterFree(h, i), lo, hi) <==> Trusty(h.mem, h.bs, i))
    ensures PrevOk(h.mem, h.bs) ==> Right(AfterFree(h, i), lo, hi)
  {
    FreeKeeps(h.bs, i, lo, hi);
    FreeRep(h.mem, h.bs, i, lo, hi);
  }

  // ---- whole runs ----

  ghost predicate AlwaysRight(h: Heads, calls: seq<Call>, fixPrev: bool, lo: nat, hi: nat)
    requires Traces(h, calls, fixPrev)
    decreases |calls|
  {
    Right(h, lo, hi) && (calls == [] || AlwaysRight(Next(h, calls[0], fixPrev), calls[1..], fixPrev, lo, hi))
  }

  ghost predicate AlwaysLeavesPrev(h: Heads, calls: seq<Call>, fixPrev: bool)
    requires Traces(h, calls, fixPrev)
    decreases |calls|
  {
    calls == []
    || (LeavesPrev(h.bs, calls[0], fixPrev) && AlwaysLeavesPrev(Next(h, calls[0], fixPrev), calls[1..], fixPrev))
  }

  /** Over every run: the headers represent a sound heap with right prev fields in
      every state if and only if every kmalloc repairs the prev field, does not
      split, or splits the last block. */
  lemma {:induction false} RunRightIff(h: Heads, calls: seq<Call>, fixPrev: bool, lo: nat, hi: nat)
    requires Right(h, lo, hi) && Traces(h, calls, fixPrev)
    ensures AlwaysRight(h, calls, fixPrev, lo, hi) <==> AlwaysLeavesPrev(h, calls, fixPrev)
    decreases |calls|
  {
    if calls != [] {
      var h1 := Next(h, calls[0], fixPrev);
      match calls[0] {
        case CallMalloc(n) => MallocStep(h, n, fixPrev, lo, hi);
        case CallFree(p) => FreeStep(h, Used(h.bs, p, 0).value, lo, hi);
      }
      if Right(h1, lo, hi) {
        RunRightIff(h1, calls[1..], fixPrev, lo, hi);
      } else {
        assert !AlwaysRight(h1, calls[1..], fixPrev, lo, hi);
      }
    }
  }

  /** The repaired split keeps everything over every run. */
  lemma {:induction false} RepairedRuns(h: Heads, calls: seq<Call>, lo: nat, hi: nat)
    requires Right(h, lo, hi) && Traces(h, calls, true)
    ensures AlwaysRight(h, calls, true, lo, hi)
    decreases |calls|
  {
    RunRightIff(h, calls, true, lo, hi);
    RepairLeaves(h, calls);
  }

  lemma {:induction false} RepairLeaves(h: Heads, calls: seq<Call>)
    requires Traces(h, calls, true)
    ensures AlwaysLeavesPrev(h, calls, true)
    decreases |calls|
  {
    if calls != [] {
      RepairLeaves(Next(h, calls[0], true), calls[1..]);
    }
  }

  ghost predicate AlwaysRepresented(h: Heads, calls: seq<Call>, fixPrev: bool, lo: nat, hi: nat)
    requires Traces(h, calls, fixPrev)
    decreases |calls|
  {
    Represented(h, lo, hi)
    && (calls == [] || AlwaysRepresented(Next(h, calls[0], fixPrev), calls[1..], fixPrev, lo, hi))
  }

  ghost predicate AlwaysMayFollow(h: Heads, calls: seq<Call>, fixPrev: bool)
    requires Traces(h, calls, fixPrev)
    decreases |calls|
  {
    calls == [] || (MayFollow(h, calls[0]) && AlwaysMayFollow(Next(h, calls[0], fixPrev), calls[1..], fixPrev))
  }

  /** Over every run, stale prev fields or not: the headers represent the block list,
      so tiled, aligned, coalesced and with disjoint payloads, in every state if and
      only if every kfree can rely on the one prev field it reads. */
  lemma {:induction false} RunRepresentedIff(h: Heads, calls: seq<Call>, fixPrev: bool, lo: nat, hi: nat)
    requires Represented(h, lo, hi) && Traces(h, calls, fixPrev)
    ensures AlwaysRepresented(h, calls, fixPrev, lo, hi) <==> AlwaysMayFollow(h, calls, fixPrev)
    decreases |calls|
  {
    if calls != [] {
      var h1 := Next(h, calls[0], fixPrev);
      match calls[0] {
        case CallMalloc(n) => MallocStep(h, n, fixPrev, lo, hi);
        case CallFree(p) => FreeStep(h, Used(h.bs, p, 0).value, lo, hi);
      }
      if Represented(h1, lo, hi) {
        RunRepresentedIff(h1, calls[1..], fixPrev, lo, hi);
      } else {
        assert !AlwaysRepresented(h1, calls[1..], fixPrev, lo, hi);
      }
    }
  }

  /** The code's calls are the steps of these runs. */
  method PerformCall(h: Heap, c: Call, fixPrev: bool)
    requires h.Valid() && Legal(h.blocks, c) && (c.CallFree? ==> LinksIn(h.mem, c.p - HDR))
    modifies h
    ensures Heads(h.mem, h.blocks) == Next(old(Heads(h.mem, h.blocks)), c, fixPrev)
  {
    match c
    case CallMalloc(n) => var _ := h.Kmalloc(n, fixPrev);
    case CallFree(p) => h.Kfree(Some(p), Used(h.blocks, p, 0).value);
  }
}
