/** The network service: one mailbox, two semaphores, one task that serves. Each
    step is one system call or one stretch of the service loop; the chip's answer
    is an arbitrary status. */
module NetRpc {

  datatype Req = Req(client: nat, slot: nat)

  /** Where the service task is: before its wait on net_posted, blocked in it, past
      it but with the mailbox not yet copied, or serving its own copy. */
  datatype Pc = Idle | Waiting | Awake | Serving(req: Req)

  datatype Written = Written(slot: nat, status: nat)

  datatype Net = Net(
    mailbox: Req, posted: nat, done: nat, waiters: seq<nat>, pc: Pc,
    calls: seq<Req>, replies: seq<Written>, woken: seq<nat>)

  function Start(): Net {
    Net(Req(0, 0), 0, 0, [], Idle, [], [], [])
  }

  /** A client's system call: net_send_request, then net_will_wait. */
  function Call(s: Net, r: Req): (Net, bool) {
    var s1 := s.(mailbox := r, calls := s.calls + [r]);
    var s2 := if s1.pc == Waiting then s1.(pc := Awake) else s1.(posted := s1.posted + 1);
    if s2.done > 0 then (s2.(done := s2.done - 1), false) else (s2.(waiters := s2.waiters + [r.client]), true)
  }

  /** sys_sem_wait(net_posted) */
  function NetWait(s: Net): Net
    requires s.pc == Idle
  {
    if s.posted > 0 then s.(posted := s.posted - 1, pc := Awake) else s.(pc := Waiting)
  }

  /** my_req = current_req */
  function NetCopy(s: Net): Net
    requires s.pc == Awake
  {
    s.(pc := Serving(s.mailbox))
  }

  /** The reply slot is written and net_done posted. */
  function NetReply(s: Net, status: nat): Net
    requires s.pc.Serving?
  {
    var s1 := s.(replies := s.replies + [Written(s.pc.req.slot, status)], pc := Idle);
    if s1.waiters != [] then s1.(woken := s1.woken + [s1.waiters[0]], waiters := s1.waiters[1..])
    else s1.(done := s1.done + 1)
  }

  /** Requests posted whose mailbox contents the service has not copied. */
  function Uncopied(s: Net): nat {
    s.posted + if s.pc == Awake then 1 else 0
  }

  // ---- pairing ----

  /** The k-th completed service wrote the k-th requester's slot and woke that
      requester; the outstanding requesters wait in order; net_done holds no
      spare unit; a positive count implies no waiter. */
  ghost predicate Paired(s: Net) {
    var k := |s.replies|;
    && s.done == 0 && |s.woken| == k && Uncopied(s) <= 1 && (s.posted > 0 ==> s.pc != Waiting)
    && |s.calls| == k + Uncopied(s) + (if s.pc.Serving? then 1 else 0)
    && (s.pc.Serving? ==> s.pc.req == s.calls[k])
    && (Uncopied(s) == 1 ==> s.mailbox == s.calls[|s.calls| - 1])
    && |s.waiters| == |s.calls| - k && (forall i :: 0 <= i < |s.waiters| ==> s.waiters[i] == s.calls[k + i].client)
    && (forall i :: 0 <= i < k ==> s.replies[i].slot == s.calls[i].slot && s.woken[i] == s.calls[i].client)
  }

  /** A call keeps the pairing if and only if no earlier request is uncopied; then
      it blocks its caller. */
  lemma CallPaired(s: Net, r: Req)
    requires Paired(s)
    ensures Paired(Call(s, r).0) <==> Uncopied(s) == 0
    ensures Call(s, r).1
  {
    var s1 := Call(s, r).0;
    var k := |s.replies|;
    assert forall i :: 0 <= i < |s.calls| ==> s1.calls[i] == s.calls[i];
    assert s1.calls[|s.calls|] == r;
    if Uncopied(s) == 0 {
      forall i | 0 <= i < |s1.waiters| ensures s1.waiters[i] == s1.calls[k + i].client {
      }
    }
  }

  lemma WaitPaired(s: Net)
    requires Paired(s) && s.pc == Idle
    ensures Paired(NetWait(s))
  {
  }

  lemma CopyPaired(s: Net)
    requires Paired(s) && s.pc == Awake
    ensures Paired(NetCopy(s))
  {
  }

  /** The completed service answers and wakes the requester it served. */
  lemma ReplyPaired(s: Net, status: nat)
    requires Paired(s) && s.pc.Serving?
    ensures Paired(NetReply(s, status))
    ensures var k, s1 := |s.replies|, NetReply(s, status);
            s1.replies[k] == Written(s.calls[k].slot, status) && s1.woken[k] == s.calls[k].client
  {
    var s1, k := NetReply(s, status), |s.replies|;
    assert forall i :: 0 <= i < k ==> s1.replies[i] == s.replies[i] && s1.woken[i] == s.woken[i];
    assert forall i :: 0 <= i < |s1.waiters| ==> s1.waiters[i] == s.waiters[i + 1];
  }

  datatype Step = DoCall(r: Req) | DoWait | DoCopy | DoReply(status: nat)

  predicate Can(s: Net, a: Step) {
    match a
    case DoCall(_) => true
    case DoWait => s.pc == Idle
    case DoCopy => s.pc == Awake
    case DoReply(_) => s.pc.Serving?
  }

  function Next(s: Net, a: Step): Net
    requires Can(s, a)
  {
    match a
    case DoCall(r) => Call(s, r).0
    case DoWait => NetWait(s)
    case DoCopy => NetCopy(s)
    case DoReply(status) => NetReply(s, status)
  }

  /** The step does not write over a request that is not copied yet. */
  predicate Spares(s: Net, a: Step) {
    a.DoCall? ==> Uncopied(s) == 0
  }

  lemma StepPaired(s: Net, a: Step)
    requires Paired(s) && Can(s, a)
    ensures Paired(Next(s, a)) <==> Spares(s, a)
  {
    match a
    case DoCall(r) => CallPaired(s, r);
    case DoWait => WaitPaired(s);
    case DoCopy => CopyPaired(s);
    case DoReply(status) => ReplyPaired(s, status);
  }

  /** Any interleaving of clients and service. */
  ghost predicate Traces(s: Net, steps: seq<Step>)
    decreases |steps|
  {
    steps == [] || (Can(s, steps[0]) && Traces(Next(s, steps[0]), steps[1..]))
  }

  ghost predicate AlwaysPaired(s: Net, steps: seq<Step>)
    requires Traces(s, steps)
    decreases |steps|
  {
    Paired(s) && (steps == [] || AlwaysPaired(Next(s, steps[0]), steps[1..]))
  }

  ghost predicate AlwaysSpares(s: Net, steps: seq<Step>)
    requires Traces(s, steps)
    decreases |steps|
  {
    steps == [] || (Spares(s, steps[0]) && AlwaysSpares(Next(s, steps[0]), steps[1..]))
  }

  /** Over every interleaving: requests, replies and wake-ups are paired in every
      state if and only if no request is posted while an earlier one is uncopied. */
  lemma {:induction false} RunPairedIff(s: Net, steps: seq<Step>)
    requires Paired(s) && Traces(s, steps)
    ensures AlwaysPaired(s, steps) <==> AlwaysSpares(s, steps)
    decreases |steps|
  {
    if steps != [] {
      var s1 := Next(s, steps[0]);
      StepPaired(s, steps[0]);
      if Paired(s1) {
        RunPairedIff(s1, steps[1..]);
      } else {
        assert !AlwaysPaired(s1, steps[1..]);
      }
    }
  }

  /** Any interleaving of clients and service in which no request is posted while
      an earlier one is uncopied. */
  ghost predicate Runs(s: Net, steps: seq<Step>, s1: Net)
    decreases |steps|
  {
    if steps == [] then s1 == s
    else Can(s, steps[0]) && Spares(s, steps[0]) && Runs(Next(s, steps[0]), steps[1..], s1)
  }

  lemma {:induction false} RunPaired(s: Net, steps: seq<Step>, s1: Net)
    requires Paired(s) && Runs(s, steps, s1)
    ensures Paired(s1)
    decreases |steps|
  {
    if steps != [] {
      StepPaired(s, steps[0]);
      RunPaired(Next(s, steps[0]), steps[1..], s1);
    }
  }

  /** From the start, over every such run: every call blocks, and reply and wake-up
      number k belong to request number k. */
  lemma RpcPairing(steps: seq<Step>, s: Net, k: nat)
    requires Runs(Start(), steps, s) && k < |s.replies|
    ensures s.done == 0 && k < |s.calls| && k < |s.woken|
    ensures s.replies[k].slot == s.calls[k].slot && s.woken[k] == s.calls[k].client
  {
    RunPaired(Start(), steps, s);
  }

  /** Two calls before the copy: the first client is woken although its slot was
      never written, and the second one's is written twice. */
  lemma MailboxOverwritten(a: Req, b: Req, x: nat, y: nat)
    requires a.slot != b.slot
    ensures var s1 := Call(Call(NetWait(Start()), a).0, b).0;
            var s2 := NetReply(NetCopy(s1), x);
            var s3 := NetReply(NetCopy(NetWait(s2)), y);
            s3.replies == [Written(b.slot, x), Written(b.slot, y)] && s3.woken == [a.client, b.client]
  {
  }

  /** The service's variables, changed in place by each side. */
  class Service {
    var mailbox: Req
    var posted: nat
    var done: nat
    var waiters: seq<nat>
    var pc: Pc
    var replies: seq<Written>
    ghost var calls: seq<Req>
    ghost var woken: seq<nat>

    ghost function View(): Net
      reads this
    {
      Net(mailbox, posted, done, waiters, pc, calls, replies, woken)
    }

    constructor ()
      ensures View() == Start()
    {
      mailbox, posted, done, waiters, pc := Req(0, 0), 0, 0, [], Idle;
      replies, calls, woken := [], [], [];
    }

    /** net_send_request and net_will_wait in one system call: while requests and
        replies are paired the caller blocks, and they stay paired if and only if
        nothing was uncopied. */
    method SendAndWait(r: Req) returns (blocked: bool)
      modifies this
      ensures (View(), blocked) == Call(old(View()), r)
      ensures old(Paired(View())) ==> blocked && (Paired(View()) <==> old(Uncopied(View())) == 0)
    {
      if Paired(View()) {
        CallPaired(View(), r);
      }
      mailbox := r;
      calls := calls + [r];
      if pc == Waiting {
        pc := Awake;
      } else {
        posted := posted + 1;
      }
      if done > 0 {
        done := done - 1;
        blocked := false;
      } else {
        waiters := waiters + [r.client];
        blocked := true;
      }
    }

    method WaitForRequest()
      requires pc == Idle
      modifies this
      ensures View() == NetWait(old(View())) && (old(Paired(View())) ==> Paired(View()))
    {
      if posted > 0 {
        posted := posted - 1;
        pc := Awake;
      } else {
        pc := Waiting;
      }
    }

    method CopyRequest()
      requires pc == Awake
      modifies this
      ensures View() == NetCopy(old(View())) && (old(Paired(View())) ==> Paired(View()))
    {
      pc := Serving(mailbox);
    }

    /** The end of one round of net_task: the oldest outstanding request has its slot
        written and its client woken. */
    method Reply(status: nat)
      requires pc.Serving?
      modifies this
      ensures View() == NetReply(old(View()), status)
      ensures old(Paired(View())) ==>
                && Paired(View()) && |replies| == |old(replies)| + 1 && calls == old(calls)
                && replies[|replies| - 1] == Written(calls[|replies| - 1].slot, status)
                && woken[|replies| - 1] == calls[|replies| - 1].client
    {
      if Paired(View()) {
        ReplyPaired(View(), status);
      }
      replies := replies + [Written(pc.req.slot, status)];
      pc := Idle;
      if waiters != [] {
        woken := woken + [waiters[0]];
        waiters := waiters[1..];
      } else {
        done := done + 1;
      }
    }
  }
}
