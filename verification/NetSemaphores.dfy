/** The network service's counters are the kernel's semaphores: each step of the
    service is the kernel's semaphore step on net_posted and net_done. */
module NetSemaphores {
  import opened Machine
  import opened Queues
  import opened KernelState
  import opened KernelInvariant
  import opened KernelSteps
  import opened KernelRuns
  import opened SemaphoreRuns
  import NetRpc

  /** p is net_posted, d is net_done, and `server` is the task of the service. */
  ghost predicate Matches(s: NetRpc.Net, k: K, p: Sid, d: Sid, server: Tid) {
    && p < |k.count| && d < |k.count| && p != d && |k.open| == |k.count| && k.open[p] && k.open[d]
    && k.count[p] == s.posted && k.count[d] == s.done
    && Q(k, SemQ(d)) == s.waiters && Q(k, SemQ(p)) == if s.pc == NetRpc.Waiting then [server] else []
  }

  /** net_send_request and net_will_wait by the running client. */
  lemma CallMatches(s: NetRpc.Net, k: K, p: Sid, d: Sid, server: Tid, r: NetRpc.Req)
    requires Inv(k) && RunningNow(k) && k.current == Some(r.client) && Matches(s, k, p, d, server)
    requires s.posted + 1 < U32
    ensures var k1 := SemPost(k, p).0;
            && Wf(k1) && d < |k1.count| && k1.current == k.current
            && var (k2, res) := SemWait(k1, d);
               Matches(NetRpc.Call(s, r).0, k2, p, d, server) && (res == SemOkYield <==> NetRpc.Call(s, r).1)
  {
    PostMatches(s, k, p, d, server);
    TakeMatches(Posted(s), SemPost(k, p).0, p, d, server, r.client);
  }

  /** The service after net_posted was posted. */
  function Posted(s: NetRpc.Net): NetRpc.Net {
    if s.pc == NetRpc.Waiting then s.(pc := NetRpc.Awake) else s.(posted := s.posted + 1)
  }

  lemma PostMatches(s: NetRpc.Net, k: K, p: Sid, d: Sid, server: Tid)
    requires Inv(k) && Matches(s, k, p, d, server) && s.posted + 1 < U32
    ensures var k1 := SemPost(k, p).0;
            Wf(k1) && k1.current == k.current && Matches(Posted(s), k1, p, d, server)
  {
    if s.pc == NetRpc.Waiting {
      PostWakes(k, p, d);
    }
  }

  lemma TakeMatches(s: NetRpc.Net, k: K, p: Sid, d: Sid, server: Tid, c: Tid)
    requires Wf(k) && k.current == Some(c) && Matches(s, k, p, d, server)
    ensures var (k1, res) := SemWait(k, d);
            && Matches(if s.done > 0 then s.(done := s.done - 1) else s.(waiters := s.waiters + [c]), k1, p, d, server)
            && (res == SemOkYield <==> s.done == 0)
  {
    InsertFifo(Q(k, SemQ(d)), c);
  }

  /** A post with a waiter takes the first one out and leaves the counts alone. */
  lemma PostWakes(k: K, p: Sid, d: Sid)
    requires Inv(k) && p < |k.count| && k.open[p] && Q(k, SemQ(p)) != [] && p != d
    ensures var k1 := SemPost(k, p).0;
            && Wf(k1) && k1.count == k.count && k1.open == k.open && k1.current == k.current
            && Q(k1, SemQ(p)) == Q(k, SemQ(p))[1..] && Q(k1, SemQ(d)) == Q(k, SemQ(d))
            && k1.state[Q(k, SemQ(p))[0]] == Ready
  {
    HeadPlace(k, SemQ(p));
    SemPostInv(k, p);
  }

  /** sys_sem_wait(net_posted) by the running service. */
  lemma WaitMatches(s: NetRpc.Net, k: K, p: Sid, d: Sid, server: Tid)
    requires Inv(k) && RunningNow(k) && k.current == Some(server) && Matches(s, k, p, d, server) && s.pc == NetRpc.Idle
    ensures Matches(NetRpc.NetWait(s), SemWait(k, p).0, p, d, server)
  {
    InsertFifo(Q(k, SemQ(p)), server);
  }

  /** sys_sem_post(net_done) by the service: the kernel wakes the client the model
      names. */
  lemma ReplyMatches(s: NetRpc.Net, k: K, p: Sid, d: Sid, server: Tid, status: nat)
    requires Inv(k) && Matches(s, k, p, d, server) && s.pc.Serving? && s.done + 1 < U32
    ensures Matches(NetRpc.NetReply(s, status), SemPost(k, d).0, p, d, server)
    ensures s.waiters != [] ==> s.waiters[0] < |k.state| && SemPost(k, d).0.state[s.waiters[0]] == Ready
  {
    if s.waiters != [] {
      HeadPlace(k, SemQ(d));
      PostWakes(k, d, p);
    }
  }

  /** Every other kernel step leaves the service's view of both semaphores alone. */
  lemma OthersMatch(s: NetRpc.Net, k: K, p: Sid, d: Sid, server: Tid, a: Step, f: bool)
    requires Inv(k) && Enabled(k, a, f) && Matches(s, k, p, d, server) && !a.DoPost? && !a.DoWait?
    ensures Matches(s, Apply(k, a, f), p, d, server)
  {
    OtherSems(k, a, f);
    StepInv(k, a, f);
  }
}
