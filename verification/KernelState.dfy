/** The scheduler and synchronisation state of the kernel, and every kernel
    entry as one atomic step on it. A pointer is an index into its static pool;
    `queue` and `owned` are the contents of the intrusive lists in list order. */
module KernelState {
  import opened Machine
  import opened Queues

  type Tid = nat
  type Mid = nat
  type Sid = nat

  datatype TaskState = Unused | Ready | Running | Blocked | Suspended | Sleeping | Finished
  datatype Wait = NoWait | OnSem(sem: Sid) | OnMutex(mutex: Mid)
  datatype QueueRef = ReadyQ | SleepQ | SemQ(s: Sid) | MutexQ(m: Mid)
  datatype SemResult = SemClosed | SemOk | SemOkYield | MutexNotOwner | MutexDeadlock

  datatype K = K(
    state: seq<TaskState>,
    base: seq<nat>,
    eff: seq<nat>,
    wait: seq<Wait>,
    wake: seq<nat>,
    queue: map<QueueRef, seq<Tid>>,
    owner: seq<Option<Tid>>,
    owned: seq<seq<Mid>>,
    count: seq<nat>,
    open: seq<bool>,
    current: Option<Tid>,
    ticks: nat)

  /** The contents of a list; a list never touched is empty. */
  function At(queue: map<QueueRef, seq<Tid>>, q: QueueRef): seq<Tid> {
    if q in queue then queue[q] else []
  }

  function Q(k: K, q: QueueRef): seq<Tid> {
    At(k.queue, q)
  }

  /** What orders a list: effective priority, wake tick, or arrival only. */
  function KeyFor(eff: seq<nat>, wake: seq<nat>, q: QueueRef): seq<nat> {
    match q
    case SleepQ => wake
    case SemQ(_) => []
    case _ => eff
  }

  function KeyOf(k: K, q: QueueRef): seq<nat> {
    KeyFor(k.eff, k.wake, q)
  }

  /** The one list a task's own fields say it is linked into. */
  function PlaceFor(state: TaskState, wait: Wait): Option<QueueRef> {
    match state
    case Ready => Some(ReadyQ)
    case Sleeping => Some(SleepQ)
    case Blocked =>
      (match wait
       case OnSem(s) => Some(SemQ(s))
       case OnMutex(m) => Some(MutexQ(m))
       case NoWait => None)
    case _ => None
  }

  function Place(k: K, t: Tid): Option<QueueRef>
    requires t < |k.state| && |k.wait| == |k.state|
  {
    PlaceFor(k.state[t], k.wait[t])
  }

  function Homes(k: K): (h: seq<Option<QueueRef>>)
    requires |k.wait| == |k.state|
    ensures |h| == |k.state|
  {
    seq(|k.state|, t requires 0 <= t < |k.state| => Place(k, t))
  }

  ghost predicate Wf(k: K) {
    && |k.base| == |k.state| && |k.eff| == |k.state| && |k.wait| == |k.state|
    && |k.wake| == |k.state| && |k.owned| == |k.state| && |k.open| == |k.count|
    && (k.current.Some? ==> k.current.value < |k.state|)
    && (forall m :: 0 <= m < |k.owner| && k.owner[m].Some? ==> k.owner[m].value < |k.state|)
    && (forall t :: 0 <= t < |k.state| && k.wait[t].OnMutex? ==> k.wait[t].mutex < |k.owner|)
  }

  function Enqueue(k: K, q: QueueRef, t: Tid): K {
    k.(queue := k.queue[q := Insert(Q(k, q), KeyOf(k, q), t)])
  }

  function Dequeue(k: K, q: QueueRef, t: Tid): K {
    k.(queue := k.queue[q := Remove(Q(k, q), t)])
  }

  // ---- scheduler ----

  /** scheduler_put_task */
  function Put(k: K, t: Tid): K
    requires t < |k.state|
  {
    if k.state[t] in {Finished, Blocked, Sleeping} then k
    else Enqueue(Dequeue(k.(state := k.state[t := Ready]), ReadyQ, t), ReadyQ, t)
  }

  function PutCurrent(k: K): K
    requires Wf(k)
  {
    if k.current.None? then k else Put(k, k.current.value)
  }

  /** scheduler_select_next followed by the switch to next_task. */
  function Select(k: K): K
    requires Wf(k)
  {
    var k1 := PutCurrent(k);
    var r := Q(k1, ReadyQ);
    if r == [] || r[0] >= |k.state| then k1
    else k1.(queue := k1.queue[ReadyQ := r[1..]],
             state := k1.state[r[0] := Running],
             current := Some(r[0]))
  }

  // ---- semaphores ----

  function SemWait(k: K, s: Sid): (K, SemResult)
    requires Wf(k) && s < |k.count| && k.current.Some?
  {
    var t := k.current.value;
    if !k.open[s] then (k, SemClosed)
    else if k.count[s] > 0 then (k.(count := k.count[s := k.count[s] - 1]), SemOk)
    else (Enqueue(k.(state := k.state[t := Blocked], wait := k.wait[t := OnSem(s)]), SemQ(s), t), SemOkYield)
  }

  /** Wakes t, the head of list q. */
  function WakeHead(k: K, q: QueueRef, t: Tid): K
    requires t < |k.state| && |k.wait| == |k.state|
  {
    Put(Dequeue(k, q, t).(state := k.state[t := Ready], wait := k.wait[t := NoWait]), t)
  }

  function SemPost(k: K, s: Sid): (K, SemResult)
    requires Wf(k) && s < |k.count|
  {
    var w := Q(k, SemQ(s));
    if !k.open[s] then (k, SemClosed)
    else if w != [] && w[0] < |k.state| then (WakeHead(k, SemQ(s), w[0]), SemOkYield)
    else (k.(count := k.count[s := Add32(k.count[s], 1)]), SemOkYield)
  }

  // ---- mutexes ----

  function Above(eff: seq<nat>, p: nat): (n: nat)
    ensures n <= |eff|
  {
    if eff == [] then 0 else (if eff[0] > p then 1 else 0) + Above(eff[1..], p)
  }

  lemma {:induction false} AboveDrops(eff: seq<nat>, t: nat, p: nat)
    requires t < |eff| && eff[t] > p
    ensures Above(eff[t := p], p) < Above(eff, p)
  {
    var e := eff[t := p];
    if t == 0 {
      assert e[1..] == eff[1..];
    } else {
      assert e[1..] == eff[1..][t - 1 := p];
      AboveDrops(eff[1..], t - 1, p);
    }
  }

  /** The part of task_raise_priority done at one task: take the priority and
      move to the matching place of the list the task is in. */
  function RaiseOne(k: K, t: Tid, p: nat): K
    requires Wf(k) && t < |k.state|
  {
    var k1 := k.(eff := k.eff[t := p]);
    match Place(k, t)
    case Some(ReadyQ) => Enqueue(Dequeue(k1, ReadyQ, t), ReadyQ, t)
    case Some(MutexQ(m)) => Enqueue(Dequeue(k1, MutexQ(m), t), MutexQ(m), t)
    case _ => k1
  }

  /** The mutex t is blocked on. */
  function MutexWait(k: K, t: Tid): Option<Mid>
    requires t < |k.state| && |k.wait| == |k.state|
  {
    if k.state[t] == Blocked && k.wait[t].OnMutex? then Some(k.wait[t].mutex) else None
  }

  /** The owner of the mutex t is blocked on, if any. */
  function Holder(k: K, t: Tid): Option<Tid>
    requires Wf(k) && t < |k.state|
  {
    match MutexWait(k, t)
    case None => None
    case Some(m) => k.owner[m]
  }

  /** task_raise_priority */
  function Raise(k: K, t: Tid, p: nat): (r: K)
    requires Wf(k) && t < |k.state|
    ensures Wf(r)
    ensures r == k.(eff := r.eff, queue := r.queue)
    decreases Above(k.eff, p)
  {
    if k.eff[t] <= p then k
    else
      AboveDrops(k.eff, t, p);
      var k1 := RaiseOne(k, t, p);
      match Holder(k, t)
      case None => k1
      case Some(o) => Raise(k1, o, p)
  }

  function Lock(k: K, m: Mid): (K, SemResult)
    requires Wf(k) && m < |k.owner| && k.current.Some?
  {
    var t := k.current.value;
    match k.owner[m]
    case None =>
      (k.(owner := k.owner[m := Some(t)], owned := k.owned[t := [m] + k.owned[t]]), SemOk)
    case Some(o) =>
      if o == t then (k, MutexDeadlock)
      else
        var k1 := Enqueue(k.(state := k.state[t := Blocked], wait := k.wait[t := OnMutex(m)]), MutexQ(m), t);
        (Raise(k1, o, k.eff[t]), SemOkYield)
  }

  /** The best waiter's priority on a mutex, or p when that is better. */
  function Better(k: K, m: Mid, p: nat): nat {
    var w := Q(k, MutexQ(m));
    if w != [] && w[0] < |k.eff| && p > k.eff[w[0]] then k.eff[w[0]] else p
  }

  function RecalcOver(k: K, ms: seq<Mid>, p: nat): nat {
    if ms == [] then p else RecalcOver(k, ms[1..], Better(k, ms[0], p))
  }

  /** task_recalculate_priority */
  function Recalc(k: K, t: Tid): nat
    requires Wf(k) && t < |k.state|
  {
    RecalcOver(k, k.owned[t], k.base[t])
  }

  /** The mutexes in front of m. */
  function Before(s: seq<Mid>, m: Mid): (r: seq<Mid>)
    ensures m !in s ==> r == s
  {
    if s == [] || s[0] == m then [] else [s[0]] + Before(s[1..], m)
  }

  /** Both owned lists after handing m from task c to task n. The kernel links m
      into n's list first, so unlinking it from c's list follows the new link;
      with `unlinkFirst` the two steps are done in the other order. */
  function HandOwned(owned: seq<seq<Mid>>, c: Tid, n: Tid, m: Mid, unlinkFirst: bool): seq<seq<Mid>>
    requires c < |owned| && n < |owned|
  {
    if unlinkFirst then owned[c := Remove(owned[c], m)][n := [m] + owned[n]]
    else owned[c := Before(owned[c], m) + owned[n]][n := [m]]
  }

  /** mutex_unlock: up to the wake-up of the next owner. */
  function GiveTo(k: K, m: Mid, n: Tid): K
    requires Wf(k) && m < |k.owner| && n < |k.state|
  {
    var k1 := Dequeue(k, MutexQ(m), n).(state := k.state[n := Ready], wait := k.wait[n := NoWait],
                                       owner := k.owner[m := Some(n)]);
    var p := Recalc(k1.(owned := k.owned[n := [m] + k.owned[n]]), n);
    Put(k1.(eff := k1.eff[n := p]), n)
  }

  /** m in the hands of n, before the caller's own recalculation. */
  function Handed(k: K, m: Mid, n: Tid, unlinkFirst: bool): (r: K)
    requires Wf(k) && m < |k.owner| && n < |k.state| && k.current.Some?
    ensures Wf(r)
  {
    GiveTo(k, m, n).(owned := HandOwned(k.owned, k.current.value, n, m, unlinkFirst))
  }

  /** m given up without a waiter. */
  function Freed(k: K, m: Mid): (r: K)
    requires Wf(k) && m < |k.owner| && k.current.Some?
    ensures Wf(r)
  {
    var c := k.current.value;
    k.(owner := k.owner[m := None], owned := k.owned[c := Remove(k.owned[c], m)])
  }

  function Demoted(k: K, c: Tid): K
    requires Wf(k) && c < |k.state|
  {
    k.(eff := k.eff[c := Recalc(k, c)])
  }

  function Unlock(k: K, m: Mid, unlinkFirst: bool): (K, SemResult)
    requires Wf(k) && m < |k.owner| && k.current.Some?
  {
    var c := k.current.value;
    var w := Q(k, MutexQ(m));
    if k.owner[m] != Some(c) then (k, MutexNotOwner)
    else if w == [] || w[0] >= |k.state| then (Demoted(Freed(k, m), c), SemOk)
    else
      var r := Demoted(Handed(k, m, w[0], unlinkFirst), c);
      (r, if r.eff[w[0]] < r.eff[c] then SemOkYield else SemOk)
  }

  /** SYS_TASK_EXIT: the walk over the owned list reads next_owned after the
      unlock cleared it, so only the first mutex is released. */
  function Exit(k: K, unlinkFirst: bool): K
    requires Wf(k) && k.current.Some?
  {
    var c := k.current.value;
    var k1 := k.(state := k.state[c := Finished]);
    if k.owned[c] == [] || k.owned[c][0] >= |k.owner| then k1
    else Unlock(k1, k.owned[c][0], unlinkFirst).0
  }

  // ---- sleeping ----

  /** The sum of two 32-bit counters. */
  function Add32(a: nat, b: nat): nat {
    if a + b >= U32 then a + b - U32 else a + b
  }

  /** (int32_t)(now - w) >= 0 on 32-bit unsigned ticks */
  predicate Due(now: nat, w: nat) {
    (if now >= w then now - w else now + U32 - w) < I32
  }

  function SleepFor(k: K, n: nat): K
    requires Wf(k)
  {
    if n == 0 || k.current.None? || k.state[k.current.value] != Running then k
    else
      var t := k.current.value;
      Enqueue(k.(state := k.state[t := Sleeping], wake := k.wake[t := Add32(k.ticks, n)]), SleepQ, t)
  }

  /** One wake-up of sleep_tick: the popped head becomes ready. */
  function WakeSleeper(k: K, t: Tid): K
    requires Wf(k) && t < |k.state|
  {
    Put(k.(queue := k.queue[SleepQ := Remove(Q(k, SleepQ), t)], state := k.state[t := Ready]), t)
  }

  function WakeDue(k: K): (r: K)
    requires Wf(k)
    ensures Wf(r) && |r.state| == |k.state| && r.wake == k.wake && r.ticks == k.ticks
    decreases |Q(k, SleepQ)|
  {
    var s := Q(k, SleepQ);
    if s == [] || s[0] >= |k.state| || !Due(k.ticks, k.wake[s[0]]) then k
    else WakeDue(WakeSleeper(k, s[0]))
  }

  /** systick_handler up to the switch request */
  function Tick(k: K): K
    requires Wf(k)
  {
    WakeDue(k.(ticks := Add32(k.ticks, 1)))
  }

  // ---- creation ----

  /** alloc_task: the first unused or finished slot from i on. */
  function FreeSlot(state: seq<TaskState>, i: nat): (r: Option<Tid>)
    requires i <= |state|
    ensures r.Some? ==> i <= r.value < |state| && state[r.value] in {Unused, Finished}
    ensures r.None? ==> forall j :: i <= j < |state| ==> state[j] !in {Unused, Finished}
    decreases |state| - i
  {
    if i == |state| then None
    else if state[i] in {Unused, Finished} then Some(i)
    else FreeSlot(state, i + 1)
  }

  /** create_task and the scheduler_put_task that SYS_TASK_CREATE does next. */
  function Create(k: K, priority: nat): K
    requires Wf(k)
  {
    match FreeSlot(k.state, 0)
    case None => k
    case Some(t) =>
      Put(k.(state := k.state[t := Ready], base := k.base[t := priority], eff := k.eff[t := priority],
             owned := k.owned[t := []], wait := k.wait[t := NoWait], wake := k.wake[t := 0]), t)
  }
}
