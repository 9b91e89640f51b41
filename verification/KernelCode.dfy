/** The kernel's entry points as they work on their data: tables of control block
    fields, list heads and tails, and link fields changed in place. Each one is
    proved to take the abstract state to what the matching step function of
    KernelState says. */
module KernelCode {
  import opened Queues
  import opened KernelState
  import opened KernelInvariant
  import opened TaskLinks
  import opened ListOps
  import opened OwnedLists
  import MutexSteps
  import KernelRuns

  class Kernel {
    // tcb_t, one table per field
    var state: seq<TaskState>
    var base: seq<nat>
    var eff: seq<nat>
    var wait: seq<Wait>
    var wake: seq<nat>
    var next: seq<Option<Tid>>
    var ownedHead: seq<Option<Mid>>
    // tcb_list_t
    var head: Ends
    var tail: Ends
    // mutex_t
    var owner: seq<Option<Tid>>
    var nextOwned: seq<Option<Mid>>
    // semaphore_t
    var count: seq<nat>
    var open: seq<bool>
    // globals
    var current: Option<Tid>
    var ticks: nat
    // what the lists hold
    ghost var queue: map<QueueRef, seq<Tid>>
    ghost var home: seq<Option<QueueRef>>
    ghost var owned: seq<seq<Mid>>

    ghost function View(): K
      reads this
    {
      K(state, base, eff, wait, wake, queue, owner, owned, count, open, current, ticks)
    }

    ghost predicate Linked()
      reads this`next, this`head, this`tail, this`queue, this`home
    {
      Links(next, head, tail, queue, home)
    }

    /** Tasks in no list, except possibly x, have a null next field. */
    ghost predicate ClearBut(x: Option<Tid>)
      reads this`next, this`home
    {
      Clear(next, home, x)
    }

    ghost predicate OwnLinked()
      reads this`owner, this`nextOwned, this`ownedHead, this`owned
    {
      |nextOwned| == |owner| && OwnOk(nextOwned, ownedHead, owned)
    }

    ghost predicate Valid()
      reads this
    {
      Wf(View()) && Linked() && ClearBut(None) && home == Homes(View()) && OwnLinked()
    }

    /** static_memory_init and scheduler_init, with the semaphores created open. */
    constructor (tasks: nat, mutexes: nat, sems: seq<nat>)
      ensures Valid() && View() == KernelRuns.Boot(tasks, mutexes, sems)
    {
      state, base, eff := seq(tasks, _ => Unused), seq(tasks, _ => 0), seq(tasks, _ => 0);
      wait, wake := seq(tasks, _ => NoWait), seq(tasks, _ => 0);
      next, ownedHead := seq(tasks, _ => None), seq(tasks, _ => None);
      head, tail := map[], map[];
      owner, nextOwned := seq(mutexes, _ => None), seq(mutexes, _ => None);
      count, open, current, ticks := sems, seq(|sems|, _ => true), None, 0;
      queue, home, owned := map[], seq(tasks, _ => None), seq(tasks, _ => []);
      new;
      var k := KernelRuns.Boot(tasks, mutexes, sems);
      assert state == k.state && base == k.base && eff == k.eff && wait == k.wait && wake == k.wake;
      assert owner == k.owner && owned == k.owned && open == k.open;
      assert home == Homes(View());
      assert forall q :: At(queue, q) == [] && End(head, q) == None;
    }

    // ---- list primitives on the kernel's tables ----

    method PopHead(q: QueueRef) returns (t: Option<Tid>)
      requires Linked() && ClearBut(None)
      modifies this`next, this`head, this`tail, this`queue, this`home
      ensures Linked() && ClearBut(None) && t == Entry(old(At(queue, q)), 0)
      ensures t.None? ==> queue == old(queue) && home == old(home)
      ensures t.Some? ==>
                t.value < |old(home)| && queue == old(queue[q := Remove(At(queue, q), t.value)])
                && home == old(home)[t.value := None]
    {
      ghost var s := At(queue, q);
      ListOf(next, head, tail, queue, home, q);
      t := End(head, q);
      if t.Some? {
        var x, n, h, l := PopNode(next, t, End(tail, q), s);
        LeaveLinks(next, n, head, tail, queue, home, q, h, l, x);
        next, head, tail := n, head[q := h], tail[q := l];
        queue, home := queue[q := Remove(s, x)], home[x := None];
      }
    }

    method PushTail(q: QueueRef, t: Tid)
      requires Linked() && ClearBut(None) && t < |home| && home[t].None?
      modifies this`next, this`head, this`tail, this`queue, this`home
      ensures Linked() && ClearBut(None)
      ensures queue == old(queue[q := Insert(At(queue, q), [], t)]) && home == old(home)[t := Some(q)]
    {
      ghost var s := At(queue, q);
      ListOf(next, head, tail, queue, home, q);
      var n, h, l := AppendNode(next, End(head, q), End(tail, q), t, s);
      JoinLinks(next, n, head, tail, queue, home, [], q, h, l, t);
      next, head, tail := n, head[q := h], tail[q := l];
      queue, home := queue[q := Insert(s, [], t)], home[t := Some(q)];
    }

    method PushByKey(q: QueueRef, key: seq<nat>, t: Tid)
      requires Linked() && ClearBut(Some(t)) && t < |home| && home[t].None? && |key| == |home|
      modifies this`next, this`head, this`tail, this`queue, this`home
      ensures Linked() && ClearBut(None)
      ensures queue == old(queue[q := Insert(At(queue, q), key, t)]) && home == old(home)[t := Some(q)]
    {
      ghost var s := At(queue, q);
      ListOf(next, head, tail, queue, home, q);
      var n, h, l := PushNode(next, End(head, q), End(tail, q), key, t, s);
      JoinLinks(next, n, head, tail, queue, home, key, q, h, l, t);
      next, head, tail := n, head[q := h], tail[q := l];
      queue, home := queue[q := Insert(s, key, t)], home[t := Some(q)];
    }

    method Unlink(q: QueueRef, t: Tid)
      requires Linked() && ClearBut(Some(t)) && t < |home| && (home[t].None? || home[t] == Some(q))
      modifies this`next, this`head, this`tail, this`queue, this`home
      ensures Linked() && ClearBut(Some(t)) && home == old(home)[t := None]
      ensures queue == old(queue[q := Remove(At(queue, q), t)])
    {
      ghost var s := At(queue, q);
      ListOf(next, head, tail, queue, home, q);
      var n, h, l := RemoveNode(next, End(head, q), End(tail, q), t, s);
      LeaveLinks(next, n, head, tail, queue, home, q, h, l, t);
      next, head, tail := n, head[q := h], tail[q := l];
      queue, home := queue[q := Remove(s, t)], home[t := None];
    }

    /** priority_queue_reoder, also of a task that is in no list */
    method Reorder(q: QueueRef, t: Tid)
      requires Linked() && ClearBut(Some(t)) && t < |home| == |eff| && (home[t].None? || home[t] == Some(q))
      modifies this`next, this`head, this`tail, this`queue, this`home
      ensures Linked() && ClearBut(None) && home == old(home)[t := Some(q)] && queue == Moved(old(queue), q, eff, t)
    {
      Unlink(q, t);
      PushByKey(q, eff, t);
    }

    // ---- scheduler ----

    /** scheduler_put_task */
    method PutTask(t: Tid)
      requires Linked() && ClearBut(Some(t)) && t < |state| == |home| == |eff|
      requires state[t] in {Finished, Blocked, Sleeping} || home[t].None? || home[t] == Some(ReadyQ)
      modifies this`state, this`next, this`head, this`tail, this`queue, this`home
      ensures View() == Put(old(View()), t) && Linked()
      ensures old(state[t]) in {Finished, Blocked, Sleeping} ==> home == old(home) && next == old(next)
      ensures old(state[t]) !in {Finished, Blocked, Sleeping} ==> home == old(home)[t := Some(ReadyQ)] && ClearBut(None)
    {
      if state[t] == Finished || state[t] == Blocked || state[t] == Sleeping {
        return;
      }
      MakeReady(t);
    }

    method MakeReady(t: Tid)
      requires Linked() && ClearBut(Some(t)) && t < |state| == |home| == |eff|
      requires (home[t].None? || home[t] == Some(ReadyQ))
      requires state[t] !in {Finished, Blocked, Sleeping}
      modifies this`state, this`next, this`head, this`tail, this`queue, this`home
      ensures View() == Put(old(View()), t) && Linked() && ClearBut(None) && home == old(home)[t := Some(ReadyQ)]
    {
      state := state[t := Ready];
      Reorder(ReadyQ, t);
      PutView(old(View()), View(), t);
    }

    /** Valid, but for task t, which has just been taken out of its list. */
    ghost predicate Loose(t: Tid)
      reads this
    {
      Wf(View()) && t < |state| && Linked() && ClearBut(Some(t)) && home == Homes(View())[t := None] && OwnLinked()
    }

    /** Every wake-up ends here: a task taken out of a list becomes ready. */
    method PutLoose(t: Tid)
      requires Loose(t) && state[t] == Ready
      modifies this`state, this`next, this`head, this`tail, this`queue, this`home
      ensures Valid() && View() == Put(old(View()), t)
    {
      ghost var k := View();
      PutTask(t);
      assert state == k.state;
      HomesSame(k, View());
      assert home == Homes(k);
    }

    /** scheduler_put_task((tcb_t *)current_task), null included */
    method PutCurrentTask()
      requires Valid()
      modifies this`state, this`next, this`head, this`tail, this`queue, this`home
      ensures Valid() && View() == PutCurrent(old(View()))
    {
      if current.Some? {
        PlaceOf(current.value);
        PutTask(current.value);
        HomesBut(old(View()), View(), current.value);
      }
    }

    /** Popping the ready queue and switching to the task popped. */
    method Dispatch()
      requires Valid() && At(queue, ReadyQ) != []
      modifies this`state, this`next, this`head, this`tail, this`queue, this`home, this`current
      ensures Valid()
      ensures var k, r := old(View()), old(At(queue, ReadyQ));
              r[0] < |k.state|
              && View() == k.(queue := k.queue[ReadyQ := r[1..]], state := k.state[r[0] := Running],
                                current := Some(r[0]))
    {
      ghost var k := View();
      var t := PopHead(ReadyQ);
      state := state[t.value := Running];
      current := t;
      HomesBut(k, View(), t.value);
    }

    /** scheduler_select_next and the PendSV switch to the task it chose. */
    method SelectNext()
      requires Valid()
      modifies this`state, this`next, this`head, this`tail, this`queue, this`home, this`current
      ensures Valid() && View() == Select(old(View()))
    {
      PutCurrentTask();
      ListOf(next, head, tail, queue, home, ReadyQ);
      if End(head, ReadyQ).Some? {
        Dispatch();
      }
    }

    /** A task that can be put is in no list, or in the ready queue. */
    lemma PlaceOf(t: Tid)
      requires Valid() && t < |state|
      ensures home[t] == Place(View(), t)
    {
    }

    // ---- blocking and waking ----

    /** The calling task leaves the processor for list q. */
    method BlockOn(s: TaskState, w: Wait, q: QueueRef)
      requires Valid() && current.Some? && state[current.value] == Running
      requires PlaceFor(s, w) == Some(q) && (w.OnMutex? ==> w.mutex < |owner|) && !q.SleepQ?
      modifies this`state, this`wait, this`wake, this`next, this`head, this`tail, this`queue, this`home
      ensures Valid()
      ensures View() == var k, t := old(View()), current.value;
                        Enqueue(k.(state := k.state[t := s], wait := k.wait[t := w]), q, t)
    {
      var t := current.value;
      PlaceOf(t);
      ghost var k := View();
      Park(t, s, w, wake, q);
      BlockView(k, View(), s, w, q, t);
    }

    /** The fields and links of a task that leaves the processor. */
    method Park(t: Tid, s: TaskState, w: Wait, ticks: seq<nat>, q: QueueRef)
      requires Linked() && ClearBut(None) && t < |state| == |wait| == |home| == |eff| == |ticks| && home[t].None?
      modifies this`state, this`wait, this`wake, this`next, this`head, this`tail, this`queue, this`home
      ensures Linked() && ClearBut(None) && state == old(state)[t := s] && wait == old(wait)[t := w] && wake == ticks
      ensures queue == old(queue)[q := Insert(At(old(queue), q), KeyFor(eff, ticks, q), t)]
      ensures home == old(home)[t := Some(q)]
    {
      state, wait, wake := state[t := s], wait[t := w], ticks;
      JoinList(q, t);
    }

    method JoinList(q: QueueRef, t: Tid)
      requires Linked() && ClearBut(None) && t < |home| == |eff| == |wake| && home[t].None?
      modifies this`next, this`head, this`tail, this`queue, this`home
      ensures Linked() && ClearBut(None)
      ensures queue == old(queue)[q := Insert(At(old(queue), q), KeyFor(eff, wake, q), t)]
      ensures home == old(home)[t := Some(q)]
    {
      match q
      case SemQ(_) => PushTail(q, t);
      case SleepQ => PushByKey(q, wake, t);
      case _ => PushByKey(q, eff, t);
    }

    method WakeFrom(q: QueueRef)
      requires Valid() && At(queue, q) != []
      modifies this`state, this`wait, this`next, this`head, this`tail, this`queue, this`home
      ensures Valid()
      ensures old(At(queue, q))[0] < |state| && View() == WakeHead(old(View()), q, old(At(queue, q))[0])
    {
      ghost var k := View();
      var t := PopHead(q);
      state, wait := state[t.value := Ready], wait[t.value := NoWait];
      HomesBut(k, View(), t.value);
      PutLoose(t.value);
    }

    method SemaphoreWait(s: Sid) returns (r: SemResult)
      requires Valid() && s < |count| && current.Some? && state[current.value] == Running
      modifies this`state, this`wait, this`wake, this`next, this`head, this`tail, this`queue, this`home, this`count
      ensures Valid() && (View(), r) == SemWait(old(View()), s)
    {
      if !open[s] {
        return SemClosed;
      }
      if count[s] > 0 {
        count := count[s := count[s] - 1];
        HomesSame(old(View()), View());
        return SemOk;
      }
      BlockOn(Blocked, OnSem(s), SemQ(s));
      return SemOkYield;
    }

    method SemaphorePost(s: Sid) returns (r: SemResult)
      requires Valid() && s < |count|
      modifies this`state, this`wait, this`next, this`head, this`tail, this`queue, this`home, this`count
      ensures Valid() && (View(), r) == SemPost(old(View()), s)
    {
      if !open[s] {
        return SemClosed;
      }
      ListOf(next, head, tail, queue, home, SemQ(s));
      if End(head, SemQ(s)).Some? {
        WakeFrom(SemQ(s));
      } else {
        count := count[s := Add32(count[s], 1)];
        HomesSame(old(View()), View());
      }
      return SemOkYield;
    }

    // ---- sleeping ----

    method SleepForTicks(n: nat)
      requires Valid()
      modifies this`state, this`wait, this`wake, this`next, this`head, this`tail, this`queue, this`home
      ensures Valid() && View() == SleepFor(old(View()), n)
    {
      if n == 0 || current.None? || state[current.value] != Running {
        return;
      }
      SleepUntil(Add32(ticks, n));
    }

    method SleepUntil(w: nat)
      requires Valid() && current.Some? && state[current.value] == Running
      modifies this`state, this`wait, this`wake, this`next, this`head, this`tail, this`queue, this`home
      ensures Valid()
      ensures View() == var k, t := old(View()), current.value;
                        Enqueue(k.(state := k.state[t := Sleeping], wake := k.wake[t := w]), SleepQ, t)
    {
      var t := current.value;
      PlaceOf(t);
      ghost var k := View();
      Park(t, Sleeping, wait[t], wake[t := w], SleepQ);
      SleepView(k, View(), w, t);
    }

    /** The head of the sleep list leaves it, its next field left as it was. */
    method TakeSleeper() returns (t: Tid)
      requires Linked() && ClearBut(None) && At(queue, SleepQ) != []
      modifies this`head, this`tail, this`queue, this`home
      ensures Linked() && ClearBut(Some(t)) && t == old(At(queue, SleepQ))[0] && t < |old(home)|
      ensures home == old(home)[t := None]
      ensures queue == old(queue[SleepQ := Remove(At(queue, SleepQ), At(queue, SleepQ)[0])])
    {
      ghost var s := At(queue, SleepQ);
      ListOf(next, head, tail, queue, home, SleepQ);
      t := End(head, SleepQ).value;
      var h, l := PopSleeper(next, End(head, SleepQ), End(tail, SleepQ), s);
      LeaveLinks(next, next, head, tail, queue, home, SleepQ, h, l, t);
      head, tail := head[SleepQ := h], tail[SleepQ := l];
      queue, home := queue[SleepQ := Remove(s, t)], home[t := None];
    }

    method WakeOne()
      requires Valid() && At(queue, SleepQ) != []
      modifies this`state, this`next, this`head, this`tail, this`queue, this`home
      ensures Valid() && old(At(queue, SleepQ))[0] < |state| && |At(queue, SleepQ)| < |old(At(queue, SleepQ))|
      ensures View() == WakeSleeper(old(View()), old(At(queue, SleepQ))[0])
    {
      ghost var k := View();
      var t := TakeSleeper();
      state := state[t := Ready];
      HomesBut(k, View(), t);
      PutLoose(t);
    }

    /** sleep_tick */
    method SleepTick()
      requires Valid()
      modifies this`state, this`next, this`head, this`tail, this`queue, this`home
      ensures Valid() && View() == WakeDue(old(View()))
    {
      ListOf(next, head, tail, queue, home, SleepQ);
      var h := End(head, SleepQ);
      while h.Some? && Due(ticks, wake[h.value])
        invariant Valid() && WakeDue(View()) == WakeDue(old(View())) && h == Entry(At(queue, SleepQ), 0)
        invariant h.Some? ==> h.value < |wake|
        decreases |At(queue, SleepQ)|
      {
        WakeOne();
        ListOf(next, head, tail, queue, home, SleepQ);
        h := End(head, SleepQ);
      }
    }

    /** systick_handler up to the switch request */
    method SystickHandler()
      requires Valid()
      modifies this`state, this`next, this`head, this`tail, this`queue, this`home, this`ticks
      ensures Valid() && View() == Tick(old(View()))
    {
      SetTicks(Add32(ticks, 1));
      SleepTick();
    }

    method SetTicks(now: nat)
      requires Valid()
      modifies this`ticks
      ensures Valid() && View() == old(View()).(ticks := now)
    {
      ticks := now;
      HomesSame(old(View()), View());
    }

    // ---- priorities ----

    /** The part of task_raise_priority done at one task. */
    method RaiseHere(t: Tid, p: nat)
      requires Valid() && t < |state|
      modifies this`eff, this`next, this`head, this`tail, this`queue, this`home
      ensures Valid() && View() == RaiseOne(old(View()), t, p)
    {
      PlaceOf(t);
      ghost var k := View();
      eff := eff[t := p];
      MoveInList(t);
      RaiseView(k, View(), t, p);
    }

    method MoveInList(t: Tid)
      requires Linked() && ClearBut(None) && t < |home| == |eff| == |state| == |wait|
      requires home[t] == PlaceFor(state[t], wait[t])
      modifies this`next, this`head, this`tail, this`queue, this`home
      ensures Linked() && ClearBut(None) && home == old(home) && queue == MovedIn(old(queue), home[t], eff, t)
    {
      if state[t] == Ready {
        Reorder(ReadyQ, t);
      } else if state[t] == Blocked && wait[t].OnMutex? {
        Reorder(MutexQ(wait[t].mutex), t);
      }
    }

    /** task_raise_priority: ends on every wait-for graph, cycles included. */
    method RaisePriority(t: Tid, p: nat)
      requires Valid() && t < |state|
      modifies this`eff, this`next, this`head, this`tail, this`queue, this`home
      ensures Valid() && View() == Raise(old(View()), t, p)
      decreases Above(eff, p)
    {
      if eff[t] <= p {
        return;
      }
      AboveDrops(eff, t, p);
      RaiseHere(t, p);
      if state[t] == Blocked && wait[t].OnMutex? && owner[wait[t].mutex].Some? {
        RaisePriority(owner[wait[t].mutex].value, p);
      }
    }

    /** task_recalculate_priority */
    method Recalculate(t: Tid) returns (p: nat)
      requires Wf(View()) && Linked() && OwnLinked() && t < |state| && |home| == |state|
      ensures p == Recalc(View(), t)
    {
      p := base[t];
      var m := ownedHead[t];
      ghost var i := 0;
      ghost var s := owned[t];
      assert ListRep(nextOwned, ownedHead[t], owned[t]);
      assert s[0..] == s;
      while m.Some?
        invariant 0 <= i <= |s| && m == Entry(s, i)
        invariant RecalcOver(View(), s, base[t]) == RecalcOver(View(), s[i..], p)
        decreases |s| - i
      {
        ListOf(next, head, tail, queue, home, MutexQ(m.value));
        var w := End(head, MutexQ(m.value));
        assert s[i..][1..] == s[i + 1..];
        if w.Some? && p > eff[w.value] {
          p := eff[w.value];
        }
        assert nextOwned[s[i]] == Entry(s, i + 1);
        m := nextOwned[m.value];
        i := i + 1;
      }
      assert s[i..] == [];
    }

    // ---- mutexes ----

    /** mutex_queue_push of a mutex that is in no list */
    method LinkOwned(t: Tid, m: Mid)
      requires OwnLinked() && t < |owned| && m < |owner| && forall u :: 0 <= u < |owned| ==> m !in owned[u]
      modifies this`ownedHead, this`nextOwned, this`owned
      ensures OwnLinked() && owned == old(owned)[t := [m] + old(owned)[t]]
    {
      OwnPush(nextOwned, ownedHead, owned, t, m);
      nextOwned := nextOwned[m := ownedHead[t]];
      ownedHead := ownedHead[t := Some(m)];
      owned := owned[t := [m] + owned[t]];
    }

    /** mutex_queue_remove of a mutex that is in this list only */
    method UnlinkOwned(t: Tid, m: Mid)
      requires OwnLinked() && Apart(owned) && t < |owned| && m < |owner| && m in owned[t]
      modifies this`ownedHead, this`nextOwned, this`owned
      ensures OwnLinked() && owned == old(owned)[t := Remove(old(owned)[t], m)] && nextOwned[m].None?
    {
      assert Distinct(owned[t]) && ListRep(nextOwned, ownedHead[t], owned[t]);
      var n, h := RemoveOwned(nextOwned, ownedHead[t], m, owned[t]);
      OwnRemove(nextOwned, ownedHead, owned, t, m, n, h);
      nextOwned, ownedHead := n, ownedHead[t := h];
      owned := owned[t := Remove(owned[t], m)];
    }

    /** mutex_queue_push of m into n's list while m is still in c's */
    method LinkWhileOwned(c: Tid, n: Tid, m: Mid)
      requires OwnLinked() && Apart(owned) && c < |owned| && n < |owned| && c != n && m < |owner| && m in owned[c]
      modifies this`ownedHead, this`nextOwned, this`owned
      ensures OwnLinked() && owned == Spliced(old(owned), c, n, m) && ownedHead[n] == Some(m)
    {
      OwnSplice(nextOwned, ownedHead, owned, c, n, m);
      nextOwned := nextOwned[m := ownedHead[n]];
      ownedHead := ownedHead[n := Some(m)];
      owned := Spliced(owned, c, n, m);
    }

    /** mutex_queue_remove of m from c's list, now running into n's */
    method UnlinkSpliced(c: Tid, n: Tid, m: Mid, ghost before: seq<seq<Mid>>)
      requires OwnLinked() && Apart(before) && c < |before| && n < |before| && c != n && m < |owner| && m in before[c]
      requires owned == Spliced(before, c, n, m) && ownedHead[n] == Some(m)
      modifies this`ownedHead, this`nextOwned, this`owned
      ensures OwnLinked() && owned == HandOwned(before, c, n, m, false) && nextOwned[m].None?
    {
      ghost var s := owned[c];
      assert ListRep(nextOwned, ownedHead[c], owned[c]);
      assert Distinct(before[c]) && Distinct(before[n]);
      SplicedList(before[c], m, before[n]);
      assert s[|Before(before[c], m)|] == m;
      var x, h := RemoveOwned(nextOwned, ownedHead[c], m, s);
      OwnUnsplice(nextOwned, ownedHead, before, c, n, m, x, h);
      nextOwned, ownedHead := x, ownedHead[c := h];
      owned := HandOwned(before, c, n, m, false);
    }

    method TakeFree(m: Mid)
      requires Valid() && Owners(View()) && m < |owner| && current.Some? && owner[m].None?
      modifies this`owner, this`ownedHead, this`nextOwned, this`owned
      ensures Valid()
      ensures View() == var k, t := old(View()), current.value;
                        k.(owner := k.owner[m := Some(t)], owned := k.owned[t := [m] + k.owned[t]])
    {
      owner := owner[m := current];
      LinkOwned(current.value, m);
      HomesSame(old(View()), View());
    }

    method MutexLock(m: Mid) returns (r: SemResult)
      requires Valid() && Owners(View()) && m < |owner| && current.Some? && state[current.value] == Running
      modifies this
      ensures Valid() && (View(), r) == Lock(old(View()), m)
    {
      if owner[m].None? {
        TakeFree(m);
        return SemOk;
      }
      if owner[m] == current {
        return MutexDeadlock;
      }
      BlockOn(Blocked, OnMutex(m), MutexQ(m));
      RaisePriority(owner[m].value, eff[current.value]);
      return SemOkYield;
    }

    /** task->effective_priority = task_recalculate_priority(task) outside all lists */
    method Reprioritise(t: Tid)
      requires Wf(View()) && Linked() && OwnLinked() && t < |state| && |home| == |state|
      modifies this`eff
      ensures View() == old(View()).(eff := old(eff)[t := Recalc(old(View()), t)])
    {
      var p := Recalculate(t);
      eff := eff[t := p];
    }

    /** The best waiter leaves m's queue and becomes its owner. */
    method TakeWaiter(m: Mid) returns (n: Tid)
      requires Valid() && m < |owner| && At(queue, MutexQ(m)) != []
      modifies this`state, this`wait, this`owner, this`next, this`head, this`tail, this`queue, this`home
      ensures Loose(n) && n == old(At(queue, MutexQ(m)))[0] && state[n] == Ready
      ensures View() == var k := old(View());
                        Dequeue(k, MutexQ(m), n).(state := k.state[n := Ready], wait := k.wait[n := NoWait],
                                                  owner := k.owner[m := Some(n)])
    {
      ghost var k := View();
      var t := PopHead(MutexQ(m));
      n := t.value;
      owner, state, wait := owner[m := t], state[n := Ready], wait[n := NoWait];
      HomesBut(k, View(), n);
    }

    /** The new owner's priority, computed while its list already starts with m,
        does not depend on the other lists. */
    lemma GiveView(k: K, k1: K, m: Mid, n: Tid, owned1: seq<seq<Mid>>)
      requires Wf(k) && m < |k.owner| && n < |k.state| && |owned1| == |k.state| && owned1[n] == [m] + k.owned[n]
      requires k1 == Dequeue(k, MutexQ(m), n).(state := k.state[n := Ready], wait := k.wait[n := NoWait],
                                             owner := k.owner[m := Some(n)], owned := owned1)
      ensures Wf(k1)
      ensures Put(k1.(eff := k1.eff[n := Recalc(k1, n)]), n) == GiveTo(k, m, n).(owned := owned1)
    {
      var k2 := k1.(owned := k.owned[n := [m] + k.owned[n]]);
      MutexSteps.RecalcSame(k1, k2, owned1[n], k.base[n]);
    }

    /** Linking m into the next owner's list, in either order of the two list
        operations: with `unlinkFirst` it is out of the caller's list already. */
    method LinkNext(c: Tid, n: Tid, m: Mid, unlinkFirst: bool)
      requires OwnLinked() && Apart(owned) && c < |owned| && n < |owned| && c != n && m < |owner| && m in owned[c]
      modifies this`ownedHead, this`nextOwned, this`owned
      ensures OwnLinked() && |owned| == |old(owned)| && owned[n] == [m] + old(owned)[n]
      ensures unlinkFirst ==> owned == HandOwned(old(owned), c, n, m, true)
      ensures !unlinkFirst ==> owned == Spliced(old(owned), c, n, m) && ownedHead[n] == Some(m)
    {
      if unlinkFirst {
        UnlinkOwned(c, m);
        assert Distinct(old(owned)[c]);
        RemoveKeeps(old(owned)[c], m);
        LinkOwned(n, m);
      } else {
        LinkWhileOwned(c, n, m);
      }
    }

    /** The new owner takes its recalculated priority and becomes ready. */
    method Promote(n: Tid)
      requires Loose(n) && state[n] == Ready
      modifies this`eff, this`state, this`next, this`head, this`tail, this`queue, this`home
      ensures Valid()
      ensures View() == var k := old(View()); Put(k.(eff := k.eff[n := Recalc(k, n)]), n)
    {
      ghost var k := View();
      Reprioritise(n);
      HomesSame(k, View());
      PutLoose(n);
    }

    /** mutex_unlock with a waiter: both lists and the owner field. */
    method HandOwnership(m: Mid, unlinkFirst: bool) returns (n: Tid)
      requires Valid() && Owners(View()) && m < |owner| && current.Some? && owner[m] == current
      requires At(queue, MutexQ(m)) != []
      requires state[current.value] != Blocked
      modifies this`state, this`wait, this`owner, this`next, this`head, this`tail, this`queue, this`home,
               this`ownedHead, this`nextOwned, this`owned
      ensures Loose(n) && n == old(At(queue, MutexQ(m)))[0] && state[n] == Ready && Some(n) != current
      ensures var k := old(View());
              && n < |k.state| && Apart(k.owned) && m in k.owned[current.value]
              && Put(View().(eff := eff[n := Recalc(View(), n)]), n) == GiveTo(k, m, n).(owned := owned)
              && owned == (if unlinkFirst then HandOwned(k.owned, current.value, n, m, true)
                           else Spliced(k.owned, current.value, n, m))
      ensures !unlinkFirst ==> ownedHead[n] == Some(m)
    {
      ghost var k := View();
      WaiterIsNot(m);
      OwnersApart(k);
      assert m in owned[current.value];
      n := TakeWaiter(m);
      LinkLoose(current.value, n, m, unlinkFirst);
      GiveView(k, View(), m, n, owned);
    }

    method LinkLoose(c: Tid, n: Tid, m: Mid, unlinkFirst: bool)
      requires Loose(n) && Apart(owned) && c < |owned| && c != n && m < |owner| && m in owned[c]
      modifies this`ownedHead, this`nextOwned, this`owned
      ensures Loose(n) && View() == old(View()).(owned := owned) && owned[n] == [m] + old(owned)[n]
      ensures owned == if unlinkFirst then HandOwned(old(owned), c, n, m, true) else Spliced(old(owned), c, n, m)
      ensures !unlinkFirst ==> ownedHead[n] == Some(m)
    {
      LinkNext(c, n, m, unlinkFirst);
      HomesSame(old(View()), View());
    }

    /** mutex_unlock with a waiter, up to the caller's own recalculation. */
    method HandTo(m: Mid, unlinkFirst: bool) returns (n: Tid)
      requires Valid() && Owners(View()) && m < |owner| && current.Some? && owner[m] == current
      requires At(queue, MutexQ(m)) != []
      requires state[current.value] != Blocked
      modifies this
      ensures Valid() && n == old(At(queue, MutexQ(m)))[0] && n < |old(state)|
      ensures View() == Handed(old(View()), m, n, unlinkFirst)
      ensures !unlinkFirst ==> m < |nextOwned| && nextOwned[m].None?
    {
      ghost var k := View();
      n := HandOwnership(m, unlinkFirst);
      Promote(n);
      if !unlinkFirst {
        Unsplice(current.value, n, m, k.owned);
      }
    }

    method Unsplice(c: Tid, n: Tid, m: Mid, ghost before: seq<seq<Mid>>)
      requires Valid() && Apart(before) && c < |before| && n < |before| && c != n && m < |owner| && m in before[c]
      requires owned == Spliced(before, c, n, m) && ownedHead[n] == Some(m)
      modifies this`ownedHead, this`nextOwned, this`owned
      ensures Valid() && View() == old(View()).(owned := HandOwned(before, c, n, m, false))
      ensures m < |nextOwned| && nextOwned[m].None?
    {
      UnlinkSpliced(c, n, m, before);
      HomesSame(old(View()), View());
    }

    /** Nobody waits on a mutex it owns. */
    lemma WaiterIsNot(m: Mid)
      requires Valid() && m < |owner| && At(queue, MutexQ(m)) != [] && current.Some? && state[current.value] != Blocked
      ensures Some(At(queue, MutexQ(m))[0]) != current
    {
      ListOf(next, head, tail, queue, home, MutexQ(m));
      var t := At(queue, MutexQ(m))[0];
      assert t in At(queue, MutexQ(m));
      PlaceOf(t);
    }

    lemma OwnersApart(k: K)
      requires Wf(k) && Owners(k)
      ensures Apart(k.owned)
    {
    }

    /** mutex_unlock without a waiter, up to the caller's own recalculation. */
    method Release(m: Mid)
      requires Valid() && Owners(View()) && m < |owner| && current.Some? && owner[m] == current
      modifies this`owner, this`ownedHead, this`nextOwned, this`owned
      ensures Valid() && View() == Freed(old(View()), m) && m < |nextOwned| && nextOwned[m].None?
    {
      var c := current.value;
      OwnersApart(View());
      assert m in owned[c];
      owner := owner[m := None];
      UnlinkOwned(c, m);
      HomesSame(old(View()), View());
    }

    /** mutex_unlock: links the mutex into the next owner's list, then unlinks it
        from the caller's; with `unlinkFirst` in the other order. */
    method MutexUnlock(m: Mid, unlinkFirst: bool) returns (r: SemResult)
      requires Valid() && Owners(View()) && m < |owner| && current.Some? && state[current.value] != Blocked
      modifies this
      ensures Valid() && (View(), r) == Unlock(old(View()), m, unlinkFirst)
      ensures r != MutexNotOwner && !unlinkFirst ==> m < |nextOwned| && nextOwned[m].None?
    {
      if owner[m] != current {
        return MutexNotOwner;
      }
      ListOf(next, head, tail, queue, home, MutexQ(m));
      if End(head, MutexQ(m)).None? {
        Release(m);
        Demote();
        return SemOk;
      }
      r := HandAndDemote(m, unlinkFirst);
    }

    method HandAndDemote(m: Mid, unlinkFirst: bool) returns (r: SemResult)
      requires Valid() && Owners(View()) && m < |owner| && current.Some? && owner[m] == current
      requires At(queue, MutexQ(m)) != []
      requires state[current.value] != Blocked && At(queue, MutexQ(m))[0] < |state|
      modifies this
      ensures Valid() && (View(), r) == Unlock(old(View()), m, unlinkFirst)
      ensures !unlinkFirst ==> m < |nextOwned| && nextOwned[m].None?
    {
      ghost var k := View();
      var n := HandTo(m, unlinkFirst);
      Demote();
      assert View() == Demoted(Handed(k, m, n, unlinkFirst), current.value);
      r := if eff[n] < eff[current.value] then SemOkYield else SemOk;
    }

    /** The caller's own recalculation at the end of mutex_unlock. */
    method Demote()
      requires Valid() && current.Some?
      modifies this`eff
      ensures Valid()
      ensures View() == Demoted(old(View()), current.value)
    {
      Reprioritise(current.value);
      HomesSame(old(View()), View());
    }

    /** SYS_TASK_EXIT. The walk of mutex_unlock_all_owned reads next_owned after
        the unlock has rewritten it; in the kernel's order it then is null. */
    method TaskExit()
      requires Valid() && Owners(View()) && current.Some? && state[current.value] == Running
      modifies this
      ensures Valid() && View() == Exit(old(View()), false)
    {
      var c := current.value;
      ghost var k := View();
      Finish();
      assert ListRep(nextOwned, ownedHead[c], owned[c]);
      var m := ownedHead[c];
      while m.Some?
        invariant Valid()
        invariant m.Some? ==>
                    m == Entry(k.owned[c], 0) && View() == k.(state := k.state[c := Finished]) && m.value < |owner|
        invariant m.None? ==> View() == Exit(k, false)
        decreases m.Some?
      {
        assert m.value in owned[c];
        OwnersSame(k, View());
        var _ := MutexUnlock(m.value, false);
        m := nextOwned[m.value];
      }
    }

    method Finish()
      requires Valid() && Owners(View()) && current.Some? && state[current.value] == Running
      modifies this`state
      ensures Valid() && Owners(View()) && View() == old(View()).(state := old(state)[current.value := Finished])
    {
      var c := current.value;
      ghost var k := View();
      state := state[c := Finished];
      HomesBut(k, View(), c);
      assert Homes(k)[c := None] == Homes(k);
      OwnersSame(k, View());
    }

    lemma OwnersSame(k: K, k1: K)
      requires Wf(k) && Owners(k) && k.current.Some? && k.state[k.current.value] == Running
      requires k1 == k.(state := k.state[k.current.value := Finished])
      ensures Owners(k1) && forall t, m: nat :: 0 <= t < |k.owned| && m in k.owned[t] ==>
                m < |k.owner| && k.owner[m] == Some(t)
    {
      forall w | 0 <= w < |k.state| ensures MutexWait(k1, w) == MutexWait(k, w) && Holder(k1, w) == Holder(k, w) {
      }
    }

    // ---- creation ----

    /** alloc_task: the scan for a free slot. */
    method FindFree() returns (t: Option<Tid>)
      ensures t == FreeSlot(state, 0)
    {
      for i := 0 to |state|
        invariant FreeSlot(state, 0) == FreeSlot(state, i)
      {
        if state[i] == Unused || state[i] == Finished {
          return Some(i);
        }
      }
      return None;
    }

    /** create_task and the scheduler_put_task of SYS_TASK_CREATE. */
    method CreateTask(priority: nat) returns (t: Option<Tid>)
      requires Valid()
      modifies this
      ensures Valid() && View() == Create(old(View()), priority) && t == FreeSlot(old(state), 0)
    {
      t := FindFree();
      if t.Some? {
        InitTask(t.value, priority);
        PutLoose(t.value);
      }
    }

    method InitTask(t: Tid, priority: nat)
      requires Valid() && t < |state| && state[t] in {Unused, Finished}
      modifies this`state, this`base, this`eff, this`owned, this`ownedHead, this`wait, this`wake, this`next
      ensures Loose(t) && state[t] == Ready
      ensures View() == var k := old(View());
                        k.(state := k.state[t := Ready], base := k.base[t := priority], eff := k.eff[t := priority],
                           owned := k.owned[t := []], wait := k.wait[t := NoWait], wake := k.wake[t := 0])
    {
      ghost var k := View();
      PlaceOf(t);
      OwnClear(nextOwned, ownedHead, owned, t);
      InitFields(t, priority);
      InitView(k, View(), t);
    }

    /** The field assignments of create_task. */
    method InitFields(t: Tid, priority: nat)
      requires t < |state| == |base| == |eff| == |wait| == |wake| == |next| == |owned| == |ownedHead| && next[t].None?
      modifies this`state, this`base, this`eff, this`owned, this`ownedHead, this`wait, this`wake, this`next
      ensures state == old(state)[t := Ready] && base == old(base)[t := priority] && eff == old(eff)[t := priority]
      ensures wait == old(wait)[t := NoWait] && wake == old(wake)[t := 0] && next == old(next)
      ensures owned == old(owned)[t := []] && ownedHead == old(ownedHead)[t := None]
    {
      state := state[t := Ready];
      base := base[t := priority];
      eff := eff[t := priority];
      ownedHead, owned := ownedHead[t := None], owned[t := []];
      next := next[t := None];
      wait := wait[t := NoWait];
      wake := wake[t := 0];
    }
  }

  ghost predicate Clear(next: seq<Option<Tid>>, home: seq<Option<QueueRef>>, x: Option<Tid>) {
    |next| == |home| && forall t {:trigger home[t]} {:trigger next[t]} ::
      0 <= t < |home| && home[t].None? && Some(t) != x ==> next[t].None?
  }

  lemma WithinOthers(next: seq<Option<Tid>>, n: seq<Option<Tid>>, queue: map<QueueRef, seq<Tid>>,
                     home: seq<Option<QueueRef>>, q: QueueRef, t: Tid)
    requires HomeOk(queue, home) && |next| == |home| && Within(next, n, At(queue, q), t)
    ensures Untouched(next, n, home, q, t)
  {
    forall x {:trigger n[x]} | 0 <= x < |home| && home[x] != Some(q) && x != t ensures n[x] == next[x] {
      assert x !in At(queue, q);
    }
  }

  /** One list operation that puts task t into list q, seen from all lists. */
  lemma JoinLinks(next: seq<Option<Tid>>, n: seq<Option<Tid>>, head: Ends, tail: Ends, queue: map<QueueRef, seq<Tid>>,
                  home: seq<Option<QueueRef>>, key: seq<nat>, q: QueueRef, h: Option<Tid>, l: Option<Tid>, t: Tid)
    requires Links(next, head, tail, queue, home) && Clear(next, home, Some(t)) && t < |home| && home[t].None?
    requires var s := Insert(At(queue, q), key, t); ListRep(n, h, s) && l == Entry(s, |s| - 1)
    requires Within(next, n, At(queue, q), t)
    ensures Links(n, head[q := h], tail[q := l], queue[q := Insert(At(queue, q), key, t)], home[t := Some(q)])
    ensures Clear(n, home[t := Some(q)], None)
  {
    HomeInsert(queue, home, key, q, t);
    WithinOthers(next, n, queue, home, q, t);
    Relink(next, n, head, tail, queue, home, home[t := Some(q)], q, t, h, l, Insert(At(queue, q), key, t));
  }

  /** One list operation that takes task t out of list q. */
  lemma LeaveLinks(next: seq<Option<Tid>>, n: seq<Option<Tid>>, head: Ends, tail: Ends, queue: map<QueueRef, seq<Tid>>,
                   home: seq<Option<QueueRef>>, q: QueueRef, h: Option<Tid>, l: Option<Tid>, t: Tid)
    requires Links(next, head, tail, queue, home) && Clear(next, home, Some(t)) && t < |home|
    requires home[t].None? || home[t] == Some(q)
    requires var s := Remove(At(queue, q), t); ListRep(n, h, s) && l == Entry(s, |s| - 1)
    requires Within(next, n, At(queue, q), t)
    ensures Links(n, head[q := h], tail[q := l], queue[q := Remove(At(queue, q), t)], home[t := None])
    ensures Clear(n, home[t := None], Some(t)) && (n[t].None? ==> Clear(n, home[t := None], None))
  {
    UnlinkHome(queue, home, q, t);
    WithinOthers(next, n, queue, home, q, t);
    LeaveClear(next, n, home, q, t);
    Relink(next, n, head, tail, queue, home, home[t := None], q, t, h, l, Remove(At(queue, q), t));
  }

  lemma LeaveClear(next: seq<Option<Tid>>, n: seq<Option<Tid>>, home: seq<Option<QueueRef>>, q: QueueRef, t: Tid)
    requires t < |home| && Clear(next, home, Some(t)) && Untouched(next, n, home, q, t)
    ensures Clear(n, home[t := None], Some(t)) && (n[t].None? ==> Clear(n, home[t := None], None))
  {
  }

  /** A list with t taken out, if it was in, and put in by key. */
  function Moved(queue: map<QueueRef, seq<Tid>>, q: QueueRef, key: seq<nat>, t: Tid): map<QueueRef, seq<Tid>> {
    var s := Remove(At(queue, q), t);
    queue[q := s][q := Insert(s, key, t)]
  }

  /** The lists after t, in list `place`, got a new priority. */
  function MovedIn(queue: map<QueueRef, seq<Tid>>, place: Option<QueueRef>,
                    eff: seq<nat>, t: Tid): map<QueueRef, seq<Tid>> {
    match place
    case Some(ReadyQ) => Moved(queue, ReadyQ, eff, t)
    case Some(MutexQ(m)) => Moved(queue, MutexQ(m), eff, t)
    case _ => queue
  }

  lemma HomesSame(k: K, k1: K)
    requires |k.wait| == |k.state| && k1.state == k.state && k1.wait == k.wait
    ensures Homes(k1) == Homes(k)
  {
  }

  lemma RaiseView(k: K, k1: K, t: Tid, p: nat)
    requires Wf(k) && t < |k.state| && k1 == k.(eff := k.eff[t := p], queue := k1.queue)
    requires k1.queue == MovedIn(k.queue, Place(k, t), k1.eff, t)
    ensures Wf(k1) && Homes(k1) == Homes(k) && k1 == RaiseOne(k, t, p)
  {
    HomesSame(k, k1);
    var k0 := k.(eff := k.eff[t := p]);
    match Place(k, t)
    case Some(ReadyQ) => MovedIs(k0, ReadyQ, t);
    case Some(MutexQ(m)) => MovedIs(k0, MutexQ(m), t);
    case _ =>
  }

  lemma PutView(k: K, k1: K, t: Tid)
    requires t < |k.state| && k.state[t] !in {Finished, Blocked, Sleeping}
    requires k1 == k.(state := k.state[t := Ready], queue := Moved(k.queue, ReadyQ, k.eff, t))
    ensures k1 == Put(k, t)
  {
    MovedIs(k.(state := k.state[t := Ready]), ReadyQ, t);
  }

  lemma MovedIs(k: K, q: QueueRef, t: Tid)
    ensures Enqueue(Dequeue(k, q, t), q, t) == k.(queue := Moved(k.queue, q, KeyOf(k, q), t))
  {
  }

  /** The task t leaves the processor for list q. */
  lemma BlockView(k: K, k1: K, s: TaskState, w: Wait, q: QueueRef, t: Tid)
    requires Wf(k) && t < |k.state| && PlaceFor(s, w) == Some(q) && (w.OnMutex? ==> w.mutex < |k.owner|)
    requires k1 == k.(state := k.state[t := s], wait := k.wait[t := w],
                      queue := k.queue[q := Insert(At(k.queue, q), KeyFor(k.eff, k.wake, q), t)])
    ensures Wf(k1) && Homes(k1) == Homes(k)[t := Some(q)]
    ensures k1 == Enqueue(k.(state := k.state[t := s], wait := k.wait[t := w]), q, t)
  {
    HomesBut(k, k1, t);
  }

  lemma SleepView(k: K, k1: K, w: nat, t: Tid)
    requires Wf(k) && t < |k.state|
    requires k1 == k.(state := k.state[t := Sleeping], wait := k.wait[t := k.wait[t]], wake := k.wake[t := w],
                      queue := k.queue[SleepQ := Insert(At(k.queue, SleepQ), k.wake[t := w], t)])
    ensures Wf(k1) && Homes(k1) == Homes(k)[t := Some(SleepQ)]
    ensures k1 == Enqueue(k.(state := k.state[t := Sleeping], wake := k.wake[t := w]), SleepQ, t)
  {
    assert k.wait[t := k.wait[t]] == k.wait;
    HomesBut(k, k1, t);
  }

  lemma InitView(k: K, k1: K, t: Tid)
    requires Wf(k) && t < |k.state| && Place(k, t).None?
    requires |k1.base| == |k1.eff| == |k1.wake| == |k1.owned| == |k.state|
    requires k1 == k.(state := k.state[t := Ready], wait := k.wait[t := NoWait], base := k1.base, eff := k1.eff,
                      wake := k1.wake, owned := k1.owned)
    ensures Wf(k1) && Homes(k1)[t := None] == Homes(k)
  {
    HomesBut(k, k1, t);
    assert Homes(k)[t := None] == Homes(k);
  }

  lemma UnlinkHome(queue: map<QueueRef, seq<Tid>>, home: seq<Option<QueueRef>>, q: QueueRef, t: Tid)
    requires HomeOk(queue, home) && t < |home| && (home[t].None? || home[t] == Some(q))
    ensures HomeOk(queue[q := Remove(At(queue, q), t)], home[t := None])
  {
    if home[t].None? {
      assert t !in At(queue, q);
      var queue1 := queue[q := Remove(At(queue, q), t)];
      assert forall u :: At(queue1, u) == At(queue, u);
      forall u {:trigger Distinct(At(queue1, u))} ensures Distinct(At(queue1, u)) {
        assert Distinct(At(queue, u));
      }
      assert home[t := None] == home;
    } else {
      HomeRemove(queue, home, q, t);
    }
  }
}
