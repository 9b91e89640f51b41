/** When sleepers wake: exactly, over every run, wraps of the tick counter
    included. The sleep list is ordered by unsigned tick but popped by signed
    difference, so a due sleeper can stand behind one that is not due. */
module SleepTiming {
  import opened Machine
  import opened Queues
  import opened KernelState
  import opened KernelInvariant
  import opened KernelSteps
  import opened KernelRuns
  import opened KernelTiming

  /** Ticks from now until the counter shows w. */
  function Dist(now: nat, w: nat): int {
    if w >= now then w - now else w + U32 - now
  }

  ghost predicate Asleep(k: K, t: Tid) {
    t < |k.state| && k.state[t] == Sleeping
  }

  // ---- any state ----

  /** The first i + 1 entries of the sleep list are due. */
  ghost predicate DueUpTo(k: K, s: seq<Tid>, i: nat)
    requires i < |s|
  {
    forall j {:trigger s[j]} :: 0 <= j <= i ==> Due(k.ticks, Key(k.wake, s[j]))
  }

  /** sleep_tick wakes the longest prefix of the sleep list that is due, and
      nobody else, whatever the wake ticks are. */
  lemma {:induction false} WakesPrefix(k: K, i: nat)
    requires Inv(k) && i < |Q(k, SleepQ)|
    ensures var s := Q(k, SleepQ);
            Asleep(k, s[i]) && WakeDue(k).state[s[i]] == if DueUpTo(k, s, i) then Ready else Sleeping
    decreases |Q(k, SleepQ)|
  {
    var s := Q(k, SleepQ);
    WakeFirst(k);
    SleeperAt(k, i);
    if Due(k.ticks, Key(k.wake, s[0])) {
      var k1 := WakeSleeper(k, s[0]);
      assert WakeDue(k) == WakeDue(k1);
      if i == 0 {
        WakeDueEffect(k1, s[0]);
      } else {
        WakesPrefix(k1, i - 1);
        DueShift(k, k1, s, i);
      }
    } else {
      assert WakeDue(k) == k;
    }
  }

  lemma SleeperAt(k: K, i: nat)
    requires Struct(k) && i < |Q(k, SleepQ)|
    ensures Asleep(k, Q(k, SleepQ)[i])
  {
    var t := Q(k, SleepQ)[i];
    assert t in At(k.queue, SleepQ);
    assert Homes(k)[t] == Some(SleepQ);
  }

  lemma DueShift(k: K, k1: K, s: seq<Tid>, i: nat)
    requires 0 < i < |s| && k1.wake == k.wake && k1.ticks == k.ticks && Due(k.ticks, Key(k.wake, s[0]))
    ensures DueUpTo(k1, s[1..], i - 1) <==> DueUpTo(k, s, i)
  {
    var r := s[1..];
    assert forall j {:trigger s[j]} :: 0 < j < |s| ==> s[j] == r[j - 1];
    assert forall j {:trigger r[j]} :: 0 <= j < |r| ==> r[j] == s[j + 1];
  }

  /** Where a sleeper stands in the list. */
  lemma SleepIndex(k: K, t: Tid) returns (i: nat)
    requires Struct(k) && Asleep(k, t)
    ensures i < |Q(k, SleepQ)| && Q(k, SleepQ)[i] == t
  {
    assert Homes(k)[t] == Some(SleepQ);
    assert t in At(k.queue, SleepQ);
    i :| 0 <= i < |Q(k, SleepQ)| && Q(k, SleepQ)[i] == t;
  }

  lemma SleepOrder(k: K, i: nat, j: nat)
    requires Struct(k) && i < j < |Q(k, SleepQ)|
    ensures Key(k.wake, Q(k, SleepQ)[i]) <= Key(k.wake, Q(k, SleepQ)[j])
  {
    assert Sorted(At(k.queue, SleepQ), KeyFor(k.eff, k.wake, SleepQ));
  }

  // ---- one tick ----

  /** No sleeper is overdue: every wake tick is now or at most 2^31 ticks ahead. */
  ghost predicate NotPast(k: K)
    requires Wf(k)
  {
    k.ticks < U32 && forall t: nat :: Asleep(k, t) ==> k.wake[t] < U32 && Dist(k.ticks, k.wake[t]) <= I32
  }

  /** No sleeper's wake tick is, as a number, before now. */
  ghost predicate InOrder(k: K, now: nat)
    requires Wf(k)
  {
    forall u: nat :: Asleep(k, u) ==> now <= k.wake[u]
  }

  lemma DueNow(now: nat, w: nat)
    requires now < U32 && w < U32 && Dist(now, w) <= I32
    ensures Due(now, w) <==> w == now
  {
  }

  /** A sleeper whose tick it is wakes if and only if no sleeper's wake tick lies
      behind the counter's wrap; nobody else wakes. */
  lemma WakesIff(k: K, t: Tid)
    requires Inv(k) && NotPast(k) && Asleep(k, t)
    ensures WakeDue(k).state[t] == if k.wake[t] == k.ticks && InOrder(k, k.ticks) then Ready else Sleeping
  {
    var s := Q(k, SleepQ);
    var i := SleepIndex(k, t);
    WakesPrefix(k, i);
    DueNow(k.ticks, k.wake[t]);
    if k.wake[t] == k.ticks {
      if InOrder(k, k.ticks) {
        forall j {:trigger s[j]} | 0 <= j <= i ensures Due(k.ticks, Key(k.wake, s[j])) {
          SleeperAt(k, j);
          if j < i {
            SleepOrder(k, j, i);
          }
        }
      } else {
        var u: nat :| Asleep(k, u) && k.wake[u] < k.ticks;
        var x := SleepIndex(k, u);
        if i < x {
          SleepOrder(k, i, x);
        }
        DueNow(k.ticks, k.wake[u]);
        assert !Due(k.ticks, Key(k.wake, s[x]));
      }
    } else {
      assert !Due(k.ticks, Key(k.wake, s[i]));
    }
  }

  /** Every sleeper's tick lies strictly ahead, by at most 2^31 + 1 ticks. */
  ghost predicate Ahead(k: K)
    requires Wf(k)
  {
    k.ticks < U32 && forall t: nat :: Asleep(k, t) ==> k.wake[t] < U32 && 1 <= Dist(k.ticks, k.wake[t]) <= I32 + 1
  }

  /** What can be checked before a tick: if anybody is due at it, no sleeper's
      wake tick lies behind the wrap. */
  ghost predicate Punctual(k: K)
    requires Wf(k)
  {
    var now := Add32(k.ticks, 1);
    (exists u: nat :: Asleep(k, u) && k.wake[u] == now) ==> InOrder(k, now)
  }

  lemma DistStep(now: nat, w: nat)
    requires now < U32 && w < U32 && 1 <= Dist(now, w)
    ensures Add32(now, 1) < U32 && Dist(Add32(now, 1), w) == Dist(now, w) - 1
  {
  }

  lemma TickNotPast(k: K)
    requires Inv(k) && Ahead(k)
    ensures var k1 := k.(ticks := Add32(k.ticks, 1)); Wf(k1) && NotPast(k1)
  {
    forall t: nat | Asleep(k, t) ensures Dist(Add32(k.ticks, 1), k.wake[t]) <= I32 {
      DistStep(k.ticks, k.wake[t]);
    }
    assert Add32(k.ticks, 1) < U32;
  }

  /** One tick wakes exactly the sleepers whose wake tick it is, provided none
      stands behind the wrap; and it leaves every remaining sleeper strictly
      ahead if and only if the tick was punctual. */
  lemma TickWakes(k: K)
    requires Inv(k) && Ahead(k)
    ensures var now := Add32(k.ticks, 1);
            && Inv(Tick(k)) && Tick(k).ticks == now && Tick(k).wake == k.wake && |Tick(k).state| == |k.state|
            && (forall t: nat :: Asleep(k, t) ==>
                  Tick(k).state[t] == if k.wake[t] == now && InOrder(k, now) then Ready else Sleeping)
            && (forall t: nat :: Asleep(Tick(k), t) ==> Asleep(k, t))
            && (Ahead(Tick(k)) <==> Punctual(k))
  {
    var now := Add32(k.ticks, 1);
    var k1 := k.(ticks := now);
    TickInv(k);
    TicksInv(k, now);
    TickNotPast(k);
    SameSleepers(k, k1);
    forall t: nat | t < |k.state|
      ensures Asleep(k, t) ==> WakeDue(k1).state[t] == if k.wake[t] == now && InOrder(k, now) then Ready else Sleeping
      ensures Asleep(WakeDue(k1), t) ==> Asleep(k, t)
    {
      WakeDueEffect(k1, t);
      if Asleep(k, t) {
        WakesIff(k1, t);
      }
    }
    TickAhead(k, WakeDue(k1));
  }

  lemma SameSleepers(k: K, k1: K)
    requires Wf(k) && Wf(k1) && k1.state == k.state && k1.wake == k.wake
    ensures forall now: nat :: InOrder(k1, now) <==> InOrder(k, now)
  {
    assert forall t: nat :: Asleep(k1, t) <==> Asleep(k, t);
  }

  lemma TickAhead(k: K, r: K)
    requires Wf(k) && Wf(r) && Ahead(k) && r.ticks == Add32(k.ticks, 1) && r.wake == k.wake && |r.state| == |k.state|
    requires forall t: nat :: Asleep(k, t) ==>
               r.state[t] == if k.wake[t] == r.ticks && InOrder(k, r.ticks) then Ready else Sleeping
    requires forall t: nat :: Asleep(r, t) ==> Asleep(k, t)
    ensures Ahead(r) <==> Punctual(k)
  {
    forall t: nat | Asleep(k, t) ensures Dist(r.ticks, r.wake[t]) == Dist(k.ticks, k.wake[t]) - 1 {
      DistStep(k.ticks, k.wake[t]);
    }
    assert r.ticks < U32;
    if !Punctual(k) {
      var u: nat :| Asleep(k, u) && k.wake[u] == r.ticks;
      assert Asleep(r, u) && Dist(r.ticks, r.wake[u]) == 0;
    } else {
      forall t: nat | Asleep(r, t) ensures 1 <= Dist(r.ticks, r.wake[t]) {
        assert Asleep(k, t);
      }
    }
  }

  /** While the counter is not about to wrap past a sleeper, every tick is punctual. */
  lemma UnwrappedPunctual(k: K)
    requires Wf(k) && Ahead(k) && forall u: nat :: Asleep(k, u) ==> k.ticks < k.wake[u]
    ensures Punctual(k)
  {
  }

  // ---- whole runs ----

  /** Sleeps of at most 2^31 + 1 ticks, and punctual ticks. */
  ghost predicate InTime(k: K, a: Step)
    requires Wf(k)
  {
    match a
    case DoSleep(n) => n <= I32 + 1
    case DoTick => Punctual(k)
    case _ => true
  }

  ghost predicate TimedRuns(k: K, steps: seq<Step>, f: bool, k1: K)
    decreases |steps|
  {
    if steps == [] then k1 == k
    else Wf(k) && Enabled(k, steps[0], f) && InTime(k, steps[0]) && TimedRuns(Apply(k, steps[0], f), steps[1..], f, k1)
  }

  function TickCount(steps: seq<Step>): nat {
    if steps == [] then 0 else (if steps[0].DoTick? then 1 else 0) + TickCount(steps[1..])
  }

  lemma SleepDist(now: nat, n: nat)
    requires now < U32 && n < U32
    ensures Add32(now, n) < U32 && Dist(now, Add32(now, n)) == n
  {
  }

  lemma EffectAhead(k: K, a: Step, k1: K)
    requires Wf(k) && Wf(k1) && Ahead(k) && InTime(k, a) && !a.DoTick? && k1.ticks == k.ticks && |k1.state| == |k.state|
    requires forall t :: 0 <= t < |k.state| ==> Effect(k, a, k1, t)
    ensures Ahead(k1)
  {
    forall t: nat | Asleep(k1, t)
      ensures k1.wake[t] < U32 && 1 <= Dist(k1.ticks, k1.wake[t]) <= I32 + 1
    {
      assert Effect(k, a, k1, t);
      if Asleep(k, t) {
        assert k1.wake[t] == k.wake[t];
      } else {
        SleepDist(k.ticks, a.n);
      }
    }
  }

  lemma StepTicks(k: K, a: Step, f: bool)
    requires Inv(k) && Enabled(k, a, f) && !a.DoTick?
    ensures Apply(k, a, f).ticks == k.ticks && |Apply(k, a, f).state| == |k.state|
  {
    if |k.state| > 0 {
      StepEffect(k, a, f, 0);
    }
  }

  lemma StepAhead(k: K, a: Step, f: bool)
    requires Inv(k) && Ahead(k) && Enabled(k, a, f) && InTime(k, a)
    ensures var k1 := Apply(k, a, f);
            && Inv(k1) && Ahead(k1) && |k1.state| == |k.state|
            && k1.ticks == if a.DoTick? then Add32(k.ticks, 1) else k.ticks
  {
    StepInv(k, a, f);
    if a.DoTick? {
      TickWakes(k);
    } else {
      var k1 := Apply(k, a, f);
      StepTicks(k, a, f);
      forall t | 0 <= t < |k.state| ensures Effect(k, a, k1, t) {
        StepEffect(k, a, f, t);
      }
      EffectAhead(k, a, k1);
    }
  }

  /** One step leaves a sleeper asleep until its tick. */
  lemma AsleepStep(k: K, a: Step, f: bool, t: Tid)
    requires Inv(k) && Ahead(k) && Asleep(k, t) && Enabled(k, a, f) && InTime(k, a)
    requires a.DoTick? ==> Dist(k.ticks, k.wake[t]) > 1
    ensures var k1 := Apply(k, a, f);
            && Wf(k1) && Asleep(k1, t) && k1.wake[t] == k.wake[t]
            && Dist(k1.ticks, k1.wake[t]) == Dist(k.ticks, k.wake[t]) - if a.DoTick? then 1 else 0
  {
    StepAhead(k, a, f);
    if a.DoTick? {
      TickWakes(k);
      DistStep(k.ticks, k.wake[t]);
    } else {
      StepEffect(k, a, f, t);
    }
  }

  /** Until its tick comes, a sleeper stays asleep, whatever else happens. */
  lemma {:induction false} StillAsleep(k: K, steps: seq<Step>, f: bool, t: Tid, k1: K)
    requires Inv(k) && Ahead(k) && Asleep(k, t) && TimedRuns(k, steps, f, k1)
    requires TickCount(steps) < Dist(k.ticks, k.wake[t])
    ensures Inv(k1) && Ahead(k1) && Asleep(k1, t)
    ensures Dist(k1.ticks, k1.wake[t]) == Dist(k.ticks, k.wake[t]) - TickCount(steps)
    decreases |steps|
  {
    if steps != [] {
      StepAhead(k, steps[0], f);
      AsleepStep(k, steps[0], f, t);
      StillAsleep(Apply(k, steps[0], f), steps[1..], f, t, k1);
    }
  }

  lemma FallsAsleep(k: K, n: nat)
    requires Inv(k) && Ahead(k) && RunningNow(k) && 0 < n <= I32 + 1
    ensures var t, k0 := k.current.value, SleepFor(k, n);
            Inv(k0) && Ahead(k0) && Asleep(k0, t) && Dist(k0.ticks, k0.wake[t]) == n
  {
    SleepForInv(k, n);
    forall t | 0 <= t < |k.state| ensures Effect(k, DoSleep(n), SleepFor(k, n), t) {
      SleepEffect(k, n, t);
    }
    EffectAhead(k, DoSleep(n), SleepFor(k, n));
    SleepDist(k.ticks, n);
  }

  /** A task that sleeps n ticks, 0 < n <= 2^31 + 1, is asleep through the next
      n - 1 ticks, and the n-th makes it ready if and only if no sleeper's wake
      tick then lies behind the wrap: for every interleaving of other steps and
      any number of wraps. */
  lemma SleepsExactly(k: K, n: nat, steps: seq<Step>, f: bool, k1: K)
    requires Inv(k) && Ahead(k) && RunningNow(k) && 0 < n <= I32 + 1
    requires TimedRuns(SleepFor(k, n), steps, f, k1) && TickCount(steps) < n
    ensures var t := k.current.value;
            && Inv(k1) && Asleep(k1, t)
            && (TickCount(steps) == n - 1 ==>
                  (Tick(k1).state[t] == Ready <==> InOrder(k1, Add32(k1.ticks, 1)))
                  && (InOrder(k1, Add32(k1.ticks, 1)) ==> t in Q(Tick(k1), ReadyQ)))
  {
    var t, k0 := k.current.value, SleepFor(k, n);
    FallsAsleep(k, n);
    StillAsleep(k0, steps, f, t, k1);
    if TickCount(steps) == n - 1 {
      TickWakes(k1);
      DistStep(k1.ticks, k1.wake[t]);
      if Tick(k1).state[t] == Ready {
        assert Homes(Tick(k1))[t] == Some(ReadyQ);
      }
    }
  }

  // ---- sleeps that are too long ----

  lemma DueAtOnce(now: nat, n: nat)
    requires now < U32 && 0 < n < U32
    ensures Due(Add32(now, 1), Add32(now, n)) <==> n == 1 || n > I32 + 1
  {
  }

  /** In a sorted list the insertion point parts the keys up to p from the rest. */
  lemma SlotParts(s: seq<Tid>, key: seq<nat>, p: nat, x: nat)
    requires Sorted(s, key) && x < |s|
    ensures Key(key, s[x]) <= p <==> x < Slot(s, key, p)
  {
    var i := Slot(s, key, p);
    if i <= x {
      assert i < x ==> Key(key, s[i]) <= Key(key, s[x]);
    }
  }

  /** Every sleeper whose wake tick is not after w is due at the next tick. */
  ghost predicate NobodyBetween(k: K, w: nat)
    requires Wf(k)
  {
    forall u: nat :: Asleep(k, u) && k.wake[u] <= w ==> k.wake[u] == Add32(k.ticks, 1)
  }

  /** The bound on n is exact: with nobody else asleep, a sleep of n ticks, wrap or
      not, is over at the very next tick if and only if it is one tick long or
      longer than 2^31 + 1. In general every sleeper in front of it must be due
      as well. */
  lemma {:induction false} SleepLimit(k: K, n: nat)
    requires Inv(k) && Ahead(k) && RunningNow(k) && 0 < n < U32
    ensures var t, k0 := k.current.value, SleepFor(k, n);
            Wf(k0) && (Tick(k0).state[t] == Ready <==>
                       (n == 1 || n > I32 + 1)
                       && NobodyBetween(k, Add32(k.ticks, n)))
  {
    DueAtOnce(k.ticks, n);
    SleepForIs(k, n);
    TickWoken(k, SleepFor(k, n), k.current.value, Add32(k.ticks, n));
  }

  lemma SleepForIs(k: K, n: nat)
    requires Wf(k) && RunningNow(k) && 0 < n
    ensures Wf(SleepFor(k, n)) && SleepFor(k, n) == GoneToSleep(k, k.current.value, Add32(k.ticks, n))
  {
  }

  lemma TickIs(k: K)
    requires Wf(k)
    ensures Wf(k.(ticks := Add32(k.ticks, 1))) && Tick(k) == WakeDue(k.(ticks := Add32(k.ticks, 1)))
  {
  }

  function GoneToSleep(k: K, t: Tid, w: nat): K
    requires Wf(k) && t < |k.state|
  {
    Enqueue(k.(state := k.state[t := Sleeping], wake := k.wake[t := w]), SleepQ, t)
  }

  lemma {:induction false} TickWoken(k: K, k0: K, t: Tid, w: nat)
    requires Inv(k) && Ahead(k) && t < |k.state| && k.state[t] == Running
    requires Wf(k0) && k0 == GoneToSleep(k, t, w)
    ensures t < |k0.state| && (Tick(k0).state[t] == Ready <==> Due(Add32(k.ticks, 1), w) && NobodyBetween(k, w))
  {
    TickIs(k0);
    WokenAtOnce(k, k0.(ticks := Add32(k0.ticks, 1)), t, w);
  }

  lemma {:induction false} WokenAtOnce(k: K, k1: K, t: Tid, w: nat)
    requires Inv(k) && Ahead(k) && t < |k.state| && k.state[t] == Running
    requires k1 == GoneToSleep(k, t, w).(ticks := Add32(k.ticks, 1))
    ensures Wf(k1) && (WakeDue(k1).state[t] == Ready <==> Due(Add32(k.ticks, 1), w) && NobodyBetween(k, w))
  {
    SleepUntilInv(k, t, w);
    TicksInv(GoneToSleep(k, t, w), Add32(k.ticks, 1));
    var i := Slot(Q(k, SleepQ), k1.wake, w);
    InsertIndex(Q(k, SleepQ), i, t, Q(k1, SleepQ));
    WakesPrefix(k1, i);
    DueSleepers(k, k1, Q(k1, SleepQ), t, w, i);
  }

  lemma DueSleepers(k: K, k1: K, r: seq<Tid>, t: Tid, w: nat, i: nat)
    requires Struct(k) && Ahead(k) && t < |k.state| && k.state[t] == Running
    requires k1.wake == k.wake[t := w] && k1.ticks == Add32(k.ticks, 1)
    requires i == Slot(Q(k, SleepQ), k1.wake, w) && r == Q(k, SleepQ)[..i] + [t] + Q(k, SleepQ)[i..]
    ensures DueUpTo(k1, r, i) <==>
            Due(Add32(k.ticks, 1), w) && NobodyBetween(k, w)
  {
    var s, now := Q(k, SleepQ), Add32(k.ticks, 1);
    InsertIndex(s, i, t, r);
    assert Key(k1.wake, r[i]) == w;
    forall x {:trigger s[x]} | 0 <= x < |s|
      ensures Asleep(k, s[x]) && Key(k1.wake, s[x]) == k.wake[s[x]]
      ensures k.wake[s[x]] <= w <==> x < i
      ensures Due(now, k.wake[s[x]]) <==> k.wake[s[x]] == now
    {
      SleeperFacts(k, t, w, x);
    }
    if DueUpTo(k1, r, i) {
      forall u: nat | Asleep(k, u) && k.wake[u] <= w ensures k.wake[u] == now {
        var x := SleepIndex(k, u);
        assert r[x] == s[x];
      }
      assert Due(k1.ticks, Key(k1.wake, r[i]));
    } else {
      var j :| 0 <= j <= i && !Due(k1.ticks, Key(k1.wake, r[j]));
      if j < i {
        assert r[j] == s[j] && Asleep(k, s[j]);
      }
    }
  }

  lemma SleeperFacts(k: K, t: Tid, w: nat, x: nat)
    requires Struct(k) && Ahead(k) && t < |k.state| && k.state[t] == Running && x < |Q(k, SleepQ)|
    ensures var s, wake1 := Q(k, SleepQ), k.wake[t := w];
            && Asleep(k, s[x]) && Key(wake1, s[x]) == k.wake[s[x]] && (k.wake[s[x]] <= w <==> x < Slot(s, wake1, w))
            && (Due(Add32(k.ticks, 1), k.wake[s[x]]) <==> k.wake[s[x]] == Add32(k.ticks, 1))
  {
    var s := Q(k, SleepQ);
    SleeperAt(k, x);
    SleepKeys(k, t, w);
    SlotParts(s, k.wake[t := w], w, x);
    DistStep(k.ticks, k.wake[s[x]]);
    DueNow(Add32(k.ticks, 1), k.wake[s[x]]);
  }

  lemma SleepKeys(k: K, t: Tid, w: nat)
    requires Struct(k) && t < |k.state| && k.state[t] == Running
    ensures Sorted(Q(k, SleepQ), k.wake[t := w]) && t !in Q(k, SleepQ)
  {
    assert Homes(k)[t].None?;
    assert t !in At(k.queue, SleepQ);
    assert Sorted(At(k.queue, SleepQ), KeyFor(k.eff, k.wake, SleepQ));
    SortedSame(Q(k, SleepQ), k.wake, k.wake[t := w], t);
  }

  function Alone(): K {
    K([Running], [0], [0], [NoWait], [0], map[], [], [[]], [], [], Some(0), 0)
  }

  lemma AloneInv()
    ensures Inv(Alone()) && Ahead(Alone())
  {
    var k := Alone();
    assert Homes(k) == [None];
    assert ExactAt(k, 0);
  }

  /** A task alone on the machine at tick 0 that asks for 0xF0000000 ticks is ready
      after one. */
  lemma LongSleepEndsAtOnce()
    ensures Inv(Alone()) && Ahead(Alone()) && Tick(SleepFor(Alone(), 0xF000_0000)).state[0] == Ready
  {
    AloneInv();
    SleepLimit(Alone(), 0xF000_0000);
  }

  /** Two sleepers on either side of the counter's wrap, both in time. */
  function Straddling(): K {
    K([Sleeping, Sleeping], [0, 0], [0, 0], [NoWait, NoWait], [U32 - 1, 2], map[SleepQ := [1, 0]],
      [], [[], []], [], [], None, U32 - 2)
  }

  lemma StraddlingStruct()
    ensures Struct(Straddling())
  {
    var k := Straddling();
    assert Homes(k) == [Some(SleepQ), Some(SleepQ)];
    assert forall q :: q != SleepQ ==> At(k.queue, q) == [];
    assert At(k.queue, SleepQ) == [1, 0];
  }

  lemma StraddlingInv()
    ensures Inv(Straddling()) && Ahead(Straddling())
  {
    var k := Straddling();
    StraddlingStruct();
    assert ExactAt(k, 0) && ExactAt(k, 1);
  }

  /** The later of the two is first in the list and hides the earlier one, which is
      still asleep after its own tick. */
  lemma WrapOversleeps()
    ensures var k := Straddling();
            Inv(k) && Ahead(k) && Tick(k).ticks == k.wake[0] && Tick(k).state[0] == Sleeping && !Ahead(Tick(k))
  {
    var k := Straddling();
    StraddlingInv();
    assert Asleep(k, 0) && Asleep(k, 1);
    TickWakes(k);
  }
}
