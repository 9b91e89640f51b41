/** Inputs on which the kernel's handover goes wrong: states of the invariant,
    reached from boot by sound steps, in which one more call breaks it. */
module KernelWitness {
  import opened Queues
  import opened KernelState
  import opened KernelInvariant
  import opened Unlocking
  import opened KernelRuns

  /** Task 0 runs and holds mutex 1, then mutex 0; task 1, better, waits on mutex 1. */
  function TwoHeld(): K {
    K([Running, Blocked], [5, 3], [3, 3], [NoWait, OnMutex(1)], [0, 0], map[ReadyQ := [], MutexQ(1) := [1]],
      [Some(0), Some(0)], [[1, 0], []], [], [], Some(0), 0)
  }

  lemma TwoHeldInv()
    ensures Inv(TwoHeld())
  {
    BootInv(2, 2, []);
    Reached();
    RunInv(Boot(2, 2, []), EightSteps(), false, TwoHeld());
  }

  lemma HandoverBreaks()
    ensures Inv(TwoHeld()) && !Inv(Unlock(TwoHeld(), 1, false).0) && Inv(Unlock(TwoHeld(), 1, true).0)
  {
    TwoHeldInv();
    UnlockInv(TwoHeld(), 1);
  }

  /** mutex_unlock of mutex 1 breaks the owned lists, in the kernel's order. */
  lemma HandoverFails()
    ensures Inv(TwoHeld()) && !Inv(Unlock(TwoHeld(), 1, false).0) && Inv(Unlock(TwoHeld(), 1, true).0)
    ensures Runs(Boot(2, 2, []), EightSteps(), false, TwoHeld())
  {
    HandoverBreaks();
    Reached();
  }

  /** Exit of task 0 leaves it the owner of a mutex, in either order. */
  lemma ExitFails(f: bool)
    ensures var r := Exit(TwoHeld(), f);
            Inv(TwoHeld()) && !Inv(r) && exists x :: 0 <= x < |r.owner| && r.owner[x] == Some(0)
    ensures Runs(Boot(2, 2, []), EightSteps(), false, TwoHeld())
  {
    Reached();
    TwoHeldInv();
    ExitInv(TwoHeld(), f);
    ExitReleasesAll(TwoHeld(), f);
    ExitOwner(TwoHeld(), f);
  }

  // ---- how the state comes about ----

  function Made(state: seq<TaskState>, base: seq<nat>, eff: seq<nat>, ready: seq<Tid>, owner: seq<Option<Tid>>,
                owned: seq<seq<Mid>>, current: Option<Tid>): K {
    K(state, base, eff, [NoWait, NoWait], [0, 0], map[ReadyQ := ready], owner, owned, [], [], current, 0)
  }

  function AtBoot(): K {
    K([Unused, Unused], [0, 0], [0, 0], [NoWait, NoWait], [0, 0], map[], [None, None], [[], []], [], [], None, 0)
  }

  function FirstReady(): K {
    Made([Ready, Unused], [5, 0], [5, 0], [0], [None, None], [[], []], None)
  }

  function FirstRuns(owner: seq<Option<Tid>>, owned: seq<Mid>): K {
    Made([Running, Unused], [5, 0], [5, 0], [], owner, [owned, []], Some(0))
  }

  function SecondReady(): K {
    Made([Running, Ready], [5, 3], [5, 3], [1], [Some(0), Some(0)], [[1, 0], []], Some(0))
  }

  function SecondRuns(): K {
    Made([Ready, Running], [5, 3], [5, 3], [0], [Some(0), Some(0)], [[1, 0], []], Some(1))
  }

  function SecondBlocked(): K {
    K([Ready, Blocked], [5, 3], [3, 3], [NoWait, OnMutex(1)], [0, 0], map[ReadyQ := [0], MutexQ(1) := [1]],
      [Some(0), Some(0)], [[1, 0], []], [], [], Some(1), 0)
  }

  lemma BootIs()
    ensures Boot(2, 2, []) == AtBoot()
  {
  }

  lemma Created()
    ensures Create(AtBoot(), 5) == FirstReady()
  {
    var k := AtBoot();
    assert FreeSlot(k.state, 0) == Some(0);
    var k1 := k.(state := [Ready, Unused], base := [5, 0], eff := [5, 0]);
    assert k.state[0 := Ready] == k1.state && k.base[0 := 5] == k1.base && k.eff[0 := 5] == k1.eff;
    assert k.owned[0 := []] == k.owned && k.wait[0 := NoWait] == k.wait && k.wake[0 := 0] == k.wake;
    assert Create(k, 5) == Put(k1, 0);
    assert k1.state[0 := Ready] == k1.state && Insert([], [5, 0], 0) == [0];
  }

  lemma CreatedNext()
    ensures Create(FirstRuns([Some(0), Some(0)], [1, 0]), 3) == SecondReady()
  {
    var k := FirstRuns([Some(0), Some(0)], [1, 0]);
    assert FreeSlot(k.state, 0) == FreeSlot(k.state, 1) == Some(1);
    var k1 := k.(state := [Running, Ready], base := [5, 3], eff := [5, 3]);
    assert k.state[1 := Ready] == k1.state && k.base[1 := 3] == k1.base && k.eff[1 := 3] == k1.eff;
    assert k.owned[1 := []] == k.owned && k.wait[1 := NoWait] == k.wait && k.wake[1 := 0] == k.wake;
    assert Create(k, 3) == Put(k1, 1);
    assert k1.state[1 := Ready] == k1.state && Insert([], [5, 3], 1) == [1];
  }

  lemma Selected()
    ensures Select(FirstReady()) == FirstRuns([None, None], [])
    ensures Select(SecondBlocked()) == TwoHeld()
  {
  }

  lemma Preempted()
    ensures Select(SecondReady()) == SecondRuns()
  {
    Requeued();
    var k1 := PutCurrent(SecondReady());
    assert Q(k1, ReadyQ) == [1, 0] && [1, 0][1..] == [0];
  }

  lemma Requeued()
    ensures PutCurrent(SecondReady()) == SecondReady().(state := [Ready, Ready], queue := map[ReadyQ := [1, 0]])
  {
    assert Remove([1], 0) == [1] + Remove([], 0) == [1];
    assert [1][1..] == [];
    assert Slot([1], [5, 3], 5) == 1 + Slot([], [5, 3], 5) == 1;
    assert Insert([1], [5, 3], 0) == [1, 0];
  }

  lemma Locked()
    ensures Lock(FirstRuns([None, None], []), 0).0 == FirstRuns([Some(0), None], [0])
    ensures Lock(FirstRuns([Some(0), None], [0]), 1).0 == FirstRuns([Some(0), Some(0)], [1, 0])
  {
    var a, b := FirstRuns([None, None], []), FirstRuns([Some(0), None], [0]);
    assert a.owner[0 := Some(0)] == [Some(0), None] && [0] + a.owned[0] == [0] && a.owned[0 := [0]] == [[0], []];
    assert b.owner[1 := Some(0)] == [Some(0), Some(0)] && [1] + b.owned[0] == [1, 0]
           && b.owned[0 := [1, 0]] == [[1, 0], []];
  }

  lemma BlockedAndRaised()
    ensures Lock(SecondRuns(), 1).0 == SecondBlocked()
  {
    var k := SecondRuns();
    var kb := k.(state := [Ready, Blocked], wait := [NoWait, OnMutex(1)]);
    var k1 := Enqueue(kb, MutexQ(1), 1);
    assert Insert([], [5, 3], 1) == [1];
    assert k1.queue == map[ReadyQ := [0], MutexQ(1) := [1]];
    assert Remove([0], 0) == [] && Insert([], [3, 3], 0) == [0];
    assert RaiseOne(k1, 0, 3) == SecondBlocked();
    assert Raise(k1, 0, 3) == SecondBlocked();
  }

  ghost predicate Edge(k: K, a: Step, k1: K) {
    Wf(k) && Enabled(k, a, false) && Apply(k, a, false) == k1
  }

  lemma EdgeCreate()
    ensures Edge(AtBoot(), DoCreate(5), FirstReady())
  {
    Created();
  }

  lemma EdgeSelect()
    ensures Edge(FirstReady(), DoSelect, FirstRuns([None, None], []))
  {
    Selected();
  }

  lemma EdgeLock()
    ensures Edge(FirstRuns([None, None], []), DoLock(0), FirstRuns([Some(0), None], [0]))
  {
    Locked();
  }

  lemma EdgeLockNext()
    ensures Edge(FirstRuns([Some(0), None], [0]), DoLock(1), FirstRuns([Some(0), Some(0)], [1, 0]))
  {
    Locked();
  }

  lemma EdgeCreateNext()
    ensures Edge(FirstRuns([Some(0), Some(0)], [1, 0]), DoCreate(3), SecondReady())
  {
    CreatedNext();
  }

  lemma EdgePreempt()
    ensures Edge(SecondReady(), DoSelect, SecondRuns())
  {
    Preempted();
  }

  lemma EdgeBlock()
    ensures Edge(SecondRuns(), DoLock(1), SecondBlocked())
  {
    BlockedAndRaised();
  }

  lemma EdgeBack()
    ensures Edge(SecondBlocked(), DoSelect, TwoHeld())
  {
    Selected();
  }

  lemma RunsCons(k: K, a: Step, k1: K, rest: seq<Step>, end: K)
    requires Edge(k, a, k1) && Runs(k1, rest, false, end)
    ensures Runs(k, [a] + rest, false, end)
  {
    assert ([a] + rest)[1..] == rest;
  }

  lemma RunsFour(k: K, a: Step, k1: K, b: Step, k2: K, c: Step, k3: K, d: Step, k4: K, rest: seq<Step>, end: K)
    requires Edge(k, a, k1) && Edge(k1, b, k2) && Edge(k2, c, k3) && Edge(k3, d, k4) && Runs(k4, rest, false, end)
    ensures Runs(k, [a] + ([b] + ([c] + ([d] + rest))), false, end)
  {
    RunsCons(k3, d, k4, rest, end);
    RunsCons(k2, c, k3, [d] + rest, end);
    RunsCons(k1, b, k2, [c] + ([d] + rest), end);
    RunsCons(k, a, k1, [b] + ([c] + ([d] + rest)), end);
  }

  function LaterSteps(): seq<Step> {
    [DoCreate(3)] + ([DoSelect] + ([DoLock(1)] + ([DoSelect] + [])))
  }

  function EightSteps(): seq<Step> {
    [DoCreate(5)] + ([DoSelect] + ([DoLock(0)] + ([DoLock(1)] + LaterSteps())))
  }

  /** Eight ordinary calls lead there from boot. */
  lemma Reached()
    ensures Runs(Boot(2, 2, []), EightSteps(), false, TwoHeld())
  {
    BootIs();
    EdgeCreate();
    EdgeSelect();
    EdgeLock();
    EdgeLockNext();
    EdgeCreateNext();
    EdgePreempt();
    EdgeBlock();
    EdgeBack();
    var held := FirstRuns([Some(0), Some(0)], [1, 0]);
    RunsFour(held, DoCreate(3), SecondReady(), DoSelect, SecondRuns(), DoLock(1), SecondBlocked(), DoSelect, TwoHeld(),
             [], TwoHeld());
    RunsFour(AtBoot(), DoCreate(5), FirstReady(), DoSelect, FirstRuns([None, None], []), DoLock(0),
             FirstRuns([Some(0), None], [0]), DoLock(1), held, LaterSteps(), TwoHeld());
  }
}
