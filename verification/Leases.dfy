/** The lease table: slot lifetimes, address choice and the four client messages,
    at one clock reading per message. */
module Leases {
  import opened Machine
  import opened Queues

  const KEY_CAP: nat := 16

  // lease_state_t as stored: one byte
  const FREE: byte := 0
  const OFFERED: byte := 1
  const BOUND: byte := 2
  const DECLINED: byte := 3

  /** lease_slot_t; only the first keyLen bytes of key are compared. */
  datatype Slot = Slot(state: byte, key: seq<byte>, keyLen: byte, expires: nat)

  predicate SlotOk(s: Slot) {
    |s.key| == KEY_CAP && s.keyLen <= KEY_CAP && s.expires < U32
  }

  type Table = seq<Slot>

  predicate TableOk(tb: Table) {
    |tb| < 256 && forall i :: 0 <= i < |tb| ==> SlotOk(tb[i])
  }

  /** key_len equal and memcmp of that many bytes */
  predicate HasKey(s: Slot, k: seq<byte>) {
    s.keyLen == |k| && s.keyLen <= |s.key| && s.key[..s.keyLen] == k
  }

  /** slot_alive, with its signed 32-bit comparison written out */
  predicate Alive(s: Slot, now: nat) {
    s.state != FREE && (now - s.expires) % U32 >= I32
  }

  /** memcpy of k over the start of the stored key */
  function SetKey(was: seq<byte>, k: seq<byte>): seq<byte>
    requires |k| <= |was|
  {
    k + was[|k|..]
  }

  datatype Msg =
    | Discover(key: seq<byte>)
    | Request(key: seq<byte>, forUs: bool, octet: byte)
    | Decline(key: seq<byte>, requested: Option<byte>)
    | Release(key: seq<byte>, octet: byte)

  datatype Reply = NoReply | Offer(slot: nat, to: seq<byte>) | Ack(slot: nat, to: seq<byte>)

  /** pool geometry and lease time from dhcp_cfg_t */
  datatype Cfg = Cfg(first: byte, leaseTime: nat)

  // ---- chose_address ----

  function FindKey(tb: Table, k: seq<byte>, i: nat): (r: Option<nat>)
    requires i <= |tb|
    ensures r.Some? ==> i <= r.value < |tb| && HasKey(tb[r.value], k) && tb[r.value].state != DECLINED
    ensures r.None? ==> forall j :: i <= j < |tb| ==> !HasKey(tb[j], k) || tb[j].state == DECLINED
    decreases |tb| - i
  {
    if i == |tb| then None
    else if HasKey(tb[i], k) && tb[i].state != DECLINED then Some(i)
    else FindKey(tb, k, i + 1)
  }

  function FindFree(tb: Table, now: nat, i: nat): (r: Option<nat>)
    requires i <= |tb|
    ensures r.Some? ==> i <= r.value < |tb| && !Alive(tb[r.value], now) && forall j :: i <= j < r.value ==>
              Alive(tb[j], now)
    ensures r.None? ==> forall j :: i <= j < |tb| ==> Alive(tb[j], now)
    decreases |tb| - i
  {
    if i == |tb| then None
    else if !Alive(tb[i], now) then Some(i)
    else FindFree(tb, now, i + 1)
  }

  function Choose(tb: Table, c: Cfg, k: seq<byte>, now: nat): (r: (Table, Reply))
    requires TableOk(tb)
    ensures TableOk(r.0) && |r.0| == |tb|
  {
    if k == [] || |k| > KEY_CAP then (tb, NoReply)
    else match FindKey(tb, k, 0)
      case Some(i) => (tb[i := tb[i].(expires := (now + c.leaseTime) % U32)], Offer(i, k))
      case None =>
        match FindFree(tb, now, 0)
        case Some(i) =>
          (tb[i := Slot(OFFERED, SetKey(tb[i].key, k), |k|, (now + 60) % U32)], Offer(i, k))
        case None => (tb, NoReply)
  }

  // ---- the other handlers ----

  /** The slot an address names: only its last octet is looked at. */
  function SlotOf(tb: Table, c: Cfg, octet: byte): Option<nat> {
    if 0 <= octet - c.first < |tb| then Some(octet - c.first) else None
  }

  function DoRequest(tb: Table, c: Cfg, k: seq<byte>, forUs: bool, octet: byte, now: nat): (r: (Table, Reply))
    requires TableOk(tb)
    ensures TableOk(r.0) && |r.0| == |tb|
  {
    match SlotOf(tb, c, octet)
    case Some(i) =>
      if forUs && Alive(tb[i], now) && HasKey(tb[i], k) then
        (tb[i := tb[i].(state := BOUND, expires := (now + c.leaseTime) % U32)], Ack(i, k))
      else (tb, NoReply)
    case None => (tb, NoReply)
  }

  function DoDecline(tb: Table, c: Cfg, k: seq<byte>, requested: Option<byte>, now: nat): (r: Table)
    requires TableOk(tb)
    ensures TableOk(r) && |r| == |tb|
  {
    if requested.None? then tb
    else match SlotOf(tb, c, requested.value)
      case Some(i) =>
        if HasKey(tb[i], k) then tb[i := tb[i].(state := DECLINED, expires := (now + 300) % U32)] else tb
      case None => tb
  }

  function DoRelease(tb: Table, c: Cfg, k: seq<byte>, octet: byte): (r: Table)
    requires TableOk(tb)
    ensures TableOk(r) && |r| == |tb|
  {
    match SlotOf(tb, c, octet)
    case Some(i) => if HasKey(tb[i], k) then tb[i := tb[i].(state := FREE, expires := 0)] else tb
    case None => tb
  }

  /** One message of the server loop; a DECLINE is answered with a new offer. */
  function Handle(tb: Table, c: Cfg, m: Msg, now: nat): (r: (Table, Reply))
    requires TableOk(tb)
    ensures TableOk(r.0) && |r.0| == |tb|
  {
    match m
    case Discover(k) => Choose(tb, c, k, now)
    case Request(k, forUs, octet) => DoRequest(tb, c, k, forUs, octet, now)
    case Decline(k, requested) => Choose(DoDecline(tb, c, k, requested, now), c, k, now)
    case Release(k, octet) => (DoRelease(tb, c, k, octet), NoReply)
  }

  // ---- lease lifetime ----

  /** A deadline D seconds ahead in time, stored in 32 bits, keeps the slot alive
      until D exactly when it is at most 2^31 seconds ahead. */
  lemma AliveUntil(s: Slot, now: nat, d: nat)
    requires s.state != FREE && s.expires == d % U32 && now < d < now + U32
    ensures Alive(s, now) <==> d - now <= I32
  {
    var q := d / U32;
    assert d == q * U32 + d % U32;
    assert (now - s.expires) % U32 == (now - d) % U32 == now - d + U32 by {
      ModShift(now - d, q);
    }
  }

  lemma ModShift(x: int, q: nat)
    ensures (x + q * U32) % U32 == x % U32
  {
    if q > 0 {
      ModShift(x, q - 1);
      assert (x + (q - 1) * U32 + U32) % U32 == (x + (q - 1) * U32) % U32;
    }
  }

  /** Slot i is bound to key k, by an ACK or renewal no later than now, until at
      least `until`. */
  ghost predicate Held(tb: Table, c: Cfg, i: nat, k: seq<byte>, now: nat, until: nat) {
    && i < |tb| && tb[i].state == BOUND && HasKey(tb[i], k)
    && exists d: nat :: Deadline(tb[i], d) && until <= d <= now + c.leaseTime
  }

  predicate Deadline(s: Slot, d: nat) {
    s.expires == d % U32
  }

  lemma HeldAlive(tb: Table, c: Cfg, i: nat, k: seq<byte>, now: nat, until: nat)
    requires Held(tb, c, i, k, now, until) && now < until && c.leaseTime <= I32
    ensures Alive(tb[i], now)
  {
    var d: nat :| Deadline(tb[i], d) && until <= d <= now + c.leaseTime;
    AliveUntil(tb[i], now, d);
  }

  /** An ACK at time t holds the slot for the whole lease time. */
  lemma AckHolds(tb: Table, c: Cfg, m: Msg, now: nat, i: nat, k: seq<byte>)
    requires TableOk(tb) && Handle(tb, c, m, now).1 == Ack(i, k)
    ensures Held(Handle(tb, c, m, now).0, c, i, k, now, now + c.leaseTime)
  {
    assert Deadline(Handle(tb, c, m, now).0[i], now + c.leaseTime);
  }

  /** k itself gives slot i up. */
  predicate GivesUp(tb: Table, c: Cfg, m: Msg, i: nat, k: seq<byte>) {
    m.key == k && ((m.Decline? && m.requested.Some? && SlotOf(tb, c, m.requested.value) == Some(i))
                   || (m.Release? && SlotOf(tb, c, m.octet) == Some(i)))
  }

  lemma KeyIs(s: Slot, k1: seq<byte>, k2: seq<byte>)
    requires HasKey(s, k1) && HasKey(s, k2)
    ensures k1 == k2
  {
  }

  lemma OtherKey(s: Slot, k1: seq<byte>, k2: seq<byte>)
    requires HasKey(s, k1) && k1 != k2
    ensures !HasKey(s, k2)
  {
  }

  /** Address choice leaves a held slot alone, or renews it for its holder. */
  lemma ChooseKeeps(tb: Table, c: Cfg, k1: seq<byte>, now: nat, i: nat, k: seq<byte>, until: nat)
    requires TableOk(tb) && Held(tb, c, i, k, now, until) && now < until && c.leaseTime <= I32
    ensures Held(Choose(tb, c, k1, now).0, c, i, k, now, until)
    ensures Choose(tb, c, k1, now).1.Offer? && Choose(tb, c, k1, now).1.slot == i ==> k1 == k
  {
    HeldAlive(tb, c, i, k, now, until);
    var (tb1, r) := Choose(tb, c, k1, now);
    if tb1[i] == tb[i] {
    } else {
      assert FindKey(tb, k1, 0) == Some(i);
      assert Deadline(tb1[i], now + c.leaseTime);
    }
  }

  lemma LaterStillHeld(tb: Table, c: Cfg, i: nat, k: seq<byte>, now: nat, later: nat, until: nat)
    requires Held(tb, c, i, k, now, until) && now <= later
    ensures Held(tb, c, i, k, later, until)
  {
    var d: nat :| Deadline(tb[i], d) && until <= d <= now + c.leaseTime;
    assert Deadline(tb[i], d) && until <= d <= later + c.leaseTime;
  }

  /** One message cannot take a held slot from its holder, nor offer or confirm
      it to anyone else. */
  lemma HandleKeeps(tb: Table, c: Cfg, m: Msg, now: nat, i: nat, k: seq<byte>, until: nat)
    requires TableOk(tb) && Held(tb, c, i, k, now, until) && now < until && c.leaseTime <= I32
    requires !GivesUp(tb, c, m, i, k)
    ensures Held(Handle(tb, c, m, now).0, c, i, k, now, until)
    ensures var r := Handle(tb, c, m, now).1; !r.NoReply? && r.slot == i ==> r.to == k
  {
    match m
    case Discover(k1) => ChooseKeeps(tb, c, k1, now, i, k, until);
    case Request(k1, forUs, octet) =>
      if Handle(tb, c, m, now).0[i] != tb[i] {
        assert Deadline(Handle(tb, c, m, now).0[i], now + c.leaseTime);
      }
    case Decline(k1, requested) =>
      var tb1 := DoDecline(tb, c, k1, requested, now);
      assert tb1[i] == tb[i];
      assert Held(tb1, c, i, k, now, until) by {
        var d: nat :| Deadline(tb[i], d) && until <= d <= now + c.leaseTime;
        assert Deadline(tb1[i], d);
      }
      ChooseKeeps(tb1, c, k1, now, i, k, until);
    case Release(k1, octet) =>
      var tb1 := DoRelease(tb, c, k1, octet);
      assert tb1[i] == tb[i];
      var d: nat :| Deadline(tb[i], d) && until <= d <= now + c.leaseTime;
      assert Deadline(tb1[i], d);
  }

  // ---- whole runs ----

  datatype Event = Event(now: nat, msg: Msg)

  function After(tb: Table, c: Cfg, evs: seq<Event>): (r: Table)
    requires TableOk(tb)
    ensures TableOk(r) && |r| == |tb|
    decreases |evs|
  {
    if evs == [] then tb else After(Handle(tb, c, evs[0].msg, evs[0].now).0, c, evs[1..])
  }

  /** The reply to the j-th message of a run. */
  function ReplyAt(tb: Table, c: Cfg, evs: seq<Event>, j: nat): Reply
    requires TableOk(tb) && j < |evs|
  {
    Handle(After(tb, c, evs[..j]), c, evs[j].msg, evs[j].now).1
  }

  predicate Clocked(t: nat, evs: seq<Event>) {
    (evs != [] ==> t <= evs[0].now) && forall i, j :: 0 <= i < j < |evs| ==> evs[i].now <= evs[j].now
  }

  lemma {:induction false} HeldThroughout(tb: Table, c: Cfg, evs: seq<Event>, t: nat, i: nat, k: seq<byte>, until: nat)
    requires TableOk(tb) && Held(tb, c, i, k, t, until) && c.leaseTime <= I32 && Clocked(t, evs)
    requires forall j :: 0 <= j < |evs| ==> evs[j].now < until && !GivesUp(tb, c, evs[j].msg, i, k)
    ensures forall j :: 0 <= j < |evs| && !ReplyAt(tb, c, evs, j).NoReply? && ReplyAt(tb, c, evs, j).slot == i ==>
                          ReplyAt(tb, c, evs, j).to == k
    decreases |evs|
  {
    if evs != [] {
      var e, tb1 := evs[0], Handle(tb, c, evs[0].msg, evs[0].now).0;
      LaterStillHeld(tb, c, i, k, t, e.now, until);
      HandleKeeps(tb, c, e.msg, e.now, i, k, until);
      HeldThroughout(tb1, c, evs[1..], e.now, i, k, until);
      assert evs[..0] == [];
      forall j | 0 <= j < |evs| && !ReplyAt(tb, c, evs, j).NoReply? && ReplyAt(tb, c, evs, j).slot == i
        ensures ReplyAt(tb, c, evs, j).to == k
      {
        if j > 0 {
          assert evs[..j][1..] == evs[1..][..j - 1];
          assert ReplyAt(tb, c, evs, j) == ReplyAt(tb1, c, evs[1..], j - 1);
        }
      }
    }
  }

  /** Lease exclusivity: once an ACK at time t binds slot i to key k, no message
      of any client before t plus the lease time gets that slot offered or
      confirmed to another key, unless k itself declines or releases it. */
  lemma LeaseExclusive(tb: Table, c: Cfg, m: Msg, t: nat, i: nat, k: seq<byte>, evs: seq<Event>)
    requires TableOk(tb) && Handle(tb, c, m, t).1 == Ack(i, k) && c.leaseTime <= I32 && Clocked(t, evs)
    requires forall j :: 0 <= j < |evs| ==> evs[j].now < t + c.leaseTime && !GivesUp(tb, c, evs[j].msg, i, k)
    ensures var tb1 := Handle(tb, c, m, t).0;
            forall j :: 0 <= j < |evs| && !ReplyAt(tb1, c, evs, j).NoReply? && ReplyAt(tb1, c, evs, j).slot == i ==>
                          ReplyAt(tb1, c, evs, j).to == k
  {
    AckHolds(tb, c, m, t, i, k);
    HeldThroughout(Handle(tb, c, m, t).0, c, evs, t, i, k, t + c.leaseTime);
  }

  /** The bound on the lease time is exact: a longer one is read as expired at
      the very second of its ACK. */
  lemma LeaseTimeLimit(tb: Table, c: Cfg, m: Msg, t: nat, i: nat, k: seq<byte>)
    requires TableOk(tb) && Handle(tb, c, m, t).1 == Ack(i, k) && 0 < c.leaseTime < U32
    ensures Alive(Handle(tb, c, m, t).0[i], t) <==> c.leaseTime <= I32
  {
    AliveUntil(Handle(tb, c, m, t).0[i], t, t + c.leaseTime);
  }

  // ---- one slot per key ----

  ghost predicate UniqueKeys(tb: Table) {
    forall i, j, k {:trigger HasKey(tb[i], k), HasKey(tb[j], k)} ::
      (0 <= i < |tb| && 0 <= j < |tb| && k != [] && HasKey(tb[i], k) && HasKey(tb[j], k)
       && tb[i].state != DECLINED && tb[j].state != DECLINED) ==> i == j
  }

  /** Another slot already stands for key k. */
  ghost predicate Elsewhere(tb: Table, i: nat, k: seq<byte>) {
    exists j :: 0 <= j < |tb| && j != i && HasKey(tb[j], k) && tb[j].state != DECLINED
  }

  lemma ChooseUnique(tb: Table, c: Cfg, k: seq<byte>, now: nat)
    requires TableOk(tb) && UniqueKeys(tb)
    ensures UniqueKeys(Choose(tb, c, k, now).0)
  {
    var tb1 := Choose(tb, c, k, now).0;
    if k != [] && |k| <= KEY_CAP {
      match FindKey(tb, k, 0)
      case Some(i) => assert forall j, x :: 0 <= j < |tb| ==> (HasKey(tb1[j], x) <==> HasKey(tb[j], x));
      case None =>
        match FindFree(tb, now, 0)
        case Some(i) =>
          assert HasKey(tb1[i], k);
          forall a, b, x | 0 <= a < |tb| && 0 <= b < |tb| && x != [] && HasKey(tb1[a], x) && HasKey(tb1[b], x)
              && tb1[a].state != DECLINED && tb1[b].state != DECLINED
            ensures a == b
          {
            if a == i || b == i {
              KeyIs(tb1[i], x, k);
            } else {
              assert HasKey(tb[a], x) && HasKey(tb[b], x);
            }
          }
        case None =>
    }
  }

  /** Reviving slot i keeps keys unique exactly when it was not quarantined, or no
      other slot has taken its key meanwhile. */
  lemma ReviveUnique(tb: Table, i: nat, s: Slot, k: seq<byte>)
    requires UniqueKeys(tb) && i < |tb| && k != [] && HasKey(tb[i], k)
    requires s.key == tb[i].key && s.keyLen == tb[i].keyLen && s.state != DECLINED
    ensures UniqueKeys(tb[i := s]) <==> tb[i].state != DECLINED || !Elsewhere(tb, i, k)
  {
    var tb1 := tb[i := s];
    assert forall j, x :: 0 <= j < |tb| ==> (HasKey(tb1[j], x) <==> HasKey(tb[j], x));
    if tb[i].state == DECLINED && Elsewhere(tb, i, k) {
      var j :| 0 <= j < |tb| && j != i && HasKey(tb[j], k) && tb[j].state != DECLINED;
      assert HasKey(tb1[i], k) && HasKey(tb1[j], k);
    } else {
      forall a, b, x | 0 <= a < |tb| && 0 <= b < |tb| && x != [] && HasKey(tb1[a], x) && HasKey(tb1[b], x)
          && tb1[a].state != DECLINED && tb1[b].state != DECLINED
        ensures a == b
      {
        assert HasKey(tb[a], x) && HasKey(tb[b], x);
        if a == i {
          KeyIs(tb[i], x, k);
        }
        if b == i {
          KeyIs(tb[i], x, k);
        }
      }
    }
  }

  /** The message revives a quarantined slot whose key stands elsewhere by now. */
  ghost predicate Collides(tb: Table, c: Cfg, m: Msg, now: nat) {
    match m
    case Request(k, forUs, octet) =>
      forUs && SlotOf(tb, c, octet).Some? && Alive(tb[SlotOf(tb, c, octet).value], now)
      && Revives(tb, SlotOf(tb, c, octet).value, k)
    case Release(k, octet) => SlotOf(tb, c, octet).Some? && Revives(tb, SlotOf(tb, c, octet).value, k)
    case _ => false
  }

  ghost predicate Revives(tb: Table, i: nat, k: seq<byte>)
    requires i < |tb|
  {
    k != [] && HasKey(tb[i], k) && tb[i].state == DECLINED && Elsewhere(tb, i, k)
  }

  lemma RestateUnique(tb: Table, i: nat, s: Slot)
    requires UniqueKeys(tb) && i < |tb| && s.key == tb[i].key && s.keyLen == tb[i].keyLen
    requires s.state == DECLINED || tb[i].state != DECLINED
    ensures UniqueKeys(tb[i := s])
  {
    var tb1 := tb[i := s];
    forall a, b, x | 0 <= a < |tb| && 0 <= b < |tb| && x != [] && HasKey(tb1[a], x) && HasKey(tb1[b], x)
        && tb1[a].state != DECLINED && tb1[b].state != DECLINED
      ensures a == b
    {
      assert HasKey(tb[a], x) && HasKey(tb[b], x);
    }
  }

  /** A slot rewritten for its own key, or for the empty one. */
  lemma RewriteUnique(tb: Table, i: nat, s: Slot, k: seq<byte>)
    requires UniqueKeys(tb) && i < |tb| && HasKey(tb[i], k)
    requires s.key == tb[i].key && s.keyLen == tb[i].keyLen && s.state != DECLINED
    ensures UniqueKeys(tb[i := s]) <==> !Revives(tb, i, k)
  {
    if k != [] {
      ReviveUnique(tb, i, s, k);
    } else {
      var tb1 := tb[i := s];
      forall a, b, x | 0 <= a < |tb| && 0 <= b < |tb| && x != [] && HasKey(tb1[a], x) && HasKey(tb1[b], x)
          && tb1[a].state != DECLINED && tb1[b].state != DECLINED
        ensures a == b
      {
        assert HasKey(tb[a], x) && HasKey(tb[b], x);
      }
    }
  }

  /** One message keeps keys unique if and only if it is not such a revival. */
  lemma HandleUnique(tb: Table, c: Cfg, m: Msg, now: nat)
    requires TableOk(tb) && UniqueKeys(tb)
    ensures UniqueKeys(Handle(tb, c, m, now).0) <==> !Collides(tb, c, m, now)
  {
    match m
    case Discover(k) => ChooseUnique(tb, c, k, now);
    case Request(k, forUs, octet) =>
      if forUs && SlotOf(tb, c, octet).Some? {
        var i := SlotOf(tb, c, octet).value;
        if Alive(tb[i], now) && HasKey(tb[i], k) {
          RewriteUnique(tb, i, tb[i].(state := BOUND, expires := (now + c.leaseTime) % U32), k);
        }
      }
    case Decline(k, requested) =>
      if requested.Some? && SlotOf(tb, c, requested.value).Some? {
        var i := SlotOf(tb, c, requested.value).value;
        RestateUnique(tb, i, tb[i].(state := DECLINED, expires := (now + 300) % U32));
      }
      ChooseUnique(DoDecline(tb, c, k, requested, now), c, k, now);
    case Release(k, octet) =>
      if SlotOf(tb, c, octet).Some? {
        var i := SlotOf(tb, c, octet).value;
        if HasKey(tb[i], k) {
          RewriteUnique(tb, i, tb[i].(state := FREE, expires := 0), k);
        }
      }
  }

  ghost predicate NoneCollides(tb: Table, c: Cfg, evs: seq<Event>)
    requires TableOk(tb)
    decreases |evs|
  {
    evs == [] || (!Collides(tb, c, evs[0].msg, evs[0].now)
                  && NoneCollides(Handle(tb, c, evs[0].msg, evs[0].now).0, c, evs[1..]))
  }

  ghost predicate AlwaysUnique(tb: Table, c: Cfg, evs: seq<Event>)
    requires TableOk(tb)
    decreases |evs|
  {
    UniqueKeys(tb) && (evs == [] || AlwaysUnique(Handle(tb, c, evs[0].msg, evs[0].now).0, c, evs[1..]))
  }

  /** Over every run: at most one slot outside quarantine carries any given key,
      after every message, if and only if no message is such a revival. */
  lemma {:induction false} RunUnique(tb: Table, c: Cfg, evs: seq<Event>)
    requires TableOk(tb) && UniqueKeys(tb)
    ensures AlwaysUnique(tb, c, evs) <==> NoneCollides(tb, c, evs)
    ensures NoneCollides(tb, c, evs) ==> UniqueKeys(After(tb, c, evs))
    decreases |evs|
  {
    if evs != [] {
      var tb1 := Handle(tb, c, evs[0].msg, evs[0].now).0;
      HandleUnique(tb, c, evs[0].msg, evs[0].now);
      if UniqueKeys(tb1) {
        RunUnique(tb1, c, evs[1..]);
      }
    }
  }

  /** It does happen: a client takes an address, declines it, is offered the next
      one, and then requests the first after all. */
  lemma RevivedTwice(tb: Table, c: Cfg, k: seq<byte>, evs: seq<Event>)
    requires |tb| == 2 && TableOk(tb) && tb[0].state == FREE && tb[1].state == FREE && tb[0].keyLen == 0
    requires tb[1].keyLen == 0
    requires 0 < |k| <= KEY_CAP && c.first == 10
    requires evs == [Event(0, Discover(k)), Event(1, Decline(k, Some(10))), Event(2, Request(k, true, 10))]
    ensures UniqueKeys(tb) && ReplyAt(tb, c, evs, 0) == Offer(0, k) && ReplyAt(tb, c, evs, 1) == Offer(1, k)
    ensures ReplyAt(tb, c, evs, 2) == Ack(0, k)
    ensures var r := After(tb, c, evs);
            HasKey(r[0], k) && HasKey(r[1], k) && r[0].state == BOUND && r[1].state == OFFERED
  {
    First(tb, c, evs);
    FirstTwo(tb, c, k);
    var tb1, tb2 := Past(tb, c, evs, 0), Past(tb, c, evs, 1);
    AfterNext(tb, c, evs, 0);
    assert tb2 == [Slot(DECLINED, SetKey(tb[0].key, k), |k|, 301), Slot(OFFERED, SetKey(tb[1].key, k), |k|, 61)];
    AfterNext(tb, c, evs, 1);
    ThenRequest(tb2, c, k);
    AfterNext(tb, c, evs, 2);
    assert evs[..3] == evs;
  }

  lemma ThenRequest(tb: Table, c: Cfg, k: seq<byte>)
    requires |tb| == 2 && TableOk(tb) && HasKey(tb[0], k) && tb[0].state == DECLINED && tb[0].expires == 301
    requires c.first == 10
    ensures Handle(tb, c, Request(k, true, 10), 2)
            == (tb[0 := tb[0].(state := BOUND, expires := (2 + c.leaseTime) % U32)], Ack(0, k))
  {
    assert Alive(tb[0], 2) && SlotOf(tb, c, 10) == Some(0);
  }

  lemma FirstTwo(tb: Table, c: Cfg, k: seq<byte>)
    requires |tb| == 2 && TableOk(tb) && tb[0].state == FREE && tb[1].state == FREE && tb[0].keyLen == 0
    requires tb[1].keyLen == 0
    requires 0 < |k| <= KEY_CAP && c.first == 10
    ensures Handle(tb, c, Discover(k), 0) == (tb[0 := Slot(OFFERED, SetKey(tb[0].key, k), |k|, 60)], Offer(0, k))
    ensures var s := Slot(DECLINED, SetKey(tb[0].key, k), |k|, 301);
            Handle(Handle(tb, c, Discover(k), 0).0, c, Decline(k, Some(10)), 1)
            == ([s, Slot(OFFERED, SetKey(tb[1].key, k), |k|, 61)], Offer(1, k))
  {
    assert FindKey(tb, k, 0).None? && FindFree(tb, 0, 0) == Some(0);
    var tb1 := tb[0 := Slot(OFFERED, SetKey(tb[0].key, k), |k|, 60)];
    assert HasKey(tb1[0], k) && SlotOf(tb1, c, 10) == Some(0);
    var tb2 := DoDecline(tb1, c, k, Some(10), 1);
    assert tb2[0] == Slot(DECLINED, SetKey(tb[0].key, k), |k|, 301) && tb2[1] == tb[1];
    assert FindKey(tb2, k, 0).None? && Alive(tb2[0], 1) && FindFree(tb2, 1, 0) == Some(1);
    assert tb2[1 := Slot(OFFERED, SetKey(tb[1].key, k), |k|, 61)]
           == [tb2[0], Slot(OFFERED, SetKey(tb[1].key, k), |k|, 61)];
  }

  /** While its slot stands, a key is offered that slot again. */
  lemma SameAddress(tb: Table, c: Cfg, k: seq<byte>, now: nat, i: nat)
    requires TableOk(tb) && UniqueKeys(tb) && k != [] && |k| <= KEY_CAP
    requires i < |tb| && HasKey(tb[i], k) && tb[i].state != DECLINED
    ensures Choose(tb, c, k, now).1 == Offer(i, k)
    ensures HasKey(Choose(tb, c, k, now).0[i], k) && Choose(tb, c, k, now).0[i].state == tb[i].state
  {
    assert FindKey(tb, k, 0).Some?;
  }

  lemma StandsAfter(tb: Table, c: Cfg, m: Msg, now: nat, i: nat, k: seq<byte>)
    requires TableOk(tb) && i < |tb| && HasKey(tb[i], k) && tb[i].state != DECLINED && Alive(tb[i], now)
    requires !GivesUp(tb, c, m, i, k)
    ensures HasKey(Handle(tb, c, m, now).0[i], k) && Handle(tb, c, m, now).0[i].state != DECLINED
  {
    match m
    case Discover(k1) =>
    case Request(k1, forUs, octet) =>
    case Decline(k1, requested) => assert DoDecline(tb, c, k1, requested, now)[i] == tb[i];
    case Release(k1, octet) => assert DoRelease(tb, c, k1, octet)[i] == tb[i];
  }

  /** Address stability: as long as its slot is alive at every message and it does
      not give the slot up, every DISCOVER of key k is offered that one slot. */
  lemma {:induction false} AddressStable(tb: Table, c: Cfg, evs: seq<Event>, i: nat, k: seq<byte>)
    requires TableOk(tb) && UniqueKeys(tb) && NoneCollides(tb, c, evs) && k != [] && |k| <= KEY_CAP
    requires i < |tb| && HasKey(tb[i], k) && tb[i].state != DECLINED
    requires forall j :: 0 <= j < |evs| ==>
               Alive(After(tb, c, evs[..j])[i], evs[j].now) && !GivesUp(tb, c, evs[j].msg, i, k)
    ensures forall j :: 0 <= j < |evs| && evs[j].msg == Discover(k) ==> ReplyAt(tb, c, evs, j) == Offer(i, k)
    decreases |evs|
  {
    if evs != [] {
      var e, tb1 := evs[0], Handle(tb, c, evs[0].msg, evs[0].now).0;
      assert evs[..0] == [];
      assert Alive(After(tb, c, evs[..0])[i], e.now);
      StandsAfter(tb, c, e.msg, e.now, i, k);
      HandleUnique(tb, c, e.msg, e.now);
      forall j | 0 <= j < |evs| - 1
        ensures Alive(After(tb1, c, evs[1..][..j])[i], evs[1..][j].now) && !GivesUp(tb1, c, evs[1..][j].msg, i, k)
      {
        assert evs[..j + 1][1..] == evs[1..][..j];
        assert Alive(After(tb, c, evs[..j + 1])[i], evs[j + 1].now);
      }
      AddressStable(tb1, c, evs[1..], i, k);
      forall j | 0 <= j < |evs| && evs[j].msg == Discover(k) ensures ReplyAt(tb, c, evs, j) == Offer(i, k) {
        if j == 0 {
          SameAddress(tb, c, k, e.now, i);
        } else {
          assert evs[..j][1..] == evs[1..][..j - 1] && evs[1..][j - 1] == evs[j];
          assert ReplyAt(tb1, c, evs[1..], j - 1) == Offer(i, k);
        }
      }
    }
  }

  // ---- one key per live slot ----

  /** The reply gives slot i to key k. */
  predicate Gives(r: Reply, i: nat, k: seq<byte>) {
    !r.NoReply? && r.slot == i && r.to == k
  }

  lemma GivenHasKey(tb: Table, c: Cfg, m: Msg, now: nat, i: nat, k: seq<byte>)
    requires TableOk(tb) && Gives(Handle(tb, c, m, now).1, i, k)
    ensures i < |tb| && HasKey(Handle(tb, c, m, now).0[i], k)
  {
    match m
    case Discover(k1) => ChosenHasKey(tb, c, k1, now);
    case Request(_, _, _) =>
    case Decline(k1, requested) => ChosenHasKey(DoDecline(tb, c, k1, requested, now), c, k1, now);
    case Release(_, _) =>
  }

  lemma ChosenHasKey(tb: Table, c: Cfg, k: seq<byte>, now: nat)
    requires TableOk(tb) && Choose(tb, c, k, now).1.Offer?
    ensures var r := Choose(tb, c, k, now); r.1.slot < |tb| && r.1.to == k && HasKey(r.0[r.1.slot], k)
  {
  }

  /** A live slot is given to nobody but the key it carries. */
  lemma LiveNotGiven(tb: Table, c: Cfg, m: Msg, now: nat, i: nat, k1: seq<byte>, k2: seq<byte>)
    requires TableOk(tb) && i < |tb| && HasKey(tb[i], k1) && Alive(tb[i], now) && k1 != k2
    ensures !Gives(Handle(tb, c, m, now).1, i, k2)
  {
    match m
    case Discover(k) =>
    case Request(_, _, _) =>
    case Decline(k, requested) =>
      if k == k2 {
        OtherKey(tb[i], k1, k2);
        assert DoDecline(tb, c, k, requested, now)[i] == tb[i];
      }
    case Release(_, _) =>
  }

  /** A live slot keeps its key unless that key gives it up. */
  lemma KeyStays(tb: Table, c: Cfg, m: Msg, now: nat, i: nat, k: seq<byte>)
    requires TableOk(tb) && i < |tb| && HasKey(tb[i], k) && Alive(tb[i], now) && !GivesUp(tb, c, m, i, k)
    ensures HasKey(Handle(tb, c, m, now).0[i], k)
  {
    match m
    case Discover(k1) =>
    case Request(k1, forUs, octet) =>
    case Decline(k1, requested) => assert DoDecline(tb, c, k1, requested, now)[i] == tb[i];
    case Release(k1, octet) => assert DoRelease(tb, c, k1, octet)[i] == tb[i];
  }

  /** Slot i is alive when each of the messages a to b comes in. */
  ghost predicate LiveAt(tb: Table, c: Cfg, evs: seq<Event>, i: nat, a: nat, b: nat)
    requires TableOk(tb) && b < |evs| && i < |tb|
  {
    forall x {:trigger evs[x]} :: a <= x <= b ==> Alive(After(tb, c, evs[..x])[i], evs[x].now)
  }

  /** Key k gives slot i up in none of the messages a to b. */
  ghost predicate Keeps(tb: Table, c: Cfg, evs: seq<Event>, i: nat, k: seq<byte>, a: nat, b: nat)
    requires b <= |evs|
  {
    forall x {:trigger evs[x]} :: a <= x < b ==> !GivesUp(tb, c, evs[x].msg, i, k)
  }

  lemma KeepsRest(tb: Table, tb1: Table, c: Cfg, evs: seq<Event>, i: nat, k: seq<byte>, a: nat, b: nat)
    requires |tb1| == |tb| && a < b <= |evs| && Keeps(tb, c, evs, i, k, a + 1, b)
    ensures Keeps(tb1, c, evs[a + 1..], i, k, 0, b - a - 1)
  {
    var rest := evs[a + 1..];
    assert forall x {:trigger rest[x]} :: 0 <= x < |rest| ==> rest[x] == evs[a + 1 + x];
  }

  lemma LiveFirst(tb: Table, c: Cfg, evs: seq<Event>, i: nat, k1: seq<byte>, k2: seq<byte>)
    requires TableOk(tb) && i < |tb| && HasKey(tb[i], k1) && evs != [] && k1 != k2 && Alive(tb[i], evs[0].now)
    ensures !Gives(ReplyAt(tb, c, evs, 0), i, k2)
    ensures !GivesUp(tb, c, evs[0].msg, i, k1) ==> HasKey(Past(tb, c, evs, 0)[i], k1)
  {
    First(tb, c, evs);
    LiveNotGiven(tb, c, evs[0].msg, evs[0].now, i, k1, k2);
    if !GivesUp(tb, c, evs[0].msg, i, k1) {
      KeyStays(tb, c, evs[0].msg, evs[0].now, i, k1);
    }
  }

  /** While slot i, carrying k1, is alive at each message and k1 does not give it
      up, no reply gives it to another key. */
  lemma {:induction false} LiveThroughout(tb: Table, c: Cfg, evs: seq<Event>, i: nat, k1: seq<byte>,
                                          j: nat, k2: seq<byte>)
    requires TableOk(tb) && i < |tb| && HasKey(tb[i], k1) && j < |evs| && k1 != k2
    requires LiveAt(tb, c, evs, i, 0, j) && Keeps(tb, c, evs, i, k1, 0, j)
    ensures !Gives(ReplyAt(tb, c, evs, j), i, k2)
    decreases |evs|
  {
    First(tb, c, evs);
    assert Alive(After(tb, c, evs[..0])[i], evs[0].now);
    LiveFirst(tb, c, evs, i, k1, k2);
    if j > 0 {
      LiveRest(tb, c, evs, i, 0, j);
      KeepsRest(tb, Past(tb, c, evs, 0), c, evs, i, k1, 0, j);
      LiveThroughout(Past(tb, c, evs, 0), c, evs[1..], i, k1, j - 1, k2);
      ReplyRest(tb, c, evs, 0, j);
    }
  }

  /** Distinct keys get distinct addresses: over every run, once a reply has given
      slot i to key k1, and as long as the slot is alive at each later message and
      k1 does not give it up, no later reply gives it to another key. */
  lemma DistinctAddresses(tb: Table, c: Cfg, evs: seq<Event>, j1: nat, j2: nat, i: nat, k1: seq<byte>, k2: seq<byte>)
    requires TableOk(tb) && j1 < j2 < |evs| && k1 != k2 && Gives(ReplyAt(tb, c, evs, j1), i, k1)
    requires i < |tb| ==> LiveAt(tb, c, evs, i, j1 + 1, j2)
    requires Keeps(tb, c, evs, i, k1, j1 + 1, j2)
    ensures !Gives(ReplyAt(tb, c, evs, j2), i, k2)
  {
    var tb0 := After(tb, c, evs[..j1]);
    GivenHasKey(tb0, c, evs[j1].msg, evs[j1].now, i, k1);
    LiveRest(tb, c, evs, i, j1, j2);
    KeepsRest(tb, Past(tb, c, evs, j1), c, evs, i, k1, j1, j2);
    LiveThroughout(Past(tb, c, evs, j1), c, evs[j1 + 1..], i, k1, j2 - j1 - 1, k2);
    ReplyRest(tb, c, evs, j1, j2);
  }

  /** The table after the j-th message. */
  function Past(tb: Table, c: Cfg, evs: seq<Event>, j: nat): (r: Table)
    requires TableOk(tb) && j < |evs|
    ensures TableOk(r) && |r| == |tb|
  {
    Handle(After(tb, c, evs[..j]), c, evs[j].msg, evs[j].now).0
  }

  lemma First(tb: Table, c: Cfg, evs: seq<Event>)
    requires TableOk(tb) && evs != []
    ensures After(tb, c, evs[..0]) == tb
    ensures (Past(tb, c, evs, 0), ReplyAt(tb, c, evs, 0)) == Handle(tb, c, evs[0].msg, evs[0].now)
  {
    assert evs[..0] == [];
  }

  lemma LiveRest(tb: Table, c: Cfg, evs: seq<Event>, i: nat, j1: nat, j2: nat)
    requires TableOk(tb) && j1 < j2 < |evs| && i < |tb| && LiveAt(tb, c, evs, i, j1 + 1, j2)
    ensures LiveAt(Past(tb, c, evs, j1), c, evs[j1 + 1..], i, 0, j2 - j1 - 1)
  {
    var rest := evs[j1 + 1..];
    forall x {:trigger rest[x]} | 0 <= x <= j2 - j1 - 1
      ensures Alive(After(Past(tb, c, evs, j1), c, rest[..x])[i], rest[x].now)
    {
      AfterRest(tb, c, evs, j1, x);
      assert Alive(After(tb, c, evs[..j1 + 1 + x])[i], evs[j1 + 1 + x].now);
    }
  }

  lemma ReplyRest(tb: Table, c: Cfg, evs: seq<Event>, j1: nat, j2: nat)
    requires TableOk(tb) && j1 < j2 < |evs|
    ensures ReplyAt(Past(tb, c, evs, j1), c, evs[j1 + 1..], j2 - j1 - 1) == ReplyAt(tb, c, evs, j2)
  {
    AfterRest(tb, c, evs, j1, j2 - j1 - 1);
  }

  /** The run from its j-th message on. */
  lemma AfterRest(tb: Table, c: Cfg, evs: seq<Event>, j: nat, x: nat)
    requires TableOk(tb) && j + 1 + x <= |evs|
    ensures After(Past(tb, c, evs, j), c, evs[j + 1..][..x]) == After(tb, c, evs[..j + 1 + x])
  {
    AfterNext(tb, c, evs, j);
    assert evs[..j + 1 + x] == evs[..j + 1] + evs[j + 1..][..x];
    AfterConcat(tb, c, evs[..j + 1], evs[j + 1..][..x]);
  }

  lemma {:induction false} AfterConcat(tb: Table, c: Cfg, a: seq<Event>, b: seq<Event>)
    requires TableOk(tb)
    ensures After(tb, c, a + b) == After(After(tb, c, a), c, b)
    decreases |a|
  {
    if a == [] {
      assert a + b == b;
    } else {
      assert (a + b)[1..] == a[1..] + b;
      AfterConcat(Handle(tb, c, a[0].msg, a[0].now).0, c, a[1..], b);
    }
  }

  lemma AfterNext(tb: Table, c: Cfg, evs: seq<Event>, j: nat)
    requires TableOk(tb) && j < |evs|
    ensures After(tb, c, evs[..j + 1]) == Past(tb, c, evs, j)
  {
    assert evs[..j + 1] == evs[..j] + [evs[j]];
    AfterConcat(tb, c, evs[..j], [evs[j]]);
    assert [evs[j]][1..] == [];
  }

  /** Released slots are matched by key but stay free. Two keys that ask one right
      after the other are offered the same slot if and only if the first key's
      slot was released, the second key has none, and no slot before it is free. */
  lemma OfferedTwice(tb: Table, c: Cfg, k1: seq<byte>, k2: seq<byte>, now: nat)
    requires TableOk(tb) && 0 < |k1| <= KEY_CAP && 0 < |k2| <= KEY_CAP && k1 != k2 && 0 < c.leaseTime <= I32
    ensures var (tb1, r1) := Choose(tb, c, k1, now);
            var r2 := Choose(tb1, c, k2, now).1;
            (r1.Offer? && r2.Offer? && r1.slot == r2.slot) <==>
            (FindKey(tb, k2, 0).None? && FindKey(tb, k1, 0).Some?
             && var i := FindKey(tb, k1, 0).value;
                tb[i].state == FREE && forall j :: 0 <= j < i ==> Alive(tb[j], now))
  {
    match FindKey(tb, k1, 0)
    case Some(i) => KnownTwice(tb, c, i, k1, k2, now);
    case None =>
      if FindFree(tb, now, 0).Some? {
        NewAlive(tb, c, FindFree(tb, now, 0).value, k1, now);
        LiveNotGiven(Choose(tb, c, k1, now).0, c, Discover(k2), now, FindFree(tb, now, 0).value, k1, k2);
      }
  }

  lemma NewAlive(tb: Table, c: Cfg, i: nat, k: seq<byte>, now: nat)
    requires TableOk(tb) && 0 < |k| <= KEY_CAP && FindKey(tb, k, 0).None? && FindFree(tb, now, 0) == Some(i)
    ensures var r := Choose(tb, c, k, now); HasKey(r.0[i], k) && Alive(r.0[i], now) && r.1 == Offer(i, k)
  {
    AliveFor(Slot(OFFERED, SetKey(tb[i].key, k), |k|, 0), now, 60);
  }

  /** When a key is offered slot i. */
  lemma OfferWhen(tb: Table, c: Cfg, k: seq<byte>, now: nat, i: nat)
    requires TableOk(tb) && 0 < |k| <= KEY_CAP
    ensures var r := Choose(tb, c, k, now).1;
            (r.Offer? && r.slot == i) <==>
            FindKey(tb, k, 0) == Some(i) || (FindKey(tb, k, 0).None? && FindFree(tb, now, 0) == Some(i))
  {
  }

  lemma KnownTwice(tb: Table, c: Cfg, i: nat, k1: seq<byte>, k2: seq<byte>, now: nat)
    requires TableOk(tb) && 0 < |k1| <= KEY_CAP && 0 < |k2| <= KEY_CAP && k1 != k2 && 0 < c.leaseTime <= I32
    requires FindKey(tb, k1, 0) == Some(i)
    ensures var (tb1, r1) := Choose(tb, c, k1, now);
            var r2 := Choose(tb1, c, k2, now).1;
            r1 == Offer(i, k1)
            && ((r2.Offer? && r2.slot == i) <==>
                FindKey(tb, k2, 0).None? && tb[i].state == FREE && forall j :: 0 <= j < i ==> Alive(tb[j], now))
  {
    var tb1 := Choose(tb, c, k1, now).0;
    if tb[i].state == FREE {
      FreeTwice(tb, tb1, i, k1, k2, now);
      OfferWhen(tb1, c, k2, now, i);
    } else {
      RenewedAlive(tb, c, i, k1, now);
      LiveNotGiven(tb1, c, Discover(k2), now, i, k1, k2);
    }
  }

  lemma RenewedAlive(tb: Table, c: Cfg, i: nat, k: seq<byte>, now: nat)
    requires TableOk(tb) && 0 < |k| <= KEY_CAP && 0 < c.leaseTime <= I32
    requires FindKey(tb, k, 0) == Some(i) && tb[i].state != FREE
    ensures var tb1 := Choose(tb, c, k, now).0; HasKey(tb1[i], k) && Alive(tb1[i], now)
  {
    AliveFor(tb[i], now, c.leaseTime);
  }

  lemma AliveFor(s: Slot, now: nat, n: nat)
    requires s.state != FREE && 0 < n <= I32
    ensures Alive(s.(expires := (now + n) % U32), now)
  {
    AliveUntil(s.(expires := (now + n) % U32), now, now + n);
  }

  lemma FreeTwice(tb: Table, tb1: Table, i: nat, k1: seq<byte>, k2: seq<byte>, now: nat)
    requires i < |tb| && |tb1| == |tb| && tb1 == tb[i := tb[i].(expires := tb1[i].expires)]
    requires tb[i].state == FREE && HasKey(tb[i], k1) && k1 != k2
    ensures FindKey(tb1, k2, 0) != Some(i) && FindKey(tb1, k2, 0).None? == FindKey(tb, k2, 0).None?
    ensures FindFree(tb1, now, 0) == Some(i) <==> forall j :: 0 <= j < i ==> Alive(tb[j], now)
  {
    SameFind(tb, tb1, i, k2, 0);
    OtherKey(tb[i], k1, k2);
    assert !Alive(tb1[i], now);
    assert forall j :: 0 <= j < i ==> tb1[j] == tb[j];
  }

  lemma {:induction false} SameFind(tb: Table, tb1: Table, i: nat, k: seq<byte>, j: nat)
    requires i < |tb| && |tb1| == |tb| && j <= |tb| && tb1 == tb[i := tb[i].(expires := tb1[i].expires)]
    ensures FindKey(tb1, k, j) == FindKey(tb, k, j)
    decreases |tb| - j
  {
    if j < |tb| {
      SameFind(tb, tb1, i, k, j + 1);
    }
  }

  /** With the lease time out of range a lease is not exclusive: right after its
      ACK the slot of a one-slot pool is offered to the next key that asks. */
  lemma TooLongNotExclusive(tb: Table, c: Cfg, m: Msg, t: nat, k: seq<byte>, k2: seq<byte>)
    requires TableOk(tb) && |tb| == 1 && Handle(tb, c, m, t).1 == Ack(0, k) && k2 != k && 0 < |k2| <= KEY_CAP
    requires I32 < c.leaseTime < U32
    ensures Handle(Handle(tb, c, m, t).0, c, Discover(k2), t).1 == Offer(0, k2)
  {
    var tb1 := Handle(tb, c, m, t).0;
    LeaseTimeLimit(tb, c, m, t, 0, k);
    OtherKey(tb1[0], k, k2);
  }
}
