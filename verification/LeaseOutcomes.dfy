/** What each DHCP message does: when it is answered, what the answer leaves in the
    table, and that a lease renewed in time never runs out. */
module LeaseOutcomes {
  import opened Machine
  import opened Queues
  import opened Leases

  /** Only slot i differs. */
  predicate OthersSame(tb: Table, tb1: Table, i: nat) {
    |tb1| == |tb| && forall j :: 0 <= j < |tb| && j != i ==> tb1[j] == tb[j]
  }

  // ---- REQUEST ----

  /** A REQUEST is acknowledged if and only if it is for this server, its last octet
      names slot i of the pool, and that slot is alive and carries the key. */
  lemma RequestIff(tb: Table, c: Cfg, k: seq<byte>, forUs: bool, octet: byte, now: nat, i: nat)
    requires TableOk(tb)
    ensures Handle(tb, c, Request(k, forUs, octet), now).1 == Ack(i, k) <==>
            forUs && octet as int == c.first as int + i && i < |tb| && Alive(tb[i], now) && HasKey(tb[i], k)
  {
  }

  /** Then the slot is bound until the lease time from now, for its key; otherwise
      nothing changes and nothing is sent. */
  lemma RequestOutcome(tb: Table, c: Cfg, k: seq<byte>, forUs: bool, octet: byte, now: nat)
    requires TableOk(tb)
    ensures var (tb1, r) := Handle(tb, c, Request(k, forUs, octet), now);
            && (r == NoReply ==> tb1 == tb) && !r.Offer?
            && (r.Ack? ==> r.to == k && r.slot < |tb| && tb1[r.slot].state == BOUND && HasKey(tb1[r.slot], k)
                           && Deadline(tb1[r.slot], now + c.leaseTime) && OthersSame(tb, tb1, r.slot))
  {
  }

  // ---- renewal ----

  /** The message by which k renews slot i. */
  predicate Renews(c: Cfg, m: Msg, i: nat, k: seq<byte>) {
    m.Request? && m.key == k && m.forUs && m.octet as int == c.first as int + i
  }

  lemma RenewStep(tb: Table, c: Cfg, m: Msg, now: nat, i: nat, k: seq<byte>, until: nat)
    requires TableOk(tb) && Held(tb, c, i, k, now, until) && now < until && c.leaseTime <= I32 && Renews(c, m, i, k)
    ensures Handle(tb, c, m, now).1 == Ack(i, k)
    ensures Held(Handle(tb, c, m, now).0, c, i, k, now, now + c.leaseTime)
  {
    HeldAlive(tb, c, i, k, now, until);
    RequestIff(tb, c, k, m.forUs, m.octet, now, i);
    AckHolds(tb, c, m, now, i, k);
  }

  /** Until when slot i is held for k after these messages. */
  function Until(c: Cfg, evs: seq<Event>, i: nat, k: seq<byte>, until: nat): nat
    decreases |evs|
  {
    if evs == [] then until
    else Until(c, evs[1..], i, k, if Renews(c, evs[0].msg, i, k) then evs[0].now + c.leaseTime else until)
  }

  /** Every message comes in before the deadline then in force. */
  predicate InTime(c: Cfg, evs: seq<Event>, i: nat, k: seq<byte>, until: nat)
    decreases |evs|
  {
    evs == [] || (evs[0].now < until
                  && InTime(c, evs[1..], i, k, if Renews(c, evs[0].msg, i, k) then evs[0].now + c.leaseTime else until))
  }

  /** Over every run, with any messages from any clients in between: a client that
      renews before its deadline holds its slot until the renewed one. */
  lemma {:induction false} RenewedInTime(tb: Table, c: Cfg, evs: seq<Event>, t: nat, i: nat, k: seq<byte>, until: nat)
    returns (last: nat)
    requires TableOk(tb) && Held(tb, c, i, k, t, until) && c.leaseTime <= I32 && Clocked(t, evs)
    requires InTime(c, evs, i, k, until) && Keeps(tb, c, evs, i, k, 0, |evs|)
    ensures Held(After(tb, c, evs), c, i, k, last, Until(c, evs, i, k, until))
    ensures last == if evs == [] then t else evs[|evs| - 1].now
    decreases |evs|
  {
    last := t;
    if evs != [] {
      var e, tb1 := evs[0], Handle(tb, c, evs[0].msg, evs[0].now).0;
      LaterStillHeld(tb, c, i, k, t, e.now, until);
      KeepsRest(tb, tb1, c, evs, i, k, 0, |evs|);
      var until1 := if Renews(c, e.msg, i, k) then e.now + c.leaseTime else until;
      if Renews(c, e.msg, i, k) {
        RenewStep(tb, c, e.msg, e.now, i, k, until);
      } else {
        HandleKeeps(tb, c, e.msg, e.now, i, k, until);
      }
      last := RenewedInTime(tb1, c, evs[1..], e.now, i, k, until1);
    }
  }

  // ---- DISCOVER ----

  /** A DISCOVER is left unanswered if and only if its key is empty or too long, or
      unknown while every slot is alive. A known slot keeps its state and has its
      deadline set to the lease time from now; a new one is offered for a minute. */
  lemma DiscoverOutcome(tb: Table, c: Cfg, k: seq<byte>, now: nat)
    requires TableOk(tb)
    ensures var (tb1, r) := Handle(tb, c, Discover(k), now);
            && (r == NoReply <==> k == [] || |k| > 16
                                  || (forall i :: 0 <= i < |tb| ==>
                                        Alive(tb[i], now) && (!HasKey(tb[i], k) || tb[i].state == DECLINED)))
            && (r == NoReply ==> tb1 == tb) && !r.Ack?
            && (r.Offer? ==> r.to == k && r.slot < |tb| && HasKey(tb1[r.slot], k) && OthersSame(tb, tb1, r.slot)
                             && tb1[r.slot].state != DECLINED)
            && (r.Offer? && HasKey(tb[r.slot], k) && tb[r.slot].state != DECLINED ==>
                  tb1[r.slot].state == tb[r.slot].state && Deadline(tb1[r.slot], now + c.leaseTime))
            && (r.Offer? && !(HasKey(tb[r.slot], k) && tb[r.slot].state != DECLINED) ==>
                  !Alive(tb[r.slot], now) && tb1[r.slot].state == OFFERED && Deadline(tb1[r.slot], now + 60))
  {
    if k != [] && |k| <= KEY_CAP {
      match FindKey(tb, k, 0)
      case Some(i) =>
      case None => assert FindFree(tb, now, 0).None? ==> forall j :: 0 <= j < |tb| ==> Alive(tb[j], now);
    }
  }

  // ---- an offer and its request ----

  lemma {:induction false} KeyThroughout(tb: Table, c: Cfg, evs: seq<Event>, i: nat, k: seq<byte>, j: nat)
    requires TableOk(tb) && i < |tb| && HasKey(tb[i], k) && j < |evs|
    requires LiveAt(tb, c, evs, i, 0, j) && Keeps(tb, c, evs, i, k, 0, j)
    ensures HasKey(After(tb, c, evs[..j])[i], k)
    decreases |evs|
  {
    First(tb, c, evs);
    assert Alive(After(tb, c, evs[..0])[i], evs[0].now);
    if j > 0 {
      KeyStays(tb, c, evs[0].msg, evs[0].now, i, k);
      LiveRest(tb, c, evs, i, 0, j);
      KeepsRest(tb, Past(tb, c, evs, 0), c, evs, i, k, 0, j);
      KeyThroughout(Past(tb, c, evs, 0), c, evs[1..], i, k, j - 1);
      AfterRest(tb, c, evs, 0, j - 1);
    }
  }

  /** Over every run: an address offered to a client is acknowledged when the client
      requests it, as long as the slot is alive at every message in between and the
      client does not give it up. */
  lemma OfferHonoured(tb: Table, c: Cfg, evs: seq<Event>, j1: nat, j2: nat, i: nat, k: seq<byte>)
    requires TableOk(tb) && j1 < j2 < |evs| && Gives(ReplyAt(tb, c, evs, j1), i, k)
    requires i < |tb| ==> LiveAt(tb, c, evs, i, j1 + 1, j2)
    requires Keeps(tb, c, evs, i, k, j1 + 1, j2) && Renews(c, evs[j2].msg, i, k)
    ensures ReplyAt(tb, c, evs, j2) == Ack(i, k)
  {
    var tb0 := After(tb, c, evs[..j1]);
    GivenHasKey(tb0, c, evs[j1].msg, evs[j1].now, i, k);
    var tb1, rest, j := Past(tb, c, evs, j1), evs[j1 + 1..], j2 - j1 - 1;
    LiveRest(tb, c, evs, i, j1, j2);
    KeepsRest(tb, tb1, c, evs, i, k, j1, j2);
    KeyThroughout(tb1, c, rest, i, k, j);
    assert Alive(After(tb1, c, rest[..j])[i], rest[j].now);
    RequestIff(After(tb1, c, rest[..j]), c, k, rest[j].msg.forUs, rest[j].msg.octet, rest[j].now, i);
    ReplyRest(tb, c, evs, j1, j2);
  }

  /** The one offer that is not honoured: an immediate request of the address just
      offered is acknowledged if and only if the offer was not of a released slot. */
  lemma OfferHonouredIff(tb: Table, c: Cfg, k: seq<byte>, now: nat, i: nat, m: Msg)
    requires TableOk(tb) && Choose(tb, c, k, now).1 == Offer(i, k) && Renews(c, m, i, k) && 0 < c.leaseTime <= I32
    ensures Handle(Choose(tb, c, k, now).0, c, m, now).1 == Ack(i, k) <==>
            !(HasKey(tb[i], k) && tb[i].state == FREE && FindKey(tb, k, 0) == Some(i))
  {
    var tb1 := Choose(tb, c, k, now).0;
    ChosenHasKey(tb, c, k, now);
    RequestIff(tb1, c, k, m.forUs, m.octet, now, i);
    if FindKey(tb, k, 0) == Some(i) {
      if tb[i].state != FREE {
        RenewedAlive(tb, c, i, k, now);
      }
    } else {
      NewAlive(tb, c, i, k, now);
    }
  }

  // ---- DECLINE and RELEASE ----

  /** A DECLINE quarantines the slot its address names, for five minutes, if and only
      if that slot carries the key, and changes nothing else before the new offer. */
  lemma DeclineOutcome(tb: Table, c: Cfg, k: seq<byte>, requested: Option<byte>, now: nat, i: nat)
    requires TableOk(tb) && i < |tb|
    ensures var tb1 := DoDecline(tb, c, k, requested, now);
            if requested.Some? && requested.value as int == c.first as int + i && HasKey(tb[i], k) then
              tb1[i].state == DECLINED && HasKey(tb1[i], k) && Deadline(tb1[i], now + 300) && OthersSame(tb, tb1, i)
            else tb1[i] == tb[i]
  {
  }

  /** A RELEASE frees the slot its address names if and only if that slot carries the
      key, and changes nothing else; nobody answers it. */
  lemma ReleaseOutcome(tb: Table, c: Cfg, k: seq<byte>, octet: byte, now: nat, i: nat)
    requires TableOk(tb) && i < |tb|
    ensures var (tb1, r) := Handle(tb, c, Release(k, octet), now);
            && r == NoReply
            && if octet as int == c.first as int + i && HasKey(tb[i], k) then
                 tb1[i].state == FREE && !Alive(tb1[i], now) && HasKey(tb1[i], k) && OthersSame(tb, tb1, i)
               else tb1[i] == tb[i]
  {
  }

  /** Slot i is quarantined for key k until at least `until`. */
  ghost predicate Quarantined(tb: Table, i: nat, k: seq<byte>, now: nat, until: nat) {
    && i < |tb| && tb[i].state == DECLINED && HasKey(tb[i], k)
    && exists d: nat :: Deadline(tb[i], d) && until <= d <= now + 300
  }

  /** k itself asks for the quarantined slot again, or releases it. */
  predicate Recalls(tb: Table, c: Cfg, m: Msg, i: nat, k: seq<byte>) {
    m.key == k && (m.Request? || m.Release?) && SlotOf(tb, c, m.octet) == Some(i)
  }

  lemma QuarantineAlive(tb: Table, i: nat, k: seq<byte>, now: nat, until: nat)
    requires Quarantined(tb, i, k, now, until) && now < until
    ensures Alive(tb[i], now)
  {
    var d: nat :| Deadline(tb[i], d) && until <= d <= now + 300;
    AliveUntil(tb[i], now, d);
  }

  lemma ChooseQuarantined(tb: Table, c: Cfg, k1: seq<byte>, now: nat, i: nat, k: seq<byte>, until: nat)
    requires TableOk(tb) && Quarantined(tb, i, k, now, until) && now < until
    ensures Choose(tb, c, k1, now).0[i] == tb[i]
    ensures !(Choose(tb, c, k1, now).1.Offer? && Choose(tb, c, k1, now).1.slot == i)
  {
    QuarantineAlive(tb, i, k, now, until);
  }

  lemma SameQuarantine(tb: Table, tb1: Table, i: nat, k: seq<byte>, now: nat, until: nat)
    requires Quarantined(tb, i, k, now, until) && |tb1| == |tb| && tb1[i] == tb[i]
    ensures Quarantined(tb1, i, k, now, until)
  {
    var d: nat :| Deadline(tb[i], d) && until <= d <= now + 300;
    assert Deadline(tb1[i], d);
  }

  /** No message but k's own gets a quarantined slot offered or confirmed to anyone,
      k included, or out of its quarantine. */
  lemma QuarantineStep(tb: Table, c: Cfg, m: Msg, now: nat, i: nat, k: seq<byte>, until: nat)
    requires TableOk(tb) && Quarantined(tb, i, k, now, until) && now < until && !Recalls(tb, c, m, i, k)
    ensures Quarantined(Handle(tb, c, m, now).0, i, k, now, until)
    ensures var r := Handle(tb, c, m, now).1; r.NoReply? || r.slot != i
  {
    match m
    case Discover(k1) =>
      ChooseQuarantined(tb, c, k1, now, i, k, until);
      SameQuarantine(tb, Handle(tb, c, m, now).0, i, k, now, until);
    case Request(k1, forUs, octet) =>
      if k1 != k {
        OtherKey(tb[i], k, k1);
      }
      SameQuarantine(tb, Handle(tb, c, m, now).0, i, k, now, until);
    case Decline(k1, requested) =>
      var tb1 := DoDecline(tb, c, k1, requested, now);
      DeclineQuarantined(tb, c, k1, requested, now, i, k, until);
      ChooseQuarantined(tb1, c, k1, now, i, k, until);
      SameQuarantine(tb1, Handle(tb, c, m, now).0, i, k, now, until);
    case Release(k1, octet) =>
      if k1 != k {
        OtherKey(tb[i], k, k1);
      }
      SameQuarantine(tb, Handle(tb, c, m, now).0, i, k, now, until);
  }

  lemma DeclineQuarantined(tb: Table, c: Cfg, k1: seq<byte>, requested: Option<byte>, now: nat, i: nat, k: seq<byte>,
                           until: nat)
    requires TableOk(tb) && Quarantined(tb, i, k, now, until) && now < until
    ensures Quarantined(DoDecline(tb, c, k1, requested, now), i, k, now, until)
  {
    var tb1 := DoDecline(tb, c, k1, requested, now);
    DeclineOutcome(tb, c, k1, requested, now, i);
    if tb1[i] == tb[i] {
      SameQuarantine(tb, tb1, i, k, now, until);
    } else {
      KeyIs(tb[i], k, k1);
      assert Deadline(tb1[i], now + 300);
    }
  }

  lemma QuarantineLater(tb: Table, i: nat, k: seq<byte>, now: nat, later: nat, until: nat)
    requires Quarantined(tb, i, k, now, until) && now <= later
    ensures Quarantined(tb, i, k, later, until)
  {
    var d: nat :| Deadline(tb[i], d) && until <= d <= now + 300;
    assert Deadline(tb[i], d) && until <= d <= later + 300;
  }

  /** Over every run: for five minutes after its DECLINE a slot is given to nobody,
      unless the client that declined it asks for it again or releases it. */
  lemma {:induction false} QuarantineHolds(tb: Table, c: Cfg, evs: seq<Event>, t: nat, i: nat, k: seq<byte>, until: nat)
    requires TableOk(tb) && Quarantined(tb, i, k, t, until) && Clocked(t, evs)
    requires forall j :: 0 <= j < |evs| ==> evs[j].now < until && !Recalls(tb, c, evs[j].msg, i, k)
    ensures forall j :: 0 <= j < |evs| ==> ReplyAt(tb, c, evs, j).NoReply? || ReplyAt(tb, c, evs, j).slot != i
    decreases |evs|
  {
    if evs != [] {
      var e, tb1 := evs[0], Past(tb, c, evs, 0);
      First(tb, c, evs);
      QuarantineLater(tb, i, k, t, e.now, until);
      QuarantineStep(tb, c, e.msg, e.now, i, k, until);
      QuarantineHolds(tb1, c, evs[1..], e.now, i, k, until);
      forall j | 0 <= j < |evs| ensures ReplyAt(tb, c, evs, j).NoReply? || ReplyAt(tb, c, evs, j).slot != i {
        if j > 0 {
          ReplyRest(tb, c, evs, 0, j);
        }
      }
    }
  }
}
