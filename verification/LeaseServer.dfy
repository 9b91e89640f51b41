/** The DHCP server's state: the lease table in memory and its journal in flash,
    with the handlers and the boot-time load working on both in place. */
module LeaseServer {
  import opened Machine
  import opened Queues
  import opened Leases
  import opened Journal

  class Server {
    const start: seq<byte>
    const leaseTime: nat
    const crc: Crc
    var table: Table
    /** flash from the first byte of the journal sector on, past its end */
    var mem: seq<byte>
    var readPointer: nat
    var writePointer: nat
    /** the records in the journal */
    ghost var recs: seq<Rec>

    ghost predicate Formed()
      reads this
    {
      |start| == 4 && TableOk(table) && |mem| >= 4 * (SECTOR_WORDS + RECORD_WORDS)
    }

    function Config(): Cfg
      requires |start| == 4
    {
      Cfg(start[3], leaseTime)
    }

    /** The journal holds recs and is erased behind the write pointer. */
    ghost predicate JournalOk()
      reads this
    {
      Logged(mem, recs) && writePointer == HEADER_WORDS + RECORD_WORDS * |recs| && Erased(mem, writePointer)
    }

    /** Every bound lease would be bound to the same key after a power cycle. */
    ghost predicate Recorded()
      requires |start| == 4 && AllRecords(recs)
      reads this
    {
      var back := Replay(EmptyTable(|table|), start[3], recs, crc);
      forall i {:trigger back[i]} :: 0 <= i < |table| && table[i].state == BOUND ==>
        back[i].state == BOUND && back[i].key == table[i].key && back[i].keyLen == table[i].keyLen
    }

    ghost predicate Valid()
      reads this
    {
      && Formed() && JournalOk() && Recorded() && GoodRecords(recs, crc)
      && HeaderOk(Words(mem, 0, HEADER_WORDS), start, |table|)
    }

    // ---- flash ----

    /** flash_program_word */
    method ProgramWord(word: seq<byte>)
      requires |word| == 4 && 4 * (writePointer + 1) <= |mem|
      modifies this`mem, this`writePointer
      ensures mem == Program(old(mem), old(writePointer), word) && writePointer == old(writePointer) + 1
      ensures Words(mem, old(writePointer), 1) == word
      ensures forall w: nat {:trigger Words(mem, w, 1)} :: w != old(writePointer) && 4 * (w + 1) <= |mem| ==>
                Words(mem, w, 1) == Words(old(mem), w, 1)
    {
      forall w: nat {:trigger Words(mem, w, 1)} | 4 * (w + 1) <= |mem|
        ensures Words(Program(mem, writePointer, word), w, 1) == if w == writePointer then word else Words(mem, w, 1)
      {
        ProgramReads(mem, writePointer, word, w, 1);
      }
      mem := mem[..4 * writePointer] + word + mem[4 * writePointer + 4..];
      writePointer := writePointer + 1;
    }

    /** flash_append_journal */
    method Append(data: seq<byte>)
      requires |data| % 4 == 0 && 4 * writePointer + |data| <= |mem|
      modifies this`mem, this`writePointer
      ensures mem == Program(old(mem), old(writePointer), data) && writePointer == old(writePointer) + |data| / 4
    {
      ghost var m0, w0 := mem, writePointer;
      assert Program(m0, w0, data[..0]) == m0;
      for i := 0 to |data| / 4
        invariant mem == Program(m0, w0, data[..4 * i]) && writePointer == w0 + i
      {
        ProgramWord(data[4 * i..4 * i + 4]);
        ProgramMore(m0, w0, data, 4 * i);
      }
      assert data[..4 * (|data| / 4)] == data;
    }

    /** flash_program_journal: erase the sector, then append. */
    method Reprogram(data: seq<byte>)
      requires |data| % 4 == 0 && 4 * writePointer + |data| <= 4 * SECTOR_WORDS && |mem| >= 4 * SECTOR_WORDS
      modifies this`mem, this`writePointer
      ensures |mem| == |old(mem)| && writePointer == old(writePointer) + |data| / 4
      ensures mem == Program(Fill(4 * SECTOR_WORDS, 255) + old(mem)[4 * SECTOR_WORDS..], old(writePointer), data)
    {
      mem := Fill(4 * SECTOR_WORDS, 255) + mem[4 * SECTOR_WORDS..];
      Append(data);
    }

    /** flash_read_journal */
    method Read(n: nat) returns (data: seq<byte>)
      requires 4 * (readPointer + n) <= |mem|
      modifies this`readPointer
      ensures data == Words(mem, old(readPointer), n) && readPointer == old(readPointer) + n
    {
      data := [];
      for i := 0 to n
        invariant data == mem[4 * readPointer..4 * (readPointer + i)]
      {
        data := data + mem[4 * (readPointer + i)..4 * (readPointer + i) + 4];
      }
      readPointer := readPointer + n;
    }

    // ---- journal ----

    /** write_record */
    method WriteRecord(r: Rec)
      requires Formed() && JournalOk() && IsRecord(r) && writePointer + RECORD_WORDS <= SECTOR_WORDS
      modifies this`mem, this`writePointer, this`recs
      ensures Formed() && JournalOk() && recs == old(recs) + [r]
      ensures Words(mem, 0, HEADER_WORDS) == Words(old(mem), 0, HEADER_WORDS)
    {
      AppendLogged(mem, recs, r, r);
      ProgramReads(mem, writePointer, r, 0, HEADER_WORDS);
      Append(r);
      recs := recs + [r];
    }

    /** journal_compact */
    method Compact()
      requires Formed()
      modifies this`mem, this`writePointer, this`recs
      ensures Valid() && recs == CompactRecs(table, start, |table|, crc)
      ensures writePointer <= SECTOR_WORDS && HeaderOk(Words(mem, 0, HEADER_WORDS), start, |table|)
    {
      writePointer := 0;
      StartLog();
      var h := Words(mem, 0, HEADER_WORDS);
      for i := 0 to |table|
        invariant Formed() && JournalOk() && recs == CompactRecs(table, start, i, crc)
        invariant Words(mem, 0, HEADER_WORDS) == h
      {
        if table[i].state != FREE {
          var r := Serialize(table[i], AddrOf(start, i), crc);
          SerializeRoundTrip(table[i], AddrOf(start, i), crc);
          WriteRecord(r);
        }
      }
      CompactReplay(table, start, |table|, crc);
      CompactGood(table, start, |table|, crc);
    }

    /** The erased sector with a fresh header and no records. */
    method StartLog()
      requires Formed() && writePointer == 0
      modifies this`mem, this`writePointer, this`recs
      ensures Formed() && JournalOk() && recs == [] && HeaderOk(Words(mem, 0, HEADER_WORDS), start, |table|)
    {
      ghost var blank := Fill(4 * SECTOR_WORDS, 255) + mem[4 * SECTOR_WORDS..];
      var h := Header(start, |table|, crc);
      Reprogram(h);
      recs := [];
      ProgramReads(blank, 0, h, 0, HEADER_WORDS);
      HeaderReads(start, |table|, crc);
      assert forall j {:trigger mem[j]} :: 16 <= j < 4 * SECTOR_WORDS ==> mem[j] == blank[j] == 255;
      ErasedIsNoRecord(mem, HEADER_WORDS, 0);
    }

    /** load_lease_table on a zeroed table, right after reset: `log` is what the
        sector holds if its header is ours. */
    method Load(ghost log: seq<Rec>) returns (shouldCompact: bool)
      requires Formed() && readPointer == 0 && table == EmptyTable(|table|)
      requires HeaderOk(Words(mem, 0, HEADER_WORDS), start, |table|) ==> Logged(mem, log)
      modifies this`table, this`readPointer, this`writePointer, this`recs
      ensures |table| == |old(table)|
      ensures !HeaderOk(Words(mem, 0, HEADER_WORDS), start, |table|) ==>
                shouldCompact && table == old(table) && readPointer == 0 && writePointer == old(writePointer)
      ensures HeaderOk(Words(mem, 0, HEADER_WORDS), start, |table|) ==>
                && recs == log && table == Replay(EmptyTable(|table|), start[3], log, crc)
                && writePointer == HEADER_WORDS + RECORD_WORDS * |log| && shouldCompact == AnyBad(log, crc)
    {
      shouldCompact := false;
      var header := Read(HEADER_WORDS);
      if !HeaderOk(header, start, |table|) {
        shouldCompact := true;
        readPointer := 0;
        return;
      }
      shouldCompact := Scan(log);
      recs := log;
      writePointer := readPointer - RECORD_WORDS;
    }

    /** setup_lease_table after its allocation: load, and compact when asked to.
        From any sector whose header is foreign, or whose log was written by this
        server (torn records included), the server starts in a valid state. */
    method Setup(ghost log: seq<Rec>)
      requires Formed() && readPointer == 0 && table == EmptyTable(|table|)
      requires HeaderOk(Words(mem, 0, HEADER_WORDS), start, |table|) ==>
                 Logged(mem, log) && Erased(mem, HEADER_WORDS + RECORD_WORDS * |log|) && GoodRecords(log, crc)
      modifies this
      ensures Valid() && |table| == |old(table)|
      ensures table == if HeaderOk(Words(old(mem), 0, HEADER_WORDS), start, |table|)
                       then Replay(EmptyTable(|table|), start[3], log, crc) else EmptyTable(|table|)
    {
      var shouldCompact := Load(log);
      if HeaderOk(Words(mem, 0, HEADER_WORDS), start, |table|) {
        ReplayOk(EmptyTable(|table|), start[3], log, crc);
      }
      if shouldCompact {
        Compact();
      }
    }

    /** The record loop of load_lease_table. */
    method Scan(ghost log: seq<Rec>) returns (bad: bool)
      requires |start| == 4 && readPointer == HEADER_WORDS && Logged(mem, log)
      modifies this`table, this`readPointer
      ensures table == Replay(old(table), start[3], log, crc) && bad == AnyBad(log, crc)
      ensures readPointer == HEADER_WORDS + RECORD_WORDS * (|log| + 1)
    {
      bad := false;
      ghost var i := 0;
      assert log[..0] == [];
      var r := Read(RECORD_WORDS);
      while r[..4] == RECORD_MAGIC
        invariant 0 <= i <= |log| && readPointer == HEADER_WORDS + RECORD_WORDS * (i + 1) && |r| == 32
        invariant r == RecAt(mem, i)
        invariant AllRecords(log[..i]) && table == Replay(old(table), start[3], log[..i], crc)
        invariant bad == AnyBad(log[..i], crc)
        decreases |log| - i
      {
        RecordsEnd(mem, log, i);
        assert i < |log| && r == log[i];
        ReplayAppend(old(table), start[3], log[..i], r, crc);
        assert log[..i] + [r] == log[..i + 1];
        bad := bad || r[31] != crc(r[..31]);
        table := Replay1(table, start[3], r, crc);
        i := i + 1;
        r := Read(RECORD_WORDS);
      }
      RecordsEnd(mem, log, i);
      assert log[..i] == log;
    }

    // ---- messages ----

    /** The scan of chose_address. */
    method FindSlot(k: seq<byte>, now: nat) returns (found: Option<nat>, firstFree: Option<nat>)
      ensures found == FindKey(table, k, 0)
      ensures found.None? ==> firstFree == FindFree(table, now, 0)
    {
      found, firstFree := None, None;
      for i := 0 to |table|
        invariant found.None? && FindKey(table, k, 0) == FindKey(table, k, i)
        invariant firstFree.None? ==> FindFree(table, now, 0) == FindFree(table, now, i)
        invariant firstFree.Some? ==> firstFree == FindFree(table, now, 0)
      {
        if firstFree.None? && (table[i].state == FREE || !Alive(table[i], now)) {
          firstFree := Some(i);
        }
        if HasKey(table[i], k) && table[i].state != DECLINED {
          found := Some(i);
          return;
        }
      }
    }

    /** chose_address */
    method ChooseAddress(k: seq<byte>, now: nat) returns (r: Reply, chosen: seq<byte>)
      requires Valid()
      modifies this`table
      ensures Valid() && (table, r) == Choose(old(table), Config(), k, now)
      ensures |chosen| == 4 && (r.Offer? ==> chosen == AddrOf(start, r.slot))
    {
      chosen := start;
      if |k| == 0 || |k| > KEY_CAP {
        return NoReply, chosen;
      }
      var found, firstFree := FindSlot(k, now);
      ghost var back := Replay(EmptyTable(|table|), start[3], recs, crc);
      if found.Some? {
        table := table[found.value := table[found.value].(expires := (now + leaseTime) % U32)];
        chosen := AddrOf(start, found.value);
        r := Offer(found.value, k);
      } else if firstFree.Some? {
        table := table[firstFree.value := Slot(OFFERED, SetKey(table[firstFree.value].key, k), |k|, (now + 60) % U32)];
        chosen := AddrOf(start, firstFree.value);
        r := Offer(firstFree.value, k);
      } else {
        r := NoReply;
      }
    }

    /** dhcp_handle_request; `addr` is the requested address, or ciaddr. */
    method HandleRequest(k: seq<byte>, forUs: bool, addr: seq<byte>, now: nat) returns (r: Reply)
      requires Valid() && |addr| == 4 && writePointer + RECORD_WORDS <= SECTOR_WORDS
      modifies this`table, this`mem, this`writePointer, this`recs
      ensures Valid() && (table, r) == DoRequest(old(table), Config(), k, forUs, addr[3], now)
      ensures r.Ack? ==> recs == old(recs) + [Serialize(table[r.slot], addr, crc)]
      ensures !r.Ack? ==> recs == old(recs)
    {
      if !forUs || addr[3] as int - start[3] < 0 || addr[3] as int - start[3] >= |table| {
        return NoReply;
      }
      var i := addr[3] - start[3];
      if !Alive(table[i], now) || !HasKey(table[i], k) {
        return NoReply;
      }
      StoreSlot(i, table[i].(state := BOUND, expires := (now + leaseTime) % U32), addr);
      r := Ack(i, k);
    }

    /** A changed slot goes to the table and to the journal. */
    method StoreSlot(i: nat, s: Slot, addr: seq<byte>)
      requires Valid() && i < |table| && SlotOk(s) && |addr| == 4 && addr[3] == start[3] + i
      requires writePointer + RECORD_WORDS <= SECTOR_WORDS
      modifies this`table, this`mem, this`writePointer, this`recs
      ensures Valid() && table == old(table)[i := s] && recs == old(recs) + [Serialize(s, addr, crc)]
    {
      var r := Serialize(s, addr, crc);
      ReplayStored(EmptyTable(|table|), start[3], recs, i, s, addr, crc);
      SerializeRoundTrip(s, addr, crc);
      table := table[i := s];
      WriteRecord(r);
    }

    /** dhcp_handle_decline */
    method HandleDecline(k: seq<byte>, requested: Option<byte>, now: nat)
      requires Valid()
      modifies this`table
      ensures Valid() && table == DoDecline(old(table), Config(), k, requested, now)
    {
      if requested.None? || requested.value as int - start[3] < 0 || requested.value as int - start[3] >= |table| {
        return;
      }
      var i := requested.value - start[3];
      if HasKey(table[i], k) {
        table := table[i := table[i].(state := DECLINED, expires := (now + 300) % U32)];
      }
    }

    /** dhcp_handle_release; `addr` is ciaddr. */
    method HandleRelease(k: seq<byte>, addr: seq<byte>)
      requires Valid() && |addr| == 4 && writePointer + RECORD_WORDS <= SECTOR_WORDS
      modifies this`table, this`mem, this`writePointer, this`recs
      ensures Valid() && table == DoRelease(old(table), Config(), k, addr[3]) && |recs| <= |old(recs)| + 1
    {
      if addr[3] as int - start[3] < 0 || addr[3] as int - start[3] >= |table| {
        return;
      }
      var i := addr[3] - start[3];
      if HasKey(table[i], k) {
        StoreSlot(i, table[i].(state := FREE, expires := 0), addr);
      }
    }

    /** The message loop's switch on the message type; `addr` is the address a
        REQUEST or RELEASE names, `yiaddr` the one an answer assigns. Each message
        is one Handle step. */
    method Serve(m: Msg, addr: seq<byte>, now: nat) returns (r: Reply, yiaddr: seq<byte>)
      requires Valid() && |addr| == 4 && writePointer + RECORD_WORDS <= SECTOR_WORDS
      requires m.Request? || m.Release? ==> addr[3] == m.octet
      modifies this`table, this`mem, this`writePointer, this`recs
      ensures Valid() && (table, r) == Handle(old(table), Config(), m, now) && |recs| <= |old(recs)| + 1
      ensures |yiaddr| == 4 && (r.Offer? ==> yiaddr == AddrOf(start, r.slot)) && (r.Ack? ==> yiaddr == addr)
    {
      yiaddr := addr;
      match m
      case Discover(k) => r, yiaddr := ChooseAddress(k, now);
      case Request(k, forUs, _) => r := HandleRequest(k, forUs, addr, now);
      case Decline(k, requested) =>
        HandleDecline(k, requested, now);
        r, yiaddr := ChooseAddress(k, now);
      case Release(k, _) =>
        HandleRelease(k, addr);
        r := NoReply;
    }

    /** Any number of messages, while the sector has room for them. */
    method Session(evs: seq<Event>, addrs: seq<seq<byte>>)
      requires Valid() && Addressed(evs, addrs) && writePointer + RECORD_WORDS * |evs| <= SECTOR_WORDS
      modifies this`table, this`mem, this`writePointer, this`recs
      ensures Valid() && table == After(old(table), Config(), evs)
      ensures writePointer <= old(writePointer) + RECORD_WORDS * |evs|
    {
      assert evs[0..] == evs;
      for j := 0 to |evs|
        invariant Valid() && |recs| <= |old(recs)| + j
        invariant After(table, Config(), evs[j..]) == After(old(table), Config(), evs)
      {
        assert evs[j..][0] == evs[j] && evs[j..][1..] == evs[j + 1..];
        var _, _ := Serve(evs[j].msg, addrs[j], evs[j].now);
      }
      assert evs[|evs|..] == [];
    }

    /** The power fails after j words of the append of record r, and the server
        starts again. If what is left of r fails its checksum, every slot that was
        bound is bound to its key again. */
    method PowerCycle(r: Rec, j: nat)
      requires Valid() && IsRecord(r) && j < RECORD_WORDS && writePointer + RECORD_WORDS <= SECTOR_WORDS
      requires j > 0 ==> !Checks(Torn(r, j), crc)
      modifies this
      ensures Valid() && |table| == |old(table)| && StillBound(old(table), table)
    {
      TornAppend(mem, recs, r, j, EmptyTable(|table|), start[3], crc);
      ProgramReads(mem, writePointer, r[..4 * j], 0, HEADER_WORDS);
      ghost var log := if j == 0 then recs else recs + [Torn(r, j)];
      assert GoodRecords(log, crc);
      mem := Program(mem, writePointer, r[..4 * j]);
      table, readPointer, writePointer := EmptyTable(|table|), 0, 0;
      Setup(log);
    }

    /** End to end: a session of any messages from any clients, a power failure at
        any word of the next append, and a restart. */
    method Survives(evs: seq<Event>, addrs: seq<seq<byte>>, r: Rec, j: nat)
      requires Valid() && Addressed(evs, addrs) && writePointer + RECORD_WORDS * (|evs| + 1) <= SECTOR_WORDS
      requires IsRecord(r) && j < RECORD_WORDS && (j > 0 ==> !Checks(Torn(r, j), crc))
      modifies this
      ensures Valid() && StillBound(After(old(table), Config(), evs), table)
    {
      Session(evs, addrs);
      PowerCycle(r, j);
    }
  }

  /** Records this server wrote, or torn ones its checksum rejects. */
  ghost predicate GoodRecords(recs: seq<Rec>, crc: Crc) {
    AllRecords(recs) && forall i :: 0 <= i < |recs| ==> !Checks(recs[i], crc) || SlotOk(Fields(recs[i]))
  }

  /** The addresses that go with the messages of a session. */
  predicate Addressed(evs: seq<Event>, addrs: seq<seq<byte>>) {
    |addrs| == |evs| && forall j {:trigger addrs[j]} :: 0 <= j < |evs| ==>
      |addrs[j]| == 4 && (evs[j].msg.Request? || evs[j].msg.Release? ==> addrs[j][3] == evs[j].msg.octet)
  }

  /** Whatever is bound in a is bound to the same key in b. */
  predicate StillBound(a: Table, b: Table) {
    |b| == |a| && forall i :: 0 <= i < |a| && a[i].state == BOUND ==>
      b[i].state == BOUND && b[i].key == a[i].key && b[i].keyLen == a[i].keyLen
  }

  lemma {:induction false} CompactGood(tb: Table, start: seq<byte>, n: nat, crc: Crc)
    requires TableOk(tb) && |start| == 4 && n <= |tb|
    ensures GoodRecords(CompactRecs(tb, start, n, crc), crc)
  {
    if n > 0 {
      CompactGood(tb, start, n - 1, crc);
      SerializeRoundTrip(tb[n - 1], AddrOf(start, n - 1), crc);
    }
  }

  lemma {:induction false} ReplayOk(tb: Table, first: byte, recs: seq<Rec>, crc: Crc)
    requires TableOk(tb) && GoodRecords(recs, crc)
    ensures TableOk(Replay(tb, first, recs, crc))
    decreases |recs|
  {
    if recs != [] {
      ReplayOk(tb, first, recs[..|recs| - 1], crc);
    }
  }

  /** Journalling slot i replays as storing it. */
  lemma ReplayStored(tb: Table, first: byte, recs: seq<Rec>, i: nat, s: Slot, addr: seq<byte>, crc: Crc)
    requires AllRecords(recs) && i < |tb| < 256 && SlotOk(s) && |addr| == 4 && addr[3] == first + i
    ensures IsRecord(Serialize(s, addr, crc)) && AllRecords(recs + [Serialize(s, addr, crc)])
    ensures Replay(tb, first, recs + [Serialize(s, addr, crc)], crc) == Replay(tb, first, recs, crc)[i := s]
  {
    var r := Serialize(s, addr, crc);
    SerializeRoundTrip(s, addr, crc);
    ReplayAppend(tb, first, recs, r, crc);
    assert IndexOf(r, first) == i;
  }

  lemma ProgramMore(m: seq<byte>, w: nat, data: seq<byte>, i: nat)
    requires 4 * w + |data| <= |m| && i % 4 == 0 && i + 4 <= |data|
    ensures Program(Program(m, w, data[..i]), w + i / 4, data[i..i + 4]) == Program(m, w, data[..i + 4])
  {
    var a := Program(m, w, data[..i]);
    assert a[..4 * (w + i / 4)] == m[..4 * w] + data[..i];
    assert a[4 * (w + i / 4) + 4..] == m[4 * w + i + 4..];
    assert data[..i] + data[i..i + 4] == data[..i + 4];
  }
}
