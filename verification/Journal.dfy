/** The append-only lease journal: record format, replay, and the byte layout of
    the flash sector it lives in. The checksum is a parameter: every result
    holds for every checksum function. */
module Journal {
  import opened Machine
  import opened Leases

  const SECTOR_WORDS: nat := 4096
  const HEADER_WORDS: nat := 4
  const RECORD_WORDS: nat := 8
  const RECORD_MAGIC: seq<byte> := [0x4c, 0x53, 0x4c, 0x54]
  const HEADER_MAGIC: seq<byte> := [0x4c, 0x48, 0x44, 0x52]

  type Crc = seq<byte> -> byte
  type Rec = seq<byte>

  // ---- records ----

  function Le32(x: nat): seq<byte>
    requires x < U32
  {
    [x % 256, x / 256 % 256, x / 65536 % 256, x / 16777216]
  }

  function FromLe(b: seq<byte>): nat
    requires |b| == 4
  {
    b[0] as int + b[1] as int * 256 + b[2] as int * 65536 + b[3] as int * 16777216
  }

  lemma LeRoundTrip(x: nat)
    requires x < U32
    ensures FromLe(Le32(x)) == x
  {
    assert x / 65536 == x / 256 / 256 && x / 16777216 == x / 256 / 256 / 256;
  }

  /** serialize_record up to its checksum byte */
  function Body(s: Slot, addr: seq<byte>): (r: seq<byte>)
    requires SlotOk(s) && |addr| == 4
    ensures |r| == 31
  {
    RECORD_MAGIC + [s.state, s.keyLen] + addr + Le32(s.expires) + s.key + [0]
  }

  function Serialize(s: Slot, addr: seq<byte>, crc: Crc): (r: Rec)
    requires SlotOk(s) && |addr| == 4
    ensures |r| == 32
  {
    Body(s, addr) + [crc(Body(s, addr))]
  }

  predicate IsRecord(r: Rec) {
    |r| == 32 && r[..4] == RECORD_MAGIC
  }

  predicate Checks(r: Rec, crc: Crc)
    requires |r| == 32
  {
    r[31] == crc(r[..31])
  }

  function IndexOf(r: Rec, first: byte): nat
    requires |r| == 32
  {
    (r[9] - first) % 256
  }

  function Fields(r: Rec): Slot
    requires |r| == 32
  {
    Slot(r[4], r[14..30], r[5], FromLe(r[10..14]))
  }

  /** A serialized slot reads back as itself, under its own address. */
  lemma SerializeRoundTrip(s: Slot, addr: seq<byte>, crc: Crc)
    requires SlotOk(s) && |addr| == 4
    ensures var r := Serialize(s, addr, crc);
            IsRecord(r) && Checks(r, crc) && Fields(r) == s
            && forall first: byte :: IndexOf(r, first) == (addr[3] - first) % 256
  {
    var r := Serialize(s, addr, crc);
    assert r[..31] == Body(s, addr);
    assert r[..4] == RECORD_MAGIC;
    assert r[14..30] == s.key;
    assert r[10..14] == Le32(s.expires);
    LeRoundTrip(s.expires);
  }

  /** The record byte by byte, as it stands in flash. */
  lemma RecordLayout(s: Slot, addr: seq<byte>, crc: Crc)
    requires SlotOk(s) && |addr| == 4
    ensures var r := Serialize(s, addr, crc);
            && r[0] == 0x4c && r[1] == 0x53 && r[2] == 0x4c && r[3] == 0x54 && r[4] == s.state && r[5] == s.keyLen
            && r[6..10] == addr
            && r[10] as int + 0x100 * r[11] as int + 0x10000 * r[12] as int + 0x1000000 * r[13] as int == s.expires
            && r[14..30] == s.key && r[30] == 0 && r[31] == crc(r[..31])
  {
    var r := Serialize(s, addr, crc);
    LeRoundTrip(s.expires);
    assert r[..31] == Body(s, addr);
    assert r[6..10] == addr && r[14..30] == s.key;
  }

  /** The checksum covers every byte before it: change any of them so that the
      checksum of the 31 bytes changes, and the record no longer passes. */
  lemma ChecksumCovers(r: Rec, t: Rec, crc: Crc)
    requires |r| == 32 && |t| == 32 && r[31] == t[31] && Checks(r, crc) && crc(r[..31]) != crc(t[..31])
    ensures !Checks(t, crc)
  {
  }

  // ---- replay ----

  /** One iteration of load_lease_table on a record. */
  function Replay1(tb: Table, first: byte, r: Rec, crc: Crc): (res: Table)
    requires |r| == 32
    ensures |res| == |tb|
  {
    if Checks(r, crc) && IndexOf(r, first) < |tb| then tb[IndexOf(r, first) := Fields(r)] else tb
  }

  predicate AllRecords(recs: seq<Rec>) {
    forall i :: 0 <= i < |recs| ==> IsRecord(recs[i])
  }

  function Replay(tb: Table, first: byte, recs: seq<Rec>, crc: Crc): (res: Table)
    requires AllRecords(recs)
    ensures |res| == |tb|
    decreases |recs|
  {
    if recs == [] then tb
    else Replay1(Replay(tb, first, recs[..|recs| - 1], crc), first, recs[|recs| - 1], crc)
  }

  /** The record passes its checksum and is for slot i. */
  predicate Speaks(r: Rec, first: byte, crc: Crc, i: nat) {
    |r| == 32 && Checks(r, crc) && IndexOf(r, first) == i
  }

  /** Record j is the last one that speaks for slot i. */
  ghost predicate LastFor(recs: seq<Rec>, first: byte, crc: Crc, i: nat, j: nat) {
    j < |recs| && Speaks(recs[j], first, crc, i) && forall x :: j < x < |recs| ==> !Speaks(recs[x], first, crc, i)
  }

  lemma ReplayStep(tb: Table, first: byte, recs: seq<Rec>, crc: Crc, i: nat)
    requires AllRecords(recs) && i < |tb| && recs != []
    ensures var n := |recs| - 1;
            Replay(tb, first, recs, crc)[i]
            == if Speaks(recs[n], first, crc, i) then Fields(recs[n]) else Replay(tb, first, recs[..n], crc)[i]
  {
  }

  /** Replay is a last-writer-wins map over the records whose checksum holds. */
  lemma {:induction false} ReplayLastWriter(tb: Table, first: byte, recs: seq<Rec>, crc: Crc, i: nat, j: nat)
    requires AllRecords(recs) && i < |tb| && LastFor(recs, first, crc, i, j)
    ensures Replay(tb, first, recs, crc)[i] == Fields(recs[j])
    decreases |recs|
  {
    var n := |recs| - 1;
    ReplayStep(tb, first, recs, crc, i);
    if j < n {
      assert !Speaks(recs[n], first, crc, i);
      ReplayLastWriter(tb, first, recs[..n], crc, i, j);
    }
  }

  /** A slot no record speaks for keeps what it had. */
  lemma {:induction false} ReplayUntouched(tb: Table, first: byte, recs: seq<Rec>, crc: Crc, i: nat)
    requires AllRecords(recs) && i < |tb| && forall j :: 0 <= j < |recs| ==> !Speaks(recs[j], first, crc, i)
    ensures Replay(tb, first, recs, crc)[i] == tb[i]
    decreases |recs|
  {
    if recs != [] {
      ReplayStep(tb, first, recs, crc, i);
      ReplayUntouched(tb, first, recs[..|recs| - 1], crc, i);
    }
  }

  /** Some record fails its checksum: load_lease_table asks for compaction. */
  predicate AnyBad(recs: seq<Rec>, crc: Crc)
    requires AllRecords(recs)
  {
    exists i :: 0 <= i < |recs| && !Checks(recs[i], crc)
  }

  // ---- layout in flash ----

  function Header(start: seq<byte>, size: byte, crc: Crc): (h: seq<byte>)
    requires |start| == 4
    ensures |h| == 16
  {
    var h := HEADER_MAGIC + [0, 1, 0, 32] + start;
    h + [size, crc(h), 0, 0]
  }

  /** The test load_lease_table makes; the header's own checksum is not read. */
  predicate HeaderOk(h: seq<byte>, start: seq<byte>, size: nat)
    requires |h| == 16 && |start| == 4
  {
    h[..4] == HEADER_MAGIC && h[4] == 0 && h[5] == 1 && h[6] == 0 && h[7] == 32 && h[8..12] == start && h[12] == size
  }

  /** The header byte by byte. */
  lemma HeaderLayout(start: seq<byte>, size: byte, crc: Crc)
    requires |start| == 4
    ensures var h := Header(start, size, crc);
            && h[0] == 0x4c && h[1] == 0x48 && h[2] == 0x44 && h[3] == 0x52 && h[4] == 0 && h[5] == 1 && h[6] == 0
            && h[7] == 32 && h[8..12] == start && h[12] == size && h[13] == crc(h[..12]) && h[14] == 0 && h[15] == 0
  {
    var h := Header(start, size, crc);
    assert h[..12] == HEADER_MAGIC + [0, 1, 0, 32] + start;
  }

  lemma HeaderReads(start: seq<byte>, size: byte, crc: Crc)
    requires |start| == 4
    ensures HeaderOk(Header(start, size, crc), start, size)
  {
  }

  /** A header is accepted if and only if it is this server's, its checksum aside. */
  lemma HeaderOkIff(h: seq<byte>, start: seq<byte>, size: byte, crc: Crc)
    requires |h| == 16 && |start| == 4
    ensures HeaderOk(h, start, size) <==> h[..13] == Header(start, size, crc)[..13]
  {
    var g := Header(start, size, crc);
    HeaderLayout(start, size, crc);
    assert h[..13] == h[..4] + [h[4], h[5], h[6], h[7]] + h[8..12] + [h[12]];
    assert g[..13] == HEADER_MAGIC + [0, 1, 0, 32] + start + [size];
    if h[..13] == g[..13] {
      assert forall i {:trigger h[i]} :: 0 <= i < 13 ==> h[i] == h[..13][i] == g[..13][i] == g[i];
      assert h[..4] == HEADER_MAGIC && h[8..12] == start;
    }
  }

  /** Words w to w + n of flash. */
  function Words(mem: seq<byte>, w: nat, n: nat): seq<byte>
    requires 4 * (w + n) <= |mem|
  {
    mem[4 * w..4 * (w + n)]
  }

  function RecAt(mem: seq<byte>, i: nat): seq<byte>
    requires 4 * (HEADER_WORDS + RECORD_WORDS * (i + 1)) <= |mem|
  {
    Words(mem, HEADER_WORDS + RECORD_WORDS * i, RECORD_WORDS)
  }

  /** The sector holds exactly these records after its header; flash continues
      past the sector, so a whole record can always be read. */
  ghost predicate Logged(mem: seq<byte>, recs: seq<Rec>) {
    && 4 * (HEADER_WORDS + RECORD_WORDS * (|recs| + 1)) <= |mem|
    && AllRecords(recs)
    && (forall i {:trigger recs[i]} :: 0 <= i < |recs| ==> RecAt(mem, i) == recs[i])
    && !IsRecord(RecAt(mem, |recs|))
  }

  ghost predicate Erased(mem: seq<byte>, w: nat) {
    |mem| >= 4 * (SECTOR_WORDS + RECORD_WORDS)
    && forall j {:trigger mem[j]} :: 4 * w <= j < 4 * SECTOR_WORDS ==> mem[j] == 255
  }

  /** Programming words at w, over erased ones. */
  function Program(mem: seq<byte>, w: nat, data: seq<byte>): (r: seq<byte>)
    requires 4 * w + |data| <= |mem|
    ensures |r| == |mem|
  {
    mem[..4 * w] + data + mem[4 * w + |data|..]
  }

  lemma ProgramReads(mem: seq<byte>, w: nat, data: seq<byte>, v: nat, n: nat)
    requires 4 * w + |data| <= |mem| && 4 * (v + n) <= |mem|
    ensures v + n <= w ==> Words(Program(mem, w, data), v, n) == Words(mem, v, n)
    ensures 4 * w + |data| <= 4 * v ==> Words(Program(mem, w, data), v, n) == Words(mem, v, n)
    ensures v == w && 4 * n == |data| ==> Words(Program(mem, w, data), v, n) == data
  {
    var r := Program(mem, w, data);
    assert forall j :: 0 <= j < 4 * w ==> r[j] == mem[j];
    assert forall j :: 4 * w + |data| <= j < |mem| ==> r[j] == mem[j];
  }

  lemma ErasedIsNoRecord(mem: seq<byte>, w: nat, i: nat)
    requires Erased(mem, w) && w <= HEADER_WORDS + RECORD_WORDS * i < SECTOR_WORDS
    ensures 4 * (HEADER_WORDS + RECORD_WORDS * (i + 1)) <= |mem| && !IsRecord(RecAt(mem, i))
  {
    assert RecAt(mem, i)[0] == mem[4 * (HEADER_WORDS + RECORD_WORDS * i)] == 255;
    assert RecAt(mem, i)[..4][0] != RECORD_MAGIC[0];
  }

  lemma RecordsEnd(mem: seq<byte>, recs: seq<Rec>, i: nat)
    requires Logged(mem, recs) && i <= |recs|
    ensures IsRecord(RecAt(mem, i)) <==> i < |recs|
  {
    if i < |recs| {
      assert RecAt(mem, i) == recs[i];
    }
  }

  /** Appending words that form one more record extends the log by it. */
  lemma AppendLogged(mem: seq<byte>, recs: seq<Rec>, data: seq<byte>, r: Rec)
    requires Logged(mem, recs) && IsRecord(r) && |data| % 4 == 0 && 4 <= |data| <= 32 && data == r[..|data|]
    requires forall j {:trigger r[j]} :: |data| <= j < 32 ==> r[j] == 255
    requires var w := HEADER_WORDS + RECORD_WORDS * |recs|; Erased(mem, w) && w + RECORD_WORDS <= SECTOR_WORDS
    ensures var w := HEADER_WORDS + RECORD_WORDS * |recs|;
            Logged(Program(mem, w, data), recs + [r]) && Erased(Program(mem, w, data), w + |data| / 4)
  {
    var n, w := |recs|, HEADER_WORDS + RECORD_WORDS * |recs|;
    var mem1 := Program(mem, w, data);
    assert forall j {:trigger mem1[j]} :: 0 <= j < |mem| ==>
      mem1[j] == if 4 * w <= j < 4 * w + |data| then data[j - 4 * w] else mem[j];
    assert Erased(mem1, w + |data| / 4);
    assert RecAt(mem1, n) == r;
    forall i {:trigger recs[i]} | 0 <= i < n ensures RecAt(mem1, i) == recs[i] {
      ProgramReads(mem, w, data, HEADER_WORDS + RECORD_WORDS * i, RECORD_WORDS);
    }
    var all := recs + [r];
    assert forall i {:trigger all[i]} :: 0 <= i < n + 1 ==> RecAt(mem1, i) == all[i];
    ErasedIsNoRecord(mem1, w + |data| / 4, n + 1);
  }

  /** Replaying an extended log updates what the shorter log gives. */
  lemma ReplayAppend(tb: Table, first: byte, recs: seq<Rec>, r: Rec, crc: Crc)
    requires AllRecords(recs) && IsRecord(r)
    ensures AllRecords(recs + [r])
    ensures Replay(tb, first, recs + [r], crc) == Replay1(Replay(tb, first, recs, crc), first, r, crc)
    ensures AnyBad(recs + [r], crc) <==> AnyBad(recs, crc) || !Checks(r, crc)
  {
    var all := recs + [r];
    assert all[..|all| - 1] == recs;
    assert all[|recs|] == r;
    assert forall i :: 0 <= i < |recs| ==> all[i] == recs[i];
  }

  // ---- a write cut short ----

  /** What flash holds of a record after its first j words. */
  function Torn(r: Rec, j: nat): (t: Rec)
    requires |r| == 32 && j <= RECORD_WORDS
    ensures |t| == 32
  {
    r[..4 * j] + Fill(32 - 4 * j, 255)
  }

  /** An append that loses power after j of its 8 words. With no word written the
      log is what it was; otherwise the log ends in a record that, if its
      checksum fails, replays as if the append had never started and makes the
      next load ask for compaction. */
  lemma TornAppend(mem: seq<byte>, recs: seq<Rec>, r: Rec, j: nat, tb: Table, first: byte, crc: Crc)
    requires Logged(mem, recs) && IsRecord(r) && j < RECORD_WORDS
    requires var w := HEADER_WORDS + RECORD_WORDS * |recs|; Erased(mem, w) && w + RECORD_WORDS <= SECTOR_WORDS
    ensures var mem1 := Program(mem, HEADER_WORDS + RECORD_WORDS * |recs|, r[..4 * j]);
            && (j == 0 ==> mem1 == mem)
            && (j > 0 ==> Logged(mem1, recs + [Torn(r, j)]) && Erased(mem1, HEADER_WORDS + RECORD_WORDS * (|recs| + 1))
                          && (!Checks(Torn(r, j), crc) ==>
                                Replay(tb, first, recs + [Torn(r, j)], crc) == Replay(tb, first, recs, crc)
                                && AnyBad(recs + [Torn(r, j)], crc)))
  {
    var t := Torn(r, j);
    if j > 0 {
      assert t[..4] == r[..4];
      assert t[..4 * j] == r[..4 * j];
      assert forall x {:trigger t[x]} :: 4 * j <= x < 32 ==> t[x] == 255;
      AppendLogged(mem, recs, r[..4 * j], t);
      ReplayAppend(tb, first, recs, t, crc);
    }
  }

  // ---- compaction ----

  /** The address of slot i: the last octet is advanced modulo 256. */
  function AddrOf(start: seq<byte>, i: nat): (a: seq<byte>)
    requires |start| == 4
    ensures |a| == 4
  {
    start[..3] + [(start[3] as int + i) % 256]
  }

  function EmptySlot(): Slot {
    Slot(FREE, Fill(KEY_CAP, 0), 0, 0)
  }

  /** The table as setup_lease_table zeroes it. */
  function EmptyTable(n: nat): (tb: Table)
    ensures |tb| == n && forall i :: 0 <= i < n ==> tb[i] == EmptySlot()
  {
    if n == 0 then [] else EmptyTable(n - 1) + [EmptySlot()]
  }

  /** A zeroed table is a table of free slots, and all that is free is free to give. */
  lemma ZeroedIsFree(n: nat, i: nat, now: nat)
    requires i < n
    ensures var s := EmptyTable(n)[i];
            && s.state == 0 && s.keyLen == 0 && s.expires == 0 && s.key == Fill(16, 0)
            && SlotOk(s) && s.state == FREE && !Alive(s, now)
  {
  }

  /** An address of the pool names its slot, both to the handlers and to the replay,
      as long as the pool does not run past octet 255. */
  lemma AddressNamesSlot(tb: Table, start: seq<byte>, leaseTime: nat, s: Slot, crc: Crc, i: nat)
    requires |start| == 4 && i < |tb| < 256 && start[3] as int + i < 256 && SlotOk(s)
    ensures var r := SlotOf(tb, Cfg(start[3], leaseTime), AddrOf(start, i)[3]); r.Some? && r.value == i
    ensures IndexOf(Serialize(s, AddrOf(start, i), crc), start[3]) == i
  {
    SerializeRoundTrip(s, AddrOf(start, i), crc);
  }

  /** The records journal_compact writes for the first n slots. */
  function CompactRecs(tb: Table, start: seq<byte>, n: nat, crc: Crc): (r: seq<Rec>)
    requires TableOk(tb) && |start| == 4 && n <= |tb|
    ensures |r| <= n
  {
    if n == 0 then []
    else
      var rest := CompactRecs(tb, start, n - 1, crc);
      if tb[n - 1].state == FREE then rest else rest + [Serialize(tb[n - 1], AddrOf(start, n - 1), crc)]
  }

  /** What survives compaction: every slot in use, exactly; free slots are blank. */
  function Compacted(tb: Table, n: nat): (r: Table)
    requires n <= |tb|
    ensures |r| == |tb|
    ensures forall i {:trigger r[i]} :: 0 <= i < |tb| ==>
              r[i] == if i < n && tb[i].state != FREE then tb[i] else EmptySlot()
  {
    if tb == [] then []
    else
      var k := |tb| - 1;
      Compacted(tb[..k], if n <= k then n else k) + [if k < n && tb[k].state != FREE then tb[k] else EmptySlot()]
  }

  lemma CompactStep(tb: Table, start: seq<byte>, n: nat, crc: Crc)
    requires TableOk(tb) && |start| == 4 && n < |tb| && tb[n].state != FREE
    ensures var r := Serialize(tb[n], AddrOf(start, n), crc);
            IsRecord(r) && Checks(r, crc) && Replay1(Compacted(tb, n), start[3], r, crc) == Compacted(tb, n + 1)
  {
    var r := Serialize(tb[n], AddrOf(start, n), crc);
    SerializeRoundTrip(tb[n], AddrOf(start, n), crc);
    OctetIndex(start[3], n);
    assert IndexOf(r, start[3]) == n;
    var a, b := Compacted(tb, n)[n := tb[n]], Compacted(tb, n + 1);
    assert forall i :: 0 <= i < |tb| ==> a[i] == b[i];
    assert a == b;
  }

  lemma CompactedNone(tb: Table)
    ensures Compacted(tb, 0) == EmptyTable(|tb|)
  {
    var a, b := Compacted(tb, 0), EmptyTable(|tb|);
    assert forall i :: 0 <= i < |tb| ==> a[i] == b[i];
  }

  lemma CompactedSkips(tb: Table, n: nat)
    requires n < |tb| && tb[n].state == FREE
    ensures Compacted(tb, n + 1) == Compacted(tb, n)
  {
    var a, b := Compacted(tb, n + 1), Compacted(tb, n);
    assert forall i :: 0 <= i < |tb| ==> a[i] == b[i];
  }

  /** Reloading a compacted journal gives back the slots in use. */
  lemma {:induction false} CompactReplay(tb: Table, start: seq<byte>, n: nat, crc: Crc)
    requires TableOk(tb) && |start| == 4 && n <= |tb|
    ensures AllRecords(CompactRecs(tb, start, n, crc)) && !AnyBad(CompactRecs(tb, start, n, crc), crc)
    ensures Replay(EmptyTable(|tb|), start[3], CompactRecs(tb, start, n, crc), crc) == Compacted(tb, n)
  {
    if n == 0 {
      CompactedNone(tb);
    } else {
      CompactReplay(tb, start, n - 1, crc);
      if tb[n - 1].state == FREE {
        CompactedSkips(tb, n - 1);
      } else {
        CompactStep(tb, start, n - 1, crc);
        ReplayAppend(EmptyTable(|tb|), start[3], CompactRecs(tb, start, n - 1, crc),
                     Serialize(tb[n - 1], AddrOf(start, n - 1), crc), crc);
      }
    }
  }

  /** A power failure inside journal_compact, after its erase: with the header and
      the records of the first n slots written, and perhaps a torn record behind
      them, a slot in use survives if and only if it is one of those n. */
  lemma CompactCut(tb: Table, start: seq<byte>, n: nat, crc: Crc, i: nat, torn: Rec)
    requires TableOk(tb) && |start| == 4 && n <= |tb| && i < |tb| && tb[i].state != FREE
    requires IsRecord(torn) && !Checks(torn, crc)
    ensures var log := CompactRecs(tb, start, n, crc);
            && AllRecords(log) && AllRecords(log + [torn])
            && Replay(EmptyTable(|tb|), start[3], log + [torn], crc) == Replay(EmptyTable(|tb|), start[3], log, crc)
            && Replay(EmptyTable(|tb|), start[3], log, crc)[i] == (if i < n then tb[i] else EmptySlot())
            && (Replay(EmptyTable(|tb|), start[3], log, crc)[i].state != FREE <==> i < n)
  {
    CompactReplay(tb, start, n, crc);
    ReplayAppend(EmptyTable(|tb|), start[3], CompactRecs(tb, start, n, crc), torn, crc);
  }

  /** Cut inside the header: the sector is foreign or holds an empty log, so every
      lease is lost. */
  lemma HeaderCut(blank: seq<byte>, start: seq<byte>, size: byte, crc: Crc, j: nat)
    requires |start| == 4 && j < HEADER_WORDS && Erased(blank, 0)
    ensures var mem := Program(blank, 0, Header(start, size, crc)[..4 * j]);
            Erased(mem, HEADER_WORDS) && Logged(mem, [])
            && (HeaderOk(Words(mem, 0, HEADER_WORDS), start, size) ==> size == 255)
  {
    var h := Header(start, size, crc);
    var mem := Program(blank, 0, h[..4 * j]);
    assert forall x {:trigger mem[x]} :: 4 * j <= x < 4 * SECTOR_WORDS ==> mem[x] == blank[x] == 255;
    ErasedIsNoRecord(mem, HEADER_WORDS, 0);
    var w := Words(mem, 0, HEADER_WORDS);
    assert forall x {:trigger w[x]} :: 0 <= x < 16 ==> w[x] == mem[x];
    assert w[12] == 255;
  }

  lemma OctetIndex(first: byte, i: nat)
    requires i < 256
    ensures ((first as int + i) % 256 - first) % 256 == i
  {
  }
}
