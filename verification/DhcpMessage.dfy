/** DHCP messages: the fixed header, parsing, and building a reply from the raw
    request. */
module DhcpMessage {
  import opened Machine
  import opened DhcpOptions

  const BOOTREPLY: byte := 2
  const COOKIE: seq<byte> := [0x63, 0x82, 0x53, 0x63]

  datatype Message = Message(
    op: byte, hops: byte, xid: seq<byte>, secs: nat, flags: nat, broadcast: bool,
    ciaddr: seq<byte>, yiaddr: seq<byte>, siaddr: seq<byte>, giaddr: seq<byte>, chaddr: seq<byte>,
    fields: Fields, key: seq<byte>)

  datatype Outcome = Parsed(msg: Message) | ErrShort | ErrNotDhcp | ErrMalformed | ErrParsing

  function Big16(hi: byte, lo: byte): nat {
    hi as int * 256 + lo
  }

  /** The header fields of a datagram, with the given option fields. */
  function ReadHeader(b: seq<byte>, f: Fields): Message
    requires |b| >= 44
  {
    Message(b[0], b[3], b[4..8], Big16(b[8], b[9]), Big16(b[10], b[11]), b[10] >= 128,
            b[12..16], b[16..20], b[20..24], b[24..28], b[28..44],
            f, if f.hasClientId then f.clientId else b[28..34])
  }

  /** dhcp_parse of a datagram of the given length; `prev` is what the message
      record held before. */
  function ParseMessage(buf: seq<byte>, len: nat, prev: Fields): Outcome
    requires len <= |buf|
  {
    if len < 240 then ErrShort
    else if buf[236..240] != COOKIE then ErrNotDhcp
    else if buf[1] != 1 || buf[2] != 6 then ErrMalformed
    else match ReadOptions(prev, Area(buf, len, 240))
      case Ok(f) => Parsed(ReadHeader(buf, f))
      case Malformed => ErrMalformed
      case Overrun => ErrParsing
  }

  /** A datagram is accepted if and only if it is long enough, carries the cookie,
      is for Ethernet, and no option before END overruns it or has a bad length. */
  lemma ParseAcceptsIff(buf: seq<byte>, len: nat, prev: Fields)
    requires len <= |buf|
    ensures ParseMessage(buf, len, prev).Parsed? <==>
            && len >= 240 && buf[236..240] == COOKIE && buf[1] == 1 && buf[2] == 6
            && !Split(Area(buf, len, 240)).overrun && AllLegal(Split(Area(buf, len, 240)).opts)
  {
    ReadAcceptsIff(prev, Area(buf, len, 240));
  }

  predicate AllLegal(opts: seq<Opt>) {
    forall i :: 0 <= i < |opts| ==> LengthOk(opts[i])
  }

  /** Which refusal: too short, no cookie, not Ethernet or a bad length, an overrun. */
  lemma ParseRefusesIff(buf: seq<byte>, len: nat, prev: Fields)
    requires len <= |buf|
    ensures var r := ParseMessage(buf, len, prev);
            && (r.ErrShort? <==> len < 240)
            && (r.ErrNotDhcp? <==> len >= 240 && buf[236..240] != [99, 130, 83, 99])
            && (r.ErrParsing? <==> len >= 240 && buf[236..240] == [99, 130, 83, 99] && buf[1] == 1 && buf[2] == 6
                                   && Split(Area(buf, len, 240)).overrun && AllLegal(Split(Area(buf, len, 240)).opts))
  {
    ReadRefusesIff(prev, Area(buf, len, 240));
  }

  /** Bit t of an accepted message is set if and only if a parameter list of this very
      message names t. */
  lemma BitmapOfMessage(buf: seq<byte>, len: nat, prev: Fields, t: byte)
    requires len <= |buf| && ParseMessage(buf, len, prev).Parsed?
    ensures var opts := Split(Area(buf, len, 240)).opts;
            t in ParseMessage(buf, len, prev).msg.fields.bitmap <==>
            exists i :: 0 <= i < |opts| && opts[i].code == 55 && t in opts[i].data
  {
    BitmapIff(Reset(prev), Split(Area(buf, len, 240)).opts, t);
  }

  /** Bytes at or past len never matter. */
  lemma ParseStaysInside(a: seq<byte>, b: seq<byte>, len: nat, prev: Fields)
    requires len <= |a| && len <= |b| && a[..len] == b[..len]
    ensures ParseMessage(a, len, prev) == ParseMessage(b, len, prev)
  {
    if len >= 240 {
      assert forall i {:trigger a[i]} :: 0 <= i < len ==> a[i] == a[..len][i] == b[..len][i] == b[i];
      assert a[236..240] == b[236..240] && Area(a, len, 240) == Area(b, len, 240);
      assert a[4..8] == b[4..8] && a[12..16] == b[12..16] && a[16..20] == b[16..20] && a[20..24] == b[20..24];
      assert a[24..28] == b[24..28] && a[28..44] == b[28..44] && a[28..34] == b[28..34];
    }
  }

  lemma {:induction false} LastExists(opts: seq<Opt>, code: byte) returns (i: nat)
    requires !Absent(opts, code)
    ensures LastOf(opts, code, i)
    decreases |opts|
  {
    var k := |opts| - 1;
    if opts[k].code == code {
      i := k;
    } else {
      i := LastExists(opts[..k], code);
    }
  }

  /** What an accepted message says about its options: each flag is set if and only
      if the option occurs, whatever the message record held before. */
  lemma FlagsIff(buf: seq<byte>, len: nat, prev: Fields)
    requires len <= |buf| && ParseMessage(buf, len, prev).Parsed?
    ensures var f, opts := ParseMessage(buf, len, prev).msg.fields, Split(Area(buf, len, 240)).opts;
            && (f.hasMessageType <==> !Absent(opts, 53)) && (f.hasRequestedIp <==> !Absent(opts, 50))
            && (f.hasServerId <==> !Absent(opts, 54)) && (f.hasClientId <==> !Absent(opts, 61))
  {
    var opts := Split(Area(buf, len, 240)).opts;
    SetsStay(Reset(prev), opts);
    FlagSet(Reset(prev), opts, MESSAGE_TYPE);
    FlagSet(Reset(prev), opts, REQUESTED_IP);
    FlagSet(Reset(prev), opts, SERVER_ID);
    FlagSet(Reset(prev), opts, CLIENT_ID);
  }

  lemma FlagSet(f: Fields, opts: seq<Opt>, code: byte)
    requires TakeAll(f, opts).Ok?
    ensures var g := TakeAll(f, opts).fields;
            !Absent(opts, code) ==>
              && (code == MESSAGE_TYPE ==> g.hasMessageType) && (code == REQUESTED_IP ==> g.hasRequestedIp)
              && (code == SERVER_ID ==> g.hasServerId) && (code == CLIENT_ID ==> g.hasClientId)
  {
    if !Absent(opts, code) {
      var i := LastExists(opts, code);
      LastWins(f, opts, i);
    }
  }

  /** dhcp_parse: the lease key of an accepted message is its client id if it has
      one, and otherwise the six bytes of its hardware address. */
  method DhcpParse(buf: seq<byte>, len: nat, prev: Fields) returns (r: Outcome)
    requires len <= |buf| && len < 65536
    ensures r == ParseMessage(buf, len, prev)
    ensures r.Parsed? <==>
            && len >= 240 && buf[236..240] == COOKIE && buf[1] == 1 && buf[2] == 6
            && !Split(Area(buf, len, 240)).overrun && AllLegal(Split(Area(buf, len, 240)).opts)
    ensures r.Parsed? ==> |r.msg.key| <= CID_CAP && (!r.msg.fields.hasClientId ==> r.msg.key == r.msg.chaddr[..6])
  {
    ParseAcceptsIff(buf, len, prev);
    if len < 240 {
      return ErrShort;
    }
    if buf[236..240] != COOKIE {
      return ErrNotDhcp;
    }
    if buf[1] != 1 || buf[2] != 6 {
      return ErrMalformed;
    }
    var s := ParseOptions(buf, len, prev);
    match s
    case Ok(f) =>
      ClientIdShort(Reset(prev), Split(Area(buf, len, 240)).opts);
      r := Parsed(ReadHeader(buf, f));
    case Malformed => r := ErrMalformed;
    case Overrun => r := ErrParsing;
  }

  lemma {:induction false} ClientIdShort(f: Fields, opts: seq<Opt>)
    requires TakeAll(f, opts).Ok? && (f.hasClientId ==> |f.clientId| <= CID_CAP)
    ensures TakeAll(f, opts).fields.hasClientId ==> |TakeAll(f, opts).fields.clientId| <= CID_CAP
    decreases |opts|
  {
    if opts != [] {
      ClientIdShort(Take(f, opts[0]), opts[1..]);
    }
  }

  // ---- replies ----

  datatype ServerCfg = ServerCfg(
    serverId: seq<byte>, leaseTime: nat, subnetMask: seq<byte>, router: seq<byte>,
    dns: seq<byte>, broadcastAddr: seq<byte>)

  predicate CfgOk(c: ServerCfg) {
    |c.serverId| == 4 && c.leaseTime < U32 && |c.subnetMask| == 4 && |c.router| == 4
    && |c.dns| == 4 && |c.broadcastAddr| == 4
  }

  function Be32(x: nat): seq<byte>
    requires x < U32
  {
    [x / 16777216, x / 65536 % 256, x / 256 % 256, x % 256]
  }

  function CfgOptions(c: ServerCfg): (opts: seq<Opt>)
    requires CfgOk(c)
    ensures |opts| == 6 && forall i :: 0 <= i < 6 ==> Writable(opts[i]) && |opts[i].data| == 4 && LengthOk(opts[i])
    ensures opts[0] == Opt(SERVER_ID, c.serverId)
    ensures forall i :: 0 <= i < 6 ==>
              opts[i].code != MESSAGE_TYPE && opts[i].code != CLIENT_ID && opts[i].code != REQUESTED_IP
    ensures forall i :: 1 <= i < 6 ==> opts[i].code != SERVER_ID
  {
    [Opt(SERVER_ID, c.serverId), Opt(LEASE_TIME, Be32(c.leaseTime)), Opt(SUBNET_MASK, c.subnetMask),
     Opt(ROUTER, c.router), Opt(DNS, c.dns), Opt(BROADCAST_ADDR, c.broadcastAddr)]
  }

  /** The options of every reply, in the order dhcp_build_reply lists them. */
  function ReplyOptions(f: Fields, kind: byte, c: ServerCfg): (opts: seq<Opt>)
    requires CfgOk(c)
  {
    [Opt(MESSAGE_TYPE, [kind])] + CfgOptions(c) + if f.hasClientId then [Opt(CLIENT_ID, f.clientId)] else []
  }

  /** The request's first 236 bytes with op, hops, secs and yiaddr rewritten. */
  function ReplyHeader(raw: seq<byte>, yiaddr: seq<byte>): (h: seq<byte>)
    requires |raw| >= 236 && |yiaddr| == 4
    ensures |h| == 236
  {
    raw[..236][0 := BOOTREPLY][3 := 0][8 := 0][9 := 0][16 := yiaddr[0]]
      [17 := yiaddr[1]][18 := yiaddr[2]][19 := yiaddr[3]]
  }

  /** The option area of a 300-byte reply. */
  function Padded(enc: seq<byte>): (r: seq<byte>)
    requires |enc| < 60
    ensures |r| == 60
  {
    enc + Fill(59 - |enc|, PAD) + [END]
  }

  lemma {:induction false} EncLength(opts: seq<Opt>)
    requires AllWritable(opts)
    ensures |EncAll(opts)| == Size(opts)
    decreases |opts|
  {
    if opts != [] {
      EncLength(opts[1..]);
    }
  }

  /** The opt_size of embedd_options. */
  function Size(opts: seq<Opt>): nat
    decreases |opts|
  {
    if opts == [] then 0 else 2 + |opts[0].data| + Size(opts[1..])
  }

  lemma {:induction false} SizeConcat(a: seq<Opt>, b: seq<Opt>)
    ensures Size(a + b) == Size(a) + Size(b)
    decreases |a|
  {
    if a == [] {
      assert a + b == b;
    } else {
      assert (a + b)[1..] == a[1..] + b;
      SizeConcat(a[1..], b);
    }
  }

  lemma {:induction false} SizeOfFours(opts: seq<Opt>)
    requires forall i :: 0 <= i < |opts| ==> |opts[i].data| == 4
    ensures Size(opts) == 6 * |opts|
    decreases |opts|
  {
    if opts != [] {
      SizeOfFours(opts[1..]);
    }
  }

  lemma ReplyOptionsFit(f: Fields, kind: byte, c: ServerCfg)
    requires CfgOk(c) && (f.hasClientId ==> |f.clientId| <= CID_CAP)
    ensures AllWritable(ReplyOptions(f, kind, c)) && |EncAll(ReplyOptions(f, kind, c))| <= 57
  {
    var first, last := [Opt(MESSAGE_TYPE, [kind])], if f.hasClientId then [Opt(CLIENT_ID, f.clientId)] else [];
    SizeOfFours(CfgOptions(c));
    SizeConcat(first, CfgOptions(c));
    SizeConcat(first + CfgOptions(c), last);
    EncLength(ReplyOptions(f, kind, c));
    assert Size(first) == 3 && Size(last) <= 18;
  }

  /** dhcp_build_reply's 300 bytes */
  function Reply(raw: seq<byte>, f: Fields, kind: byte, c: ServerCfg, yiaddr: seq<byte>): (r: seq<byte>)
    requires |raw| >= 236 && |yiaddr| == 4 && CfgOk(c) && (f.hasClientId ==> |f.clientId| <= CID_CAP)
    ensures |r| == 300
  {
    ReplyOptionsFit(f, kind, c);
    ReplyHeader(raw, yiaddr) + COOKIE + Padded(EncAll(ReplyOptions(f, kind, c)))
  }

  lemma ReplyHeaderFields(raw: seq<byte>, yiaddr: seq<byte>, rest: seq<byte>, f: Fields, g: Fields)
    requires |raw| >= 240 && |yiaddr| == 4
    requires f.hasClientId == g.hasClientId && (f.hasClientId ==> f.clientId == g.clientId)
    ensures var req, rep := ReadHeader(raw, f), ReadHeader(ReplyHeader(raw, yiaddr) + rest, g);
            && rep == req.(op := BOOTREPLY, hops := 0, secs := 0, yiaddr := yiaddr, fields := g)
  {
    var b := ReplyHeader(raw, yiaddr) + rest;
    assert forall i :: 10 <= i < 16 || 20 <= i < 236 || 4 <= i < 8 ==> b[i] == raw[i];
    assert b[4..8] == raw[4..8] && b[12..16] == raw[12..16] && b[20..24] == raw[20..24] && b[24..28] == raw[24..28];
    assert b[28..44] == raw[28..44] && b[28..34] == raw[28..34];
    assert b[16..20] == yiaddr;
  }

  /** The options of a reply, read back. */
  lemma ReplyOptionsRead(f: Fields, kind: byte, c: ServerCfg, prev: Fields)
    requires CfgOk(c) && (f.hasClientId ==> |f.clientId| <= CID_CAP)
    ensures var s := TakeAll(Reset(prev), ReplyOptions(f, kind, c));
            s.Ok? && var g := s.fields;
            && g.hasMessageType && g.messageType == kind && g.hasServerId && g.serverId == c.serverId
            && g.hasClientId == f.hasClientId && (f.hasClientId ==> g.clientId == f.clientId) && !g.hasRequestedIp
  {
    var opts := ReplyOptions(f, kind, c);
    AcceptsIff(Reset(prev), opts);
    LastWins(Reset(prev), opts, 0);
    LastWins(Reset(prev), opts, 1);
    SetsStay(Reset(prev), opts);
    if f.hasClientId {
      LastWins(Reset(prev), opts, 7);
    }
  }

  /** Build, then parse: for every request that parses, the reply is 300 bytes and
      parses to a BOOTREPLY with the given address, type and server, everything
      else echoed, and the same client id and lease key. */
  lemma ReplyRoundTrip(raw: seq<byte>, len: nat, prev: Fields, kind: byte, c: ServerCfg,
                         yiaddr: seq<byte>, prev2: Fields)
    requires len <= |raw| && ParseMessage(raw, len, prev).Parsed? && CfgOk(c) && |yiaddr| == 4
    ensures var m := ParseMessage(raw, len, prev).msg;
            && (m.fields.hasClientId ==> |m.fields.clientId| <= CID_CAP)
            && var back := ParseMessage(Reply(raw, m.fields, kind, c, yiaddr), 300, prev2);
            && back.Parsed?
            && back.msg == m.(op := BOOTREPLY, hops := 0, secs := 0, yiaddr := yiaddr, fields := back.msg.fields)
            && back.msg.fields.hasMessageType && back.msg.fields.messageType == kind
            && back.msg.fields.hasServerId && back.msg.fields.serverId == c.serverId
            && back.msg.fields.hasClientId == m.fields.hasClientId
            && (m.fields.hasClientId ==> back.msg.fields.clientId == m.fields.clientId)
  {
    var m := ParseMessage(raw, len, prev).msg;
    ClientIdShort(Reset(prev), Split(Area(raw, len, 240)).opts);
    ReplyParses(raw, m.fields, kind, c, yiaddr, prev2);
    ReplyOptionsRead(m.fields, kind, c, prev2);
    ReplyEchoes(raw, m.fields, kind, c, yiaddr, TakeAll(Reset(prev2), ReplyOptions(m.fields, kind, c)).fields);
  }

  lemma ReplyParses(raw: seq<byte>, f: Fields, kind: byte, c: ServerCfg, yiaddr: seq<byte>, prev: Fields)
    requires |raw| >= 240 && raw[1] == 1 && raw[2] == 6 && |yiaddr| == 4 && CfgOk(c)
    requires (f.hasClientId ==> |f.clientId| <= CID_CAP)
    ensures var r, s := Reply(raw, f, kind, c, yiaddr), TakeAll(Reset(prev), ReplyOptions(f, kind, c));
            s.Ok? && ParseMessage(r, 300, prev) == Parsed(ReadHeader(r, s.fields))
  {
    var opts := ReplyOptions(f, kind, c);
    ReplyOptionsFit(f, kind, c);
    ReplySlices(ReplyHeader(raw, yiaddr), Padded(EncAll(opts)));
    ReplyArea(opts);
    ReplyOptionsRead(f, kind, c, prev);
  }

  lemma ReplyEchoes(raw: seq<byte>, f: Fields, kind: byte, c: ServerCfg, yiaddr: seq<byte>, g: Fields)
    requires |raw| >= 240 && |yiaddr| == 4 && CfgOk(c) && (f.hasClientId ==> |f.clientId| <= CID_CAP)
    requires f.hasClientId == g.hasClientId && (f.hasClientId ==> f.clientId == g.clientId)
    ensures ReadHeader(Reply(raw, f, kind, c, yiaddr), g)
            == ReadHeader(raw, f).(op := BOOTREPLY, hops := 0, secs := 0, yiaddr := yiaddr, fields := g)
  {
    ReplyOptionsFit(f, kind, c);
    var tail := Padded(EncAll(ReplyOptions(f, kind, c)));
    ReplySlices(ReplyHeader(raw, yiaddr), tail);
    ReplyHeaderFields(raw, yiaddr, COOKIE + tail, f, g);
  }

  lemma ReplySlices(h: seq<byte>, tail: seq<byte>)
    requires |h| == 236 && |tail| == 60
    ensures var r := h + COOKIE + tail;
            r == h + (COOKIE + tail) && r[236..240] == COOKIE && Area(r, 300, 240) == tail
            && r[1] == h[1] && r[2] == h[2]
  {
  }

  lemma ReplyArea(opts: seq<Opt>)
    requires AllWritable(opts) && |EncAll(opts)| < 60
    ensures Split(Padded(EncAll(opts))) == Tlv(opts, false)
  {
    var pad := Fill(59 - |EncAll(opts)|, PAD) + [END];
    assert Padded(EncAll(opts)) == EncAll(opts) + pad;
    SplitEnc(opts, pad);
    SplitPadding(59 - |EncAll(opts)|);
    assert opts + [] == opts;
  }

  // ---- the reply on the wire ----

  function FromBe(b: seq<byte>): nat
    requires |b| == 4
  {
    b[0] as int * 16777216 + b[1] as int * 65536 + b[2] as int * 256 + b[3] as int
  }

  lemma BeRoundTrip(x: nat)
    requires x < U32
    ensures FromBe(Be32(x)) == x
  {
    assert x / 65536 == x / 256 / 256 && x / 16777216 == x / 256 / 256 / 256;
  }

  /** Exactly one option of this code occurs, with this data. */
  ghost predicate Only(opts: seq<Opt>, code: byte, data: seq<byte>) {
    exists i :: 0 <= i < |opts| && opts[i] == Opt(code, data)
                && forall j :: 0 <= j < |opts| && opts[j].code == code ==> j == i
  }

  /** The options carry the message type, the whole configuration, and the client id
      if the request had one, under the codes of RFC 2132. */
  ghost predicate Configured(opts: seq<Opt>, f: Fields, kind: byte, c: ServerCfg)
    requires CfgOk(c)
  {
    && Only(opts, 53, [kind]) && Only(opts, 54, c.serverId) && Only(opts, 1, c.subnetMask)
    && Only(opts, 3, c.router) && Only(opts, 6, c.dns) && Only(opts, 28, c.broadcastAddr)
    && (exists b: seq<byte> :: |b| == 4 && Only(opts, 51, b) && FromBe(b) == c.leaseTime)
    && (if f.hasClientId then Only(opts, 61, f.clientId) else Absent(opts, 61))
  }

  lemma OnlyAt(opts: seq<Opt>, i: nat)
    requires i < |opts| && forall j :: 0 <= j < |opts| && opts[j].code == opts[i].code ==> j == i
    ensures Only(opts, opts[i].code, opts[i].data)
  {
    assert opts[i] == Opt(opts[i].code, opts[i].data);
  }

  lemma OptionsConfigured(f: Fields, kind: byte, c: ServerCfg)
    requires CfgOk(c)
    ensures Configured(ReplyOptions(f, kind, c), f, kind, c)
  {
    var opts := ReplyOptions(f, kind, c);
    BeRoundTrip(c.leaseTime);
    assert opts[0] == Opt(MESSAGE_TYPE, [kind]) && opts[1] == Opt(SERVER_ID, c.serverId);
    assert opts[2] == Opt(LEASE_TIME, Be32(c.leaseTime)) && opts[3] == Opt(SUBNET_MASK, c.subnetMask);
    assert opts[4] == Opt(ROUTER, c.router) && opts[5] == Opt(DNS, c.dns);
    assert opts[6] == Opt(BROADCAST_ADDR, c.broadcastAddr);
    forall i | 0 <= i < 7 ensures Only(opts, opts[i].code, opts[i].data) {
      OnlyAt(opts, i);
    }
    if f.hasClientId {
      assert opts[7] == Opt(CLIENT_ID, f.clientId);
      OnlyAt(opts, 7);
    }
  }

  /** What a client reads off a reply: every configured value under its own option
      code, once. */
  lemma ReplyConfigured(raw: seq<byte>, f: Fields, kind: byte, c: ServerCfg, yiaddr: seq<byte>)
    requires |raw| >= 236 && |yiaddr| == 4 && CfgOk(c) && (f.hasClientId ==> |f.clientId| <= CID_CAP)
    ensures var t := Split(Area(Reply(raw, f, kind, c, yiaddr), 300, 240));
            !t.overrun && Configured(t.opts, f, kind, c)
  {
    var opts := ReplyOptions(f, kind, c);
    ReplyOptionsFit(f, kind, c);
    ReplySlices(ReplyHeader(raw, yiaddr), Padded(EncAll(opts)));
    ReplyArea(opts);
    OptionsConfigured(f, kind, c);
  }

  /** The fixed part of a reply, byte by byte: op, hops, secs and yiaddr are set, and
      every other byte of the request, names included, is echoed; the rest is padded
      with zeros, and END is the last of the 300 bytes. */
  lemma ReplyBytes(raw: seq<byte>, f: Fields, kind: byte, c: ServerCfg, yiaddr: seq<byte>)
    requires |raw| >= 236 && |yiaddr| == 4 && CfgOk(c) && (f.hasClientId ==> |f.clientId| <= CID_CAP)
    ensures var r := Reply(raw, f, kind, c, yiaddr);
            && r[0] == 2 && r[3] == 0 && r[8] == 0 && r[9] == 0 && r[16..20] == yiaddr
            && r[236] == 99 && r[237] == 130 && r[238] == 83 && r[239] == 99 && r[299] == 255
            && (forall i :: 240 + Size(ReplyOptions(f, kind, c)) <= i < 299 ==> r[i] == 0)
            && forall i :: 0 <= i < 236 && i !in {0, 3, 8, 9, 16, 17, 18, 19} ==> r[i] == raw[i]
  {
    ReplyOptionsFit(f, kind, c);
    EncLength(ReplyOptions(f, kind, c));
  }

  // ---- the request on the wire ----

  function Be16(x: nat): seq<byte>
    requires x < 65536
  {
    [x / 256, x % 256]
  }

  /** A datagram laid out as section 2 of RFC 2131 draws it. */
  function Datagram(m: Message, sname: seq<byte>, file: seq<byte>, options: seq<byte>): seq<byte>
    requires m.secs < 65536 && m.flags < 65536
  {
    [m.op, 1, 6, m.hops] + m.xid + Be16(m.secs) + Be16(m.flags) + m.ciaddr + m.yiaddr + m.siaddr + m.giaddr + m.chaddr
    + sname + file + [99, 130, 83, 99] + options
  }

  predicate WellFormed(m: Message, sname: seq<byte>, file: seq<byte>) {
    && m.secs < 65536 && m.flags < 65536 && |m.xid| == 4 && |m.ciaddr| == 4 && |m.yiaddr| == 4 && |m.siaddr| == 4
    && |m.giaddr| == 4 && |m.chaddr| == 16 && |sname| == 64 && |file| == 128 && m.broadcast == (m.flags >= 32768)
    && m.key == if m.fields.hasClientId then m.fields.clientId else m.chaddr[..6]
  }

  /** Whatever a client writes into the header fields of RFC 2131 is what the parse
      returns under those names. */
  lemma HeaderRead(m: Message, sname: seq<byte>, file: seq<byte>, options: seq<byte>)
    requires WellFormed(m, sname, file)
    ensures var b := Datagram(m, sname, file, options);
            && |b| == 240 + |options| && b[236..240] == COOKIE && b[1] == 1 && b[2] == 6 && b[240..] == options
            && ReadHeader(b, m.fields) == m
  {
    var b := Datagram(m, sname, file, options);
    assert b[4..8] == m.xid && b[8] == m.secs / 256 && b[9] == m.secs % 256;
    assert b[10] == m.flags / 256 && b[11] == m.flags % 256;
    assert b[12..16] == m.ciaddr && b[16..20] == m.yiaddr && b[20..24] == m.siaddr && b[24..28] == m.giaddr;
    assert b[28..44] == m.chaddr;
    assert b[28..34] == m.chaddr[..6];
    assert b[236..240] == COOKIE;
  }

  /** A message written by the standard's layout, with any legal options, parses to
      exactly that message. */
  lemma RequestRoundTrip(m: Message, sname: seq<byte>, file: seq<byte>, opts: seq<Opt>, prev: Fields)
    requires WellFormed(m, sname, file) && AllWritable(opts) && TakeAll(Reset(prev), opts) == Ok(m.fields)
    ensures var b := Datagram(m, sname, file, EncAll(opts) + [255]); ParseMessage(b, |b|, prev) == Parsed(m)
  {
    var tail := EncAll(opts) + [END];
    var b := Datagram(m, sname, file, tail);
    HeaderRead(m, sname, file, tail);
    assert Area(b, |b|, 240) == tail;
    SplitEnc(opts, [END]);
    assert Split([END]) == Tlv([], false);
    assert opts + [] == opts;
  }
}
