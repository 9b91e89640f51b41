/** The option area of a DHCP message: tag-length-value format, its reading into
    the server's message record, and its writing. */
module DhcpOptions {
  import opened Machine

  const PAD: byte := 0
  const SUBNET_MASK: byte := 1
  const ROUTER: byte := 3
  const DNS: byte := 6
  const BROADCAST_ADDR: byte := 28
  const REQUESTED_IP: byte := 50
  const LEASE_TIME: byte := 51
  const MESSAGE_TYPE: byte := 53
  const SERVER_ID: byte := 54
  const PARAMETER_LIST: byte := 55
  const CLIENT_ID: byte := 61
  const END: byte := 255
  const CID_CAP: nat := 16

  datatype Opt = Opt(code: byte, data: seq<byte>)

  /** The options up to END or the end of the area; `overrun` if the next one
      declares more data than is left. */
  datatype Tlv = Tlv(opts: seq<Opt>, overrun: bool)

  function Split(b: seq<byte>): Tlv
    decreases |b|
  {
    if |b| < 2 || b[0] == END then Tlv([], false)
    else if b[0] == PAD then Split(b[1..])
    else if 2 + b[1] as int > |b| then Tlv([], true)
    else
      var n := b[1] as int;
      var rest := Split(b[2 + n..]);
      Tlv([Opt(b[0], b[2..2 + n])] + rest.opts, rest.overrun)
  }

  // ---- meaning of the options ----

  /** The option fields of dhcp_msg_t. A value is meaningful when its flag is set;
      bit t of the bitmap is bit t mod 8 of byte t / 8. */
  datatype Fields = Fields(
    requestedIp: seq<byte>, hasRequestedIp: bool,
    messageType: byte, hasMessageType: bool,
    serverId: seq<byte>, hasServerId: bool,
    clientId: seq<byte>, hasClientId: bool,
    bitmap: set<byte>)

  datatype Status = Ok(fields: Fields) | Overrun | Malformed

  /** The state parse_options starts from: values of an earlier message stay. */
  function Reset(f: Fields): Fields {
    f.(hasRequestedIp := false, hasMessageType := false, hasServerId := false, hasClientId := false, bitmap := {})
  }

  predicate LengthOk(o: Opt) {
    && ((o.code == REQUESTED_IP || o.code == SERVER_ID) ==> |o.data| == 4)
    && (o.code == MESSAGE_TYPE ==> |o.data| == 1)
    && (o.code == CLIENT_ID ==> |o.data| <= CID_CAP)
  }

  function Bits(data: seq<byte>): (r: set<byte>)
    ensures forall t: byte :: t in r <==> t in data
  {
    if data == [] then {} else {data[0]} + Bits(data[1..])
  }

  /** One option of the right length. */
  function Take(f: Fields, o: Opt): Fields
    requires LengthOk(o)
  {
    if o.code == REQUESTED_IP then f.(hasRequestedIp := true, requestedIp := o.data)
    else if o.code == MESSAGE_TYPE then f.(hasMessageType := true, messageType := o.data[0])
    else if o.code == SERVER_ID then f.(hasServerId := true, serverId := o.data)
    else if o.code == PARAMETER_LIST then f.(bitmap := f.bitmap + Bits(o.data))
    else if o.code == CLIENT_ID then f.(hasClientId := true, clientId := o.data)
    else f
  }

  function TakeAll(f: Fields, opts: seq<Opt>): Status
    decreases |opts|
  {
    if opts == [] then Ok(f)
    else if !LengthOk(opts[0]) then Malformed
    else TakeAll(Take(f, opts[0]), opts[1..])
  }

  /** What parse_options makes of the option area b. */
  function ReadOptions(f: Fields, b: seq<byte>): Status {
    match TakeAll(Reset(f), Split(b).opts)
    case Ok(g) => if Split(b).overrun then Overrun else Ok(g)
    case e => e
  }

  /** The outcome still to come from fields f and the rest of the options. */
  function Continue(f: Fields, t: Tlv): Status {
    match TakeAll(f, t.opts)
    case Ok(g) => if t.overrun then Overrun else Ok(g)
    case e => e
  }

  lemma ContinueOption(f: Fields, b: seq<byte>, n: nat, o: Opt, rest: seq<byte>)
    requires |b| >= 2 && b[0] != PAD && b[0] != END && n == b[1] as int && 2 + n <= |b|
    requires o == Opt(b[0], b[2..2 + n]) && rest == b[2 + n..]
    ensures Continue(f, Split(b)) == if LengthOk(o) then Continue(Take(f, o), Split(rest)) else Malformed
  {
    TakeFirst(f, o, Split(rest));
  }

  lemma TakeFirst(f: Fields, o: Opt, rest: Tlv)
    ensures Continue(f, Tlv([o] + rest.opts, rest.overrun)) ==
            if LengthOk(o) then Continue(Take(f, o), rest) else Malformed
  {
    assert ([o] + rest.opts)[1..] == rest.opts;
  }

  /** The bytes of a datagram of length len from pos on. */
  function Area(buf: seq<byte>, len: nat, pos: nat): seq<byte>
    requires len <= |buf|
  {
    if len <= pos then [] else buf[pos..len]
  }

  /** What is still to come once the bytes before pos are read into f. */
  function Pending(f: Fields, buf: seq<byte>, len: nat, pos: nat): Status
    requires len <= |buf|
  {
    Continue(f, Split(Area(buf, len, pos)))
  }

  lemma SubSlice(s: seq<byte>, a: nat, b: nat, c: nat, d: nat)
    requires a <= b <= |s| && c <= d <= b - a
    ensures s[a..b][c..d] == s[a + c..a + d]
  {
    var l, r := s[a..b][c..d], s[a + c..a + d];
    assert forall i :: 0 <= i < d - c ==> l[i] == s[a + c + i];
    assert forall i :: 0 <= i < d - c ==> r[i] == s[a + c + i];
  }

  lemma PendingEnds(f: Fields, buf: seq<byte>, len: nat, pos: nat)
    requires len <= |buf|
    ensures pos + 1 >= len || buf[pos] == END ==> Pending(f, buf, len, pos) == Ok(f)
    ensures pos + 1 < len && buf[pos] == PAD ==> Pending(f, buf, len, pos) == Pending(f, buf, len, pos + 1)
  {
    if pos + 1 < len && buf[pos] == PAD {
      assert buf[pos..len][1..] == buf[pos + 1..len];
    }
  }

  lemma PendingOverrun(f: Fields, buf: seq<byte>, len: nat, pos: nat)
    requires len <= |buf| && pos + 1 < len && buf[pos] != PAD && buf[pos] != END && pos + 2 + buf[pos + 1] as int > len
    ensures Pending(f, buf, len, pos) == Overrun
  {
  }

  lemma PendingOption(f: Fields, buf: seq<byte>, len: nat, pos: nat, n: nat, o: Opt)
    requires len <= |buf| && pos + 1 < len && buf[pos] != PAD && buf[pos] != END && n == buf[pos + 1] as int
    requires pos + 2 + n <= len && o == Opt(buf[pos], buf[pos + 2..pos + 2 + n])
    ensures Pending(f, buf, len, pos) == if LengthOk(o) then Pending(Take(f, o), buf, len, pos + 2 + n) else Malformed
  {
    var b := buf[pos..len];
    SubSlice(buf, pos, len, 2, 2 + n);
    SubSlice(buf, pos, len, 2 + n, len - pos);
    assert b[2 + n..] == b[2 + n..len - pos] == Area(buf, len, pos + 2 + n);
    ContinueOption(f, b, n, o, Area(buf, len, pos + 2 + n));
  }

  /** The body of parse_options for one option at pos. */
  method ParseOne(buf: seq<byte>, len: nat, pos: nat, f: Fields) returns (r: Status, next: nat)
    requires len <= |buf| && pos + 1 < len && buf[pos] != PAD && buf[pos] != END
    ensures pos < next
    ensures Pending(f, buf, len, pos) == if r.Ok? then Pending(r.fields, buf, len, next) else r
  {
    var n := buf[pos + 1] as int;
    next := pos + 2 + n;
    if next > len {
      PendingOverrun(f, buf, len, pos);
      return Overrun, next;
    }
    var o := Opt(buf[pos], buf[pos + 2..next]);
    PendingOption(f, buf, len, pos, n, o);
    if !LengthOk(o) {
      return Malformed, next;
    }
    r := Ok(Take(f, o));
  }

  /** parse_options: the loop over positions from 240 to len. */
  method ParseOptions(buf: seq<byte>, len: nat, prev: Fields) returns (r: Status)
    requires len <= |buf| && len < 65536
    ensures r == ReadOptions(prev, Area(buf, len, 240))
  {
    r := Ok(Reset(prev));
    var pos := 240;
    ghost var want := Pending(r.fields, buf, len, pos);
    while pos + 1 < len
      invariant 240 <= pos && r.Ok? && want == Pending(r.fields, buf, len, pos)
      decreases len - pos
    {
      PendingEnds(r.fields, buf, len, pos);
      if buf[pos] == PAD {
        pos := pos + 1;
      } else if buf[pos] == END {
        return;
      } else {
        r, pos := ParseOne(buf, len, pos, r.fields);
        if !r.Ok? {
          return;
        }
      }
    }
    PendingEnds(r.fields, buf, len, pos);
  }

  // ---- what the specification says, declaratively ----

  /** Accepted exactly when no option before END overruns and every known option
      has a legal length. */
  lemma {:induction false} AcceptsIff(f: Fields, opts: seq<Opt>)
    ensures TakeAll(f, opts).Ok? <==> forall i :: 0 <= i < |opts| ==> LengthOk(opts[i])
    ensures !TakeAll(f, opts).Overrun?
    decreases |opts|
  {
    if opts != [] {
      if LengthOk(opts[0]) {
        AcceptsIff(Take(f, opts[0]), opts[1..]);
        assert forall i :: 0 < i < |opts| ==> opts[i] == opts[1..][i - 1];
      }
    }
  }

  lemma ReadAcceptsIff(f: Fields, b: seq<byte>)
    ensures ReadOptions(f, b).Ok? <==> !Split(b).overrun && forall i :: 0 <= i < |Split(b).opts| ==>
              LengthOk(Split(b).opts[i])
  {
    AcceptsIff(Reset(f), Split(b).opts);
  }

  /** Which refusal: a bad length anywhere before END wins over an overrun. */
  lemma ReadRefusesIff(f: Fields, b: seq<byte>)
    ensures ReadOptions(f, b).Malformed? <==> exists i :: 0 <= i < |Split(b).opts| && !LengthOk(Split(b).opts[i])
    ensures ReadOptions(f, b).Overrun? <==>
            Split(b).overrun && forall i :: 0 <= i < |Split(b).opts| ==> LengthOk(Split(b).opts[i])
  {
    AcceptsIff(Reset(f), Split(b).opts);
  }

  /** Option i is the last of its code. */
  ghost predicate LastOf(opts: seq<Opt>, code: byte, i: nat) {
    i < |opts| && opts[i].code == code && forall j :: i < j < |opts| ==> opts[j].code != code
  }

  ghost predicate Absent(opts: seq<Opt>, code: byte) {
    forall j :: 0 <= j < |opts| ==> opts[j].code != code
  }

  lemma {:induction false} SetsStay(f: Fields, opts: seq<Opt>)
    requires TakeAll(f, opts).Ok?
    ensures var g := TakeAll(f, opts).fields;
            && (Absent(opts, MESSAGE_TYPE) ==> g.hasMessageType == f.hasMessageType && g.messageType == f.messageType)
            && (Absent(opts, REQUESTED_IP) ==> g.hasRequestedIp == f.hasRequestedIp && g.requestedIp == f.requestedIp)
            && (Absent(opts, SERVER_ID) ==> g.hasServerId == f.hasServerId && g.serverId == f.serverId)
            && (Absent(opts, CLIENT_ID) ==> g.hasClientId == f.hasClientId && g.clientId == f.clientId)
    decreases |opts|
  {
    if opts != [] {
      SetsStay(Take(f, opts[0]), opts[1..]);
      forall code: byte | Absent(opts, code) ensures Absent(opts[1..], code) && opts[0].code != code {
      }
    }
  }

  /** The last occurrence of an option wins. */
  lemma {:induction false} LastWins(f: Fields, opts: seq<Opt>, i: nat)
    requires TakeAll(f, opts).Ok? && i < |opts| && LastOf(opts, opts[i].code, i)
    ensures var g, o := TakeAll(f, opts).fields, opts[i];
            && LengthOk(o)
            && (o.code == MESSAGE_TYPE ==> g.hasMessageType && g.messageType == o.data[0])
            && (o.code == REQUESTED_IP ==> g.hasRequestedIp && g.requestedIp == o.data)
            && (o.code == SERVER_ID ==> g.hasServerId && g.serverId == o.data)
            && (o.code == CLIENT_ID ==> g.hasClientId && g.clientId == o.data)
    decreases |opts|
  {
    if i == 0 {
      assert Absent(opts[1..], opts[0].code);
      SetsStay(Take(f, opts[0]), opts[1..]);
    } else {
      assert LastOf(opts[1..], opts[1..][i - 1].code, i - 1);
      LastWins(Take(f, opts[0]), opts[1..], i - 1);
    }
  }

  /** Bit t is set exactly when some parameter list before END names t. */
  lemma {:induction false} BitmapIff(f: Fields, opts: seq<Opt>, t: byte)
    requires TakeAll(f, opts).Ok?
    ensures t in TakeAll(f, opts).fields.bitmap <==>
            t in f.bitmap || exists i :: 0 <= i < |opts| && opts[i].code == PARAMETER_LIST && t in opts[i].data
    decreases |opts|
  {
    if opts != [] {
      BitmapIff(Take(f, opts[0]), opts[1..], t);
      assert forall i :: 0 < i < |opts| ==> opts[i] == opts[1..][i - 1];
      assert (exists i :: 0 <= i < |opts| && opts[i].code == PARAMETER_LIST && t in opts[i].data) <==>
             ((opts[0].code == PARAMETER_LIST && t in opts[0].data)
              || exists i :: 0 <= i < |opts[1..]| && opts[1..][i].code == PARAMETER_LIST && t in opts[1..][i].data) by {
        if i :| 0 < i < |opts| && opts[i].code == PARAMETER_LIST && t in opts[i].data {
          assert opts[1..][i - 1] == opts[i];
        }
      }
    }
  }

  // ---- writing ----

  predicate Writable(o: Opt) {
    o.code != PAD && o.code != END && |o.data| < 256
  }

  function Enc(o: Opt): seq<byte>
    requires |o.data| < 256
  {
    [o.code, |o.data|] + o.data
  }

  predicate AllWritable(opts: seq<Opt>) {
    forall i :: 0 <= i < |opts| ==> Writable(opts[i])
  }

  function EncAll(opts: seq<Opt>): seq<byte>
    requires AllWritable(opts)
    decreases |opts|
  {
    if opts == [] then [] else Enc(opts[0]) + EncAll(opts[1..])
  }

  lemma SplitOne(o: Opt, rest: seq<byte>)
    requires Writable(o)
    ensures Split(Enc(o) + rest) == Tlv([o] + Split(rest).opts, Split(rest).overrun)
  {
    var b, n := Enc(o) + rest, |o.data|;
    assert b[0] == o.code && b[1] == n;
    assert b[2..2 + n] == o.data && b[2 + n..] == rest;
  }

  /** Written options read back as they were, whatever follows. */
  lemma {:induction false} SplitEnc(opts: seq<Opt>, rest: seq<byte>)
    requires AllWritable(opts)
    ensures Split(EncAll(opts) + rest) == Tlv(opts + Split(rest).opts, Split(rest).overrun)
    decreases |opts|
  {
    if opts == [] {
      assert EncAll(opts) + rest == rest;
    } else {
      Associative(Enc(opts[0]), EncAll(opts[1..]), rest);
      SplitOne(opts[0], EncAll(opts[1..]) + rest);
      SplitEnc(opts[1..], rest);
      Associative([opts[0]], opts[1..], Split(rest).opts);
      assert [opts[0]] + opts[1..] == opts;
    }
  }

  lemma Associative<T>(a: seq<T>, b: seq<T>, c: seq<T>)
    ensures (a + b) + c == a + (b + c)
  {
  }

  /** The edges of the format: padding is skipped, END and a lone last byte end the
      list, and an option that claims more than is left overruns. */
  lemma SplitEdges(code: byte, n: byte, data: seq<byte>, rest: seq<byte>)
    requires code != 0 && code != 255
    ensures |rest| >= 1 ==> Split([0] + rest) == Split(rest)
    ensures Split([255] + rest) == Tlv([], false) && Split([code]) == Tlv([], false)
    ensures |data| < n as int ==> Split([code, n] + data) == Tlv([], true)
  {
    assert ([0] + rest)[1..] == rest;
  }

  /** The legal lengths by option code. */
  lemma LengthRules(o: Opt)
    ensures LengthOk(o) <==>
            ((o.code == 50 || o.code == 54) ==> |o.data| == 4) && (o.code == 53 ==> |o.data| == 1)
            && (o.code == 61 ==> |o.data| <= 16)
  {
  }

  lemma {:induction false} SplitPadding(n: nat)
    ensures Split(Fill(n, PAD) + [END]) == Tlv([], false)
  {
    if n > 0 {
      var b := Fill(n, PAD) + [END];
      assert b[0] == PAD;
      assert b[1..] == Fill(n - 1, PAD) + [END];
      SplitPadding(n - 1);
    }
  }
}
