/** One round of the server's loop: a datagram in, at most one reply out, with the
    lease table and its journal in between. */
module DhcpService {
  import opened Machine
  import opened Queues
  import opened DhcpOptions
  import opened DhcpMessage
  import DhcpBuild
  import Leases
  import Journal
  import LeaseServer

  /** The message types of RFC 2132 the server knows. */
  const DISCOVER: byte := 1
  const OFFER: byte := 2
  const REQUEST: byte := 3
  const DECLINE: byte := 4
  const ACK: byte := 5
  const RELEASE: byte := 7

  /** Is the message for this server: it names no server, or this one? */
  predicate ForUs(m: Message, serverId: seq<byte>) {
    m.fields.hasServerId ==> m.fields.serverId == serverId
  }

  predicate Shaped(m: Message) {
    |m.ciaddr| == 4 && (m.fields.hasRequestedIp ==> |m.fields.requestedIp| == 4)
  }

  /** The address a message is about. */
  function About(m: Message): (a: seq<byte>)
    requires Shaped(m)
    ensures |a| == 4
  {
    if m.fields.hasMessageType && m.fields.messageType == REQUEST && m.fields.hasRequestedIp then m.fields.requestedIp
    else m.ciaddr
  }

  /** What a parsed message asks of the lease table, if anything. */
  function Meaning(m: Message, serverId: seq<byte>): Option<Leases.Msg>
    requires Shaped(m)
  {
    if m.op != 1 || !m.fields.hasMessageType then None
    else if m.fields.messageType == DISCOVER then Some(Leases.Discover(m.key))
    else if m.fields.messageType == REQUEST then Some(Leases.Request(m.key, ForUs(m, serverId), About(m)[3]))
    else if m.fields.messageType == DECLINE then
      Some(Leases.Decline(m.key, if m.fields.hasRequestedIp then Some(m.fields.requestedIp[3]) else None))
    else if m.fields.messageType == RELEASE then Some(Leases.Release(m.key, m.ciaddr[3]))
    else None
  }

  /** The codes of RFC 2131 and RFC 2132 and the fields that go with them. */
  lemma MeaningOf(m: Message, serverId: seq<byte>)
    requires Shaped(m)
    ensures var r, t := Meaning(m, serverId), m.fields.messageType;
            && (r.Some? <==> m.op == 1 && m.fields.hasMessageType && t in {1, 3, 4, 7})
            && (r.Some? ==> r.value.key == m.key)
            && (r.Some? && t == 1 ==> r.value.Discover?)
            && (r.Some? && t == 3 ==>
                  && r.value.Request?
                  && r.value.octet == (if m.fields.hasRequestedIp then m.fields.requestedIp else m.ciaddr)[3]
                  && (r.value.forUs <==> !m.fields.hasServerId || m.fields.serverId == serverId))
            && (r.Some? && t == 4 ==>
                  && r.value.Decline? && (r.value.requested.Some? <==> m.fields.hasRequestedIp)
                  && (m.fields.hasRequestedIp ==> r.value.requested == Some(m.fields.requestedIp[3])))
            && (r.Some? && t == 7 ==> r.value.Release? && r.value.octet == m.ciaddr[3])
  {
  }

  lemma {:induction false} RequestedShaped(f: Fields, opts: seq<Opt>)
    requires TakeAll(f, opts).Ok? && (f.hasRequestedIp ==> |f.requestedIp| == 4)
    ensures TakeAll(f, opts).fields.hasRequestedIp ==> |TakeAll(f, opts).fields.requestedIp| == 4
    decreases |opts|
  {
    if opts != [] {
      RequestedShaped(Take(f, opts[0]), opts[1..]);
    }
  }

  lemma ParsedShaped(raw: seq<byte>, len: nat, prev: Fields)
    requires len <= |raw| && ParseMessage(raw, len, prev).Parsed?
    ensures Shaped(ParseMessage(raw, len, prev).msg)
  {
    RequestedShaped(Reset(prev), Split(Area(raw, len, 240)).opts);
  }

  /** What the datagram asks of the lease table. */
  function Asked(raw: seq<byte>, len: nat, prev: Fields, serverId: seq<byte>): Option<Leases.Msg>
    requires len <= |raw|
  {
    match ParseMessage(raw, len, prev)
    case Parsed(m) => if Shaped(m) then Meaning(m, serverId) else None
    case _ => None
  }

  /** The reply is the one the lease table gave, for the client that asked. */
  ghost predicate Answers(reply: seq<byte>, m: Message, r: Leases.Reply, yiaddr: seq<byte>, serverId: seq<byte>,
                          prev: Fields) {
    |reply| == 300
    && match ParseMessage(reply, 300, prev)
       case Parsed(b) =>
         && b.op == 2 && b.xid == m.xid && b.flags == m.flags && b.chaddr == m.chaddr && b.giaddr == m.giaddr
         && b.ciaddr == m.ciaddr && b.key == m.key && b.yiaddr == yiaddr
         && b.fields.hasMessageType && b.fields.messageType == (if r.Offer? then 2 else 5)
         && b.fields.hasServerId && b.fields.serverId == serverId
       case _ => false
  }

  /** A reply built for a parsed request answers it. */
  lemma ReplyAnswers(raw: seq<byte>, len: nat, prev: Fields, c: ServerCfg, r: Leases.Reply, yiaddr: seq<byte>,
                     prev2: Fields)
    requires len <= |raw| && ParseMessage(raw, len, prev).Parsed? && CfgOk(c) && |yiaddr| == 4 && !r.NoReply?
    ensures var m := ParseMessage(raw, len, prev).msg;
            && |raw| >= 236 && (m.fields.hasClientId ==> |m.fields.clientId| <= CID_CAP)
            && Answers(Reply(raw, m.fields, if r.Offer? then OFFER else ACK, c, yiaddr), m, r, yiaddr, c.serverId,
                       prev2)
  {
    ReplyRoundTrip(raw, len, prev, if r.Offer? then OFFER else ACK, c, yiaddr, prev2);
  }

  /** The reply goes into the buffer, and every way of parsing it answers the request. */
  method Send(raw: seq<byte>, len: nat, prev: Fields, m: Message, r: Leases.Reply, yiaddr: seq<byte>, c: ServerCfg,
              out: array<byte>)
    requires len <= |raw| && ParseMessage(raw, len, prev) == Parsed(m) && !r.NoReply?
    requires CfgOk(c) && |yiaddr| == 4 && out.Length >= 300
    modifies out
    ensures forall prev2: Fields :: Answers(out[..300], m, r, yiaddr, c.serverId, prev2)
    ensures Configured(Split(Area(out[..300], 300, 240)).opts, m.fields, if r.Offer? then 2 else 5, c)
  {
    ReplyAnswers(raw, len, prev, c, r, yiaddr, prev);
    var ok, replyLen := DhcpBuild.BuildReply(raw, m.fields, if r.Offer? then OFFER else ACK, c, yiaddr, out);
    forall prev2: Fields ensures Answers(out[..300], m, r, yiaddr, c.serverId, prev2) {
      ReplyAnswers(raw, len, prev, c, r, yiaddr, prev2);
    }
  }

  /** A parsed message and the lease table: nothing happens unless the message asks
      for something, and then exactly one step does. */
  method Consult(server: LeaseServer.Server, m: Message, serverId: seq<byte>, now: nat)
    returns (r: Leases.Reply, yiaddr: seq<byte>)
    requires server.Valid() && server.writePointer + Journal.RECORD_WORDS <= Journal.SECTOR_WORDS && Shaped(m)
    modifies server
    ensures server.Valid() && |yiaddr| == 4
    ensures Meaning(m, serverId).None? ==> r.NoReply? && server.table == old(server.table)
    ensures Meaning(m, serverId).Some? ==>
              (server.table, r) == Leases.Handle(old(server.table), server.Config(), Meaning(m, serverId).value, now)
    ensures !r.NoReply? ==> r.to == m.key
    ensures r.Offer? ==> yiaddr == Journal.AddrOf(server.start, r.slot)
    ensures r.Ack? ==> yiaddr == About(m)
  {
    var asked := Meaning(m, serverId);
    if asked.None? {
      return Leases.NoReply, About(m);
    }
    ReplyKey(server.table, server.Config(), asked.value, now);
    r, yiaddr := server.Serve(asked.value, About(m), now);
  }

  /** One datagram. A message that does not parse, is no BOOTREQUEST, or has no type
      the server knows changes nothing. Any other one is exactly one step of the lease
      state machine, and a reply is sent if and only if that step gives one: to the
      client that asked, echoing its request, with the address of the slot the table
      gave its key. */
  method Receive(server: LeaseServer.Server, raw: seq<byte>, len: nat, prev: Fields, c: ServerCfg, out: array<byte>,
                 now: nat)
    returns (sent: bool, ghost r: Leases.Reply, ghost yiaddr: seq<byte>)
    requires server.Valid() && server.writePointer + Journal.RECORD_WORDS <= Journal.SECTOR_WORDS
    requires len <= |raw| && len < 65536 && CfgOk(c) && out.Length >= 300
    modifies server, out
    ensures server.Valid()
    ensures Asked(raw, len, prev, c.serverId).None? ==> !sent && server.table == old(server.table)
    ensures Asked(raw, len, prev, c.serverId).Some? ==>
              && (server.table, r) == Leases.Handle(old(server.table), server.Config(),
                                                    Asked(raw, len, prev, c.serverId).value, now)
              && (sent <==> !r.NoReply?)
    ensures sent ==> ParseMessage(raw, len, prev).Parsed? && Shaped(ParseMessage(raw, len, prev).msg)
    ensures sent ==>
              var m := ParseMessage(raw, len, prev).msg;
              && r.to == m.key && (r.Offer? ==> yiaddr == Journal.AddrOf(server.start, r.slot))
              && (r.Ack? ==> yiaddr == About(m))
              && (forall prev2: Fields :: Answers(out[..300], m, r, yiaddr, c.serverId, prev2))
              && Configured(Split(Area(out[..300], 300, 240)).opts, m.fields, if r.Offer? then 2 else 5, c)
  {
    sent, r, yiaddr := false, Leases.NoReply, [];
    var parsed := DhcpParse(raw, len, prev);
    if parsed.Parsed? {
      ParsedShaped(raw, len, prev);
      var answer, chosen := Consult(server, parsed.msg, c.serverId, now);
      r, yiaddr := answer, chosen;
      if !answer.NoReply? {
        Send(raw, len, prev, parsed.msg, answer, chosen, c, out);
        sent := true;
      }
    }
  }

  /** A reply is for the key of the message it answers. */
  lemma ReplyKey(tb: Leases.Table, c: Leases.Cfg, m: Leases.Msg, now: nat)
    requires Leases.TableOk(tb)
    ensures var r := Leases.Handle(tb, c, m, now).1; !r.NoReply? ==> r.to == m.key
  {
  }
}
