/**
 * A server's side of the conversation: replies in the format of section 2 of
 * RFC 2131, what the client makes of them (`src/netstack/dhcp.rs`), and a run
 * through every state of the client.
 */
module DhcpReply {
  import opened Bytes
  import opened NetError
  import opened Ethernet
  import opened DhcpMessage
  import opened Dhcp
  import opened DhcpRun

  // ------------------------------------------------------------------ replies

  function ReplyHeader(xid: u32, yiaddr: Ip, siaddr: Ip, chaddr: Mac): (h: bytes)
    ensures |h| == BOOTP_LEN
  {
    [2, 1, 6, 0] + Be32(xid) + Zeros(8) + yiaddr + siaddr + Zeros(4) + chaddr + Zeros(202)
  }

  /** A reply with the given options, and anything behind its END. */
  function Reply(xid: u32, yiaddr: Ip, siaddr: Ip, chaddr: Mac, items: seq<Written>, padding: bytes): bytes {
    ReplyHeader(xid, yiaddr, siaddr, chaddr) + ([0x63, 0x82, 0x53, 0x63] + (Write(items) + ([255] + padding)))
  }

  function Blank(xid: u32, yiaddr: Ip, siaddr: Ip, chaddr: Mac): Parsed {
    Parsed(xid, yiaddr, siaddr, chaddr, 0, None, None, [], None, None, None, None, None)
  }

  lemma HeaderReads(xid: u32, yiaddr: Ip, siaddr: Ip, chaddr: Mac, rest: bytes)
    ensures var m := ReplyHeader(xid, yiaddr, siaddr, chaddr) + rest;
            m[0] == OP_REPLY && FixedFields(m) == Blank(xid, yiaddr, siaddr, chaddr)
  {
    var m := ReplyHeader(xid, yiaddr, siaddr, chaddr) + rest;
    assert m[4..8] == Be32(xid);
    assert m[16..20] == yiaddr;
    assert m[20..24] == siaddr;
    assert m[28..34] == chaddr;
  }

  /** Every such reply is read as its fixed fields and a fold over its options, if it names a type. */
  lemma {:induction false} ReplyMeans(
      xid: u32, yiaddr: Ip, siaddr: Ip, chaddr: Mac, items: seq<Written>, padding: bytes)
    requires AllWritable(items)
    ensures var p := ApplyAll(Blank(xid, yiaddr, siaddr, chaddr), Tlvs(items));
            Meaning(Reply(xid, yiaddr, siaddr, chaddr, items, padding))
            == if p.messageType == 0 then Err(Malformed("no DHCP message type")) else Ok(p)
  {
    var head, tail := ReplyHeader(xid, yiaddr, siaddr, chaddr), [OPT_END] + padding;
    HeaderReads(xid, yiaddr, siaddr, chaddr, MAGIC_COOKIE + (Write(items) + tail));
    CookieReads(head, Write(items) + tail);
    ScanEnded(items, tail);
  }

  /** The shortest reply of a kind: its type and the server's address. */
  function Short(kind: byte, xid: u32, yiaddr: Ip, chaddr: Mac, server: Ip): bytes {
    Reply(xid, yiaddr, UNSPECIFIED, chaddr,
          [Opt(Tlv(OPT_MESSAGE_TYPE, [kind])), Opt(Tlv(OPT_SERVER_ID, server))], [])
  }

  function ShortParsed(kind: byte, xid: u32, yiaddr: Ip, chaddr: Mac, server: Ip): Parsed {
    Blank(xid, yiaddr, UNSPECIFIED, chaddr).(messageType := kind, serverId := Some(server))
  }

  lemma {:induction false} ShortMeans(kind: byte, xid: u32, yiaddr: Ip, chaddr: Mac, server: Ip)
    requires kind != 0
    ensures Meaning(Short(kind, xid, yiaddr, chaddr, server)) == Ok(ShortParsed(kind, xid, yiaddr, chaddr, server))
  {
    var first, second := Tlv(OPT_MESSAGE_TYPE, [kind]), Tlv(OPT_SERVER_ID, server);
    var items := [Opt(first), Opt(second)];
    WriteOne(second);
    assert items[1..] == [Opt(second)];
    assert Tlvs(items) == [first, second];
    ReplyMeans(xid, yiaddr, UNSPECIFIED, chaddr, items, []);
    var start := Blank(xid, yiaddr, UNSPECIFIED, chaddr);
    assert [first, second][1..] == [second] && [second][1..] == [];
    assert server[..4] == server;
    assert ApplyAll(start, [first, second]) == ApplyAll(Apply(start, first), [second]);
    assert ApplyAll(Apply(start, first), [second]) == Apply(Apply(start, first), second);
  }

  // ------------------------------------------------------------ what they do

  /** The lease a short ACK grants: an hour, to be renewed after half of it. */
  function ShortLease(ip: Ip, server: Ip): Lease {
    Lease(ip, [255, 255, 255, 0], if server == UNSPECIFIED then None else Some(server), [], None, None, server,
          3600 * SECOND, 1800 * SECOND)
  }

  lemma OfferTaken(j: Joint, ip: Ip, server: Ip, now: nat)
    requires j.client.state == State.Selecting
    ensures var c := j.client.(state := State.Requesting, offered := Some(ip), serverId := Some(server));
            Delivered(j, Short(OFFER, j.client.xid, ip, j.client.mac, server), now)
            == (Joint(c, j.timer), Sent(Encode(c.mac, c.xid, REQUEST, UNSPECIFIED, Some(ip), Some(server))))
  {
    ShortMeans(OFFER, j.client.xid, ip, j.client.mac, server);
  }

  lemma AckGrants(j: Joint, ip: Ip, server: Ip, now: nat)
    requires j.client.state in {State.Requesting, State.Renewing} && ip != UNSPECIFIED
    ensures var lease := ShortLease(ip, server);
            Delivered(j, Short(ACK, j.client.xid, ip, j.client.mac, server), now)
            == (Joint(j.client.(state := State.Bound, lease := Some(lease)), BoundTimer(lease, now)), Leased(lease))
  {
    ShortMeans(ACK, j.client.xid, ip, j.client.mac, server);
  }

  lemma NakRefuses(j: Joint, server: Ip, now: nat)
    requires j.client.state in {State.Requesting, State.Renewing}
    ensures Delivered(j, Short(NAK, j.client.xid, UNSPECIFIED, j.client.mac, server), now)
         == (Joint(j.client.(state := State.Init, lease := None, offered := None), RestartedTimer(now)), Refused)
  {
    ShortMeans(NAK, j.client.xid, UNSPECIFIED, j.client.mac, server);
  }

  // --------------------------------------------------- every reply, every state

  /** The number of whole seconds an option of four bytes or more says, in nanoseconds. */
  function Said(tlvs: seq<Tlv>, code: byte): Option<nat> {
    match LastOption(tlvs, code, 4)
    case Some(data) => Some(1_000_000_000 * Be32At(data, 0))
    case None => None
  }

  /** The first four bytes an option says, as an address. */
  function AddressSaid(tlvs: seq<Tlv>, code: byte): (ip: Option<Ip>)
    ensures ip == LastAddress(tlvs, code)
  {
    match LastOption(tlvs, code, 4)
    case Some(data) =>
      assert [data[0], data[1], data[2], data[3]] == data[..4];
      Some([data[0], data[1], data[2], data[3]])
    case None => None
  }

  function Default<T>(said: Option<T>, default: T): T {
    if said.Some? then said.value else default
  }

  /** The server an ACK comes from: as it says itself, as the OFFER said, or its next-server field. */
  function ServerOf(tlvs: seq<Tlv>, offered: Option<Ip>, siaddr: Ip): Ip {
    Default(AddressSaid(tlvs, 54), Default(offered, siaddr))
  }

  /** The lease that an ACK with these options grants, option by option (RFC 2132). */
  predicate GrantedBy(lease: Lease, yiaddr: Ip, siaddr: Ip, tlvs: seq<Tlv>, offered: Option<Ip>) {
    var server := ServerOf(tlvs, offered, siaddr);
    && lease.ip == yiaddr && lease.serverId == server
    && lease.netmask == Default(AddressSaid(tlvs, 1), [255, 255, 255, 0])
    && lease.router == OrElse(AddressSaid(tlvs, 3), if server == [0, 0, 0, 0] then None else Some(server))
    && lease.leaseTime == Default(Said(tlvs, 51), 3_600_000_000_000)
    && lease.renewalTime == Default(Said(tlvs, 58), Default(Said(tlvs, 51), 3_600_000_000_000) / 2)
    && (match LastOption(tlvs, 26, 2)
        case Some(data) => lease.mtu == Some(0x100 * data[0] as int + data[1])
        case None => lease.mtu.None?)
    && (match LastOption(tlvs, 6, 0)
        case Some(data) => |lease.dns| == |data| / 4
                           && forall i :: 0 <= i < |lease.dns| ==> lease.dns[i] == data[4 * i..4 * i + 4]
        case None => lease.dns == [])
    && (match LastOption(tlvs, 15, 0)
        case Some(data) => lease.domain == if Utf8(data) && TrimNuls(data) != [] then Some(TrimNuls(data)) else None
        case None => lease.domain.None?)
  }

  /** The type of a message, zero if it names none. */
  function TypeOf(tlvs: seq<Tlv>): byte {
    match LastOption(tlvs, 53, 1)
    case Some(data) => data[0]
    case None => 0
  }

  /** The options decide the meaning of a reply. */
  lemma {:induction false} ReplyFields(
      xid: u32, yiaddr: Ip, siaddr: Ip, chaddr: Mac, items: seq<Written>, padding: bytes)
    requires AllWritable(items)
    ensures var r, tlvs := Meaning(Reply(xid, yiaddr, siaddr, chaddr, items, padding)), Tlvs(items);
            && (r.Ok? <==> TypeOf(tlvs) != 0)
            && (r.Ok? ==> FieldsOf(r.value, xid, yiaddr, siaddr, chaddr, tlvs))
  {
    ReplyMeans(xid, yiaddr, siaddr, chaddr, items, padding);
    FieldsByOptions(xid, yiaddr, siaddr, chaddr, Tlvs(items));
  }

  lemma {:induction false} FieldsByOptions(xid: u32, yiaddr: Ip, siaddr: Ip, chaddr: Mac, tlvs: seq<Tlv>)
    ensures FieldsOf(ApplyAll(Blank(xid, yiaddr, siaddr, chaddr), tlvs), xid, yiaddr, siaddr, chaddr, tlvs)
  {
    var start := Blank(xid, yiaddr, siaddr, chaddr);
    FixedStay(start, tlvs);
    TypeField(start, tlvs);
    AddressFields(start, tlvs);
    TimeFields(start, tlvs);
    OpenFields(start, tlvs);
  }

  predicate FieldsOf(p: Parsed, xid: u32, yiaddr: Ip, siaddr: Ip, chaddr: Mac, tlvs: seq<Tlv>) {
    && p.xid == xid && p.yiaddr == yiaddr && p.siaddr == siaddr && p.chaddr == chaddr
    && p.messageType == TypeOf(tlvs)
    && p.netmask == LastAddress(tlvs, 1) && p.router == LastAddress(tlvs, 3) && p.serverId == LastAddress(tlvs, 54)
    && p.leaseTime == Said(tlvs, 51) && p.renewalTime == Said(tlvs, 58)
    && p.dns == (match LastOption(tlvs, 6, 0) case Some(data) => Addresses(data) case None => [])
    && p.domain == (match LastOption(tlvs, 15, 0) case Some(data) => DomainName(data) case None => None)
    && p.mtu == (match LastOption(tlvs, 26, 2) case Some(data) => Some(Be16At(data, 0)) case None => None)
  }

  lemma LeaseByFields(c: Client, p: Parsed, xid: u32, yiaddr: Ip, siaddr: Ip, chaddr: Mac, tlvs: seq<Tlv>)
    requires FieldsOf(p, xid, yiaddr, siaddr, chaddr, tlvs)
    ensures LeaseFrom(c, p).Ok? <==> yiaddr != [0, 0, 0, 0]
    ensures LeaseFrom(c, p).Ok? ==> GrantedBy(LeaseFrom(c, p).value, yiaddr, siaddr, tlvs, c.serverId)
  {
  }

  /** What a reply does to the client: its new state and what becomes of offer, server and lease. */
  predicate Handles(c: Client, yiaddr: Ip, siaddr: Ip, tlvs: seq<Tlv>, c': Client, r: Result<Event, Error>) {
    if c.state == State.Selecting && TypeOf(tlvs) == 2 then
      && c' == c.(state := State.Requesting, offered := Some(yiaddr), serverId := AddressSaid(tlvs, 54))
      && r.Ok? && r.value.Send? && Pending(c') == Some(r.value.msg)
    else if c.state in {State.Requesting, State.Renewing} && TypeOf(tlvs) == 5 then
      if yiaddr == [0, 0, 0, 0] then c' == c && r.Err?
      else
        && r.Ok? && r.value.Bound? && GrantedBy(r.value.lease, yiaddr, siaddr, tlvs, c.serverId)
        && c' == c.(state := State.Bound, lease := Some(r.value.lease))
    else if c.state in {State.Requesting, State.Renewing} && TypeOf(tlvs) == 6 then
      c' == c.(state := State.Init, lease := None, offered := None) && r == Ok(Nak)
    else
      c' == c && r == Ok(Ignored)
  }

  /**
   * Every reply in every state. One that names no type is an error; one of another
   * transaction or for another MAC is ignored; an OFFER is taken while selecting,
   * an ACK with an address grants exactly what its options say, and a NAK takes the
   * lease away, both while requesting or renewing. All else changes nothing.
   */
  lemma {:induction false} ReplyHandled(
      c: Client, xid: u32, yiaddr: Ip, siaddr: Ip, chaddr: Mac, items: seq<Written>, padding: bytes)
    requires AllWritable(items)
    ensures var (c', r) := Handled(c, Reply(xid, yiaddr, siaddr, chaddr, items, padding));
            if TypeOf(Tlvs(items)) == 0 then c' == c && r.Err?
            else if xid != c.xid || chaddr != c.mac then c' == c && r == Ok(Ignored)
            else Handles(c, yiaddr, siaddr, Tlvs(items), c', r)
  {
    var msg, tlvs := Reply(xid, yiaddr, siaddr, chaddr, items, padding), Tlvs(items);
    ReplyFields(xid, yiaddr, siaddr, chaddr, items, padding);
    if Meaning(msg).Ok? {
      LeaseByFields(c, Meaning(msg).value, xid, yiaddr, siaddr, chaddr, tlvs);
    }
  }

  /**
   * The renewal goes out when the ACK says: after option 58, else half of option
   * 51, else half an hour, whatever arrives in between without effect.
   */
  lemma {:induction false} RenewsAsTold(
      j: Joint, yiaddr: Ip, siaddr: Ip, items: seq<Written>, padding: bytes, t: nat, quiet: seq<Step>,
      now: nat, later: nat)
    requires Agree(j) && AllWritable(items) && TypeOf(Tlvs(items)) == 5 && yiaddr != [0, 0, 0, 0]
    requires j.client.state in {State.Requesting, State.Renewing}
    requires var msg := Reply(j.client.xid, yiaddr, siaddr, j.client.mac, items, padding);
             AllQuiet(Delivered(j, msg, t).0, quiet)
    ensures var msg := Reply(j.client.xid, yiaddr, siaddr, j.client.mac, items, padding);
            var due := t + Default(Said(Tlvs(items), 58), Default(Said(Tlvs(items), 51), 3_600_000_000_000) / 2);
            Polled(After(Delivered(j, msg, t).0, quiet), now, later).1.Sent? <==> now >= due
  {
    var msg := Reply(j.client.xid, yiaddr, siaddr, j.client.mac, items, padding);
    ReplyHandled(j.client, j.client.xid, yiaddr, siaddr, j.client.mac, items, padding);
    RenewsOnTime(j, msg, t, quiet, now, later);
  }

  // ------------------------------------------------- a run through all states

  function Xid(mac: Mac): u32 {
    Start(mac, 0).client.xid
  }

  /** OFFER, ACK, the renewal time passes, NAK, and the timer fires again. */
  function Tour(mac: Mac, t0: nat, ip: Ip, server: Ip): seq<Step> {
    var due := t0 + 1800 * SECOND;
    [Deliver(Short(OFFER, Xid(mac), ip, mac, server), t0),
     Deliver(Short(ACK, Xid(mac), ip, mac, server), t0),
     Poll(due, due),
     Deliver(Short(NAK, Xid(mac), UNSPECIFIED, mac, server), due),
     Poll(due, due)]
  }

  /**
   * Every state is reached, with every kind of output: for any address a server
   * can name, the client is offered it, bound to it, renews it and loses it.
   */
  lemma {:induction false} EveryStateIsReached(mac: Mac, t0: nat, ip: Ip, server: Ip)
    requires ip != UNSPECIFIED
    ensures var j, steps := Start(mac, t0), Tour(mac, t0, ip, server);
            && At(j, steps, 0).client.state == State.Selecting && Out(j, steps, 0).Sent?
            && At(j, steps, 1).client.state == State.Requesting && Out(j, steps, 1) == Leased(ShortLease(ip, server))
            && At(j, steps, 2).client.state == State.Bound && Out(j, steps, 2).Sent?
            && At(j, steps, 3).client.state == State.Renewing && Out(j, steps, 3).Refused?
            && At(j, steps, 4).client.state == State.Init && Out(j, steps, 4).Sent?
            && At(j, steps, 5).client.state == State.Selecting && At(j, steps, 5).client.lease.None?
  {
    var j, steps := Start(mac, t0), Tour(mac, t0, ip, server);
    var due := t0 + 1800 * SECOND;
    assert steps[..0] == [];
    AtNext(j, steps, 0);
    OfferTaken(j, ip, server, t0);
    AtNext(j, steps, 1);
    AckGrants(At(j, steps, 1), ip, server, t0);
    AtNext(j, steps, 2);
    RenewalSent(At(j, steps, 2), due);
    AtNext(j, steps, 3);
    NakRefuses(At(j, steps, 3), server, due);
    AtNext(j, steps, 4);
    StartsOver(At(j, steps, 4), due);
  }

  lemma RenewalSent(j: Joint, now: nat)
    requires j.client.state == State.Bound && j.client.lease.Some?
    requires j.timer.renewAt.Some? && j.timer.next <= now
    ensures var (j', out) := Polled(j, now, now);
            j'.client == j.client.(state := State.Renewing) && out.Sent? && j'.timer.renewAt.None?
  {
  }

  lemma StartsOver(j: Joint, now: nat)
    requires j.client.state == State.Init && j.timer == RestartedTimer(now)
    ensures var (j', out) := Polled(j, now, now);
            j'.client == Discovered(j.client) && out.Sent?
  {
  }
}
