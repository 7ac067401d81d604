/** The DHCP client state machine (`src/netstack/dhcp.rs`). */
module Dhcp {
  import opened Bytes
  import opened NetError
  import opened Ethernet
  import opened DhcpMessage
  import opened XidCycle

  datatype State = Init | Selecting | Requesting | Bound | Renewing

  datatype Lease = Lease(
    ip: Ip,
    netmask: Ip,
    router: Option<Ip>,
    dns: seq<Ip>,
    domain: Option<bytes>,
    mtu: Option<u16>,
    serverId: Ip,
    leaseTime: nat,
    renewalTime: nat)

  /** What a message means for the link: nothing, an answer to send, a lease, or its loss. */
  datatype Event = Ignored | Send(msg: bytes) | Bound(lease: Lease) | Nak

  /** The client's fields as a value. */
  datatype Client = Client(
    mac: Mac,
    xid: u32,
    state: State,
    offered: Option<Ip>,
    serverId: Option<Ip>,
    lease: Option<Lease>)

  // ------------------------------------------------------------ specification

  function Fresh(mac: Mac, xid: u32): Client {
    Client(mac, xid, State.Init, None, None, None)
  }

  function Discovered(c: Client): Client {
    c.(state := State.Selecting, offered := None, serverId := None, xid := NextXid(c.xid))
  }

  /** The message the current state is waiting on an answer to. */
  function Pending(c: Client): Option<bytes> {
    match c.state
    case Selecting => Some(Encode(c.mac, c.xid, DISCOVER, UNSPECIFIED, None, None))
    case Requesting => Some(Encode(c.mac, c.xid, REQUEST, UNSPECIFIED, c.offered, c.serverId))
    case Renewing =>
      if c.lease.None? then None else Some(Encode(c.mac, c.xid, REQUEST, c.lease.value.ip, None, None))
    case _ => None
  }

  function Renewed(c: Client): Client {
    if c.lease.None? then c else c.(state := State.Renewing)
  }

  /** The lease an ACK grants, with the source's fallbacks for missing options. */
  function LeaseFrom(c: Client, p: Parsed): Result<Lease, Error> {
    if p.yiaddr == UNSPECIFIED then Err(Malformed("ACK without an address")) else
    var server := if p.serverId.Some? then p.serverId.value
                  else if c.serverId.Some? then c.serverId.value
                  else p.siaddr;
    var router := if p.router.Some? then p.router
                  else if server == UNSPECIFIED then None
                  else Some(server);
    var time := if p.leaseTime.Some? then p.leaseTime.value else 3600 * SECOND;
    Ok(Lease(
      p.yiaddr,
      if p.netmask.Some? then p.netmask.value else [255, 255, 255, 0],
      router, p.dns, p.domain, p.mtu, server, time,
      if p.renewalTime.Some? then p.renewalTime.value else time / 2))
  }

  function React(c: Client, p: Parsed): (Client, Result<Event, Error>) {
    if p.xid != c.xid || p.chaddr != c.mac then (c, Ok(Ignored))
    else if c.state == State.Selecting && p.messageType == OFFER then
      var c' := c.(state := State.Requesting, offered := Some(p.yiaddr), serverId := p.serverId);
      (c', Ok(Send(Encode(c.mac, c.xid, REQUEST, UNSPECIFIED, Some(p.yiaddr), p.serverId))))
    else if c.state in {State.Requesting, State.Renewing} && p.messageType == ACK then
      match LeaseFrom(c, p)
      case Err(e) => (c, Err(e))
      case Ok(lease) => (c.(state := State.Bound, lease := Some(lease)), Ok(Event.Bound(lease)))
    else if c.state in {State.Requesting, State.Renewing} && p.messageType == NAK then
      (c.(state := State.Init, lease := None, offered := None), Ok(Nak))
    else
      (c, Ok(Ignored))
  }

  function Handled(c: Client, msg: bytes): (Client, Result<Event, Error>) {
    match Meaning(msg)
    case Err(e) => (c, Err(e))
    case Ok(p) => React(c, p)
  }

  // ------------------------------------------------------------------- object

  class DhcpClient {
    const mac: Mac
    var xid: u32
    var state: State
    var offered: Option<Ip>
    var serverId: Option<Ip>
    var lease: Option<Lease>

    ghost function Value(): Client
      reads this
    {
      Client(mac, xid, state, offered, serverId, lease)
    }

    constructor (mac: Mac, xid: u32)
      ensures Value() == Fresh(mac, xid)
    {
      this.mac := mac;
      this.xid := xid;
      state := State.Init;
      offered, serverId, lease := None, None, None;
    }

    method Discover() returns (msg: bytes)
      modifies this
      ensures Value() == Discovered(old(Value()))
      ensures state == State.Selecting && offered.None? && serverId.None? && lease == old(lease)
      ensures Pending(Value()) == Some(msg)
    {
      state := State.Selecting;
      offered := None;
      serverId := None;
      xid := (xid * MULTIPLIER % 0x1_0000_0000 + INCREMENT) % 0x1_0000_0000;
      msg := BuildMessage(mac, xid, DISCOVER, UNSPECIFIED, None, None);
    }

    method Retransmit() returns (msg: Option<bytes>)
      ensures msg == Pending(Value())
    {
      match state {
        case Selecting =>
          var m := BuildMessage(mac, xid, DISCOVER, UNSPECIFIED, None, None);
          msg := Some(m);
        case Requesting =>
          var m := BuildMessage(mac, xid, REQUEST, UNSPECIFIED, offered, serverId);
          msg := Some(m);
        case Renewing =>
          if lease.None? {
            return None;
          }
          var m := BuildMessage(mac, xid, REQUEST, lease.value.ip, None, None);
          msg := Some(m);
        case _ =>
          msg := None;
      }
    }

    method Renew() returns (msg: Option<bytes>)
      modifies this
      ensures Value() == Renewed(old(Value()))
      ensures msg == if old(lease).None? then None else Pending(Value())
    {
      if lease.None? {
        return None;
      }
      state := State.Renewing;
      var m := BuildMessage(mac, xid, REQUEST, lease.value.ip, None, None);
      msg := Some(m);
    }

    method Handle(msg: bytes) returns (r: Result<Event, Error>)
      modifies this
      ensures (Value(), r) == Handled(old(Value()), msg)
    {
      var parsed := ParseMessage(msg);
      if parsed.Err? {
        return Err(parsed.error);
      }
      var p := parsed.value;
      if p.xid != xid || p.chaddr != mac {
        return Ok(Ignored);
      }
      if state == State.Selecting && p.messageType == OFFER {
        offered := Some(p.yiaddr);
        serverId := p.serverId;
        state := State.Requesting;
        var m := BuildMessage(mac, xid, REQUEST, UNSPECIFIED, Some(p.yiaddr), p.serverId);
        r := Ok(Send(m));
      } else if (state == State.Requesting || state == State.Renewing) && p.messageType == ACK {
        var granted := LeaseFrom(Client(mac, xid, state, offered, serverId, lease), p);
        if granted.Err? {
          return Err(granted.error);
        }
        state := State.Bound;
        lease := Some(granted.value);
        r := Ok(Event.Bound(granted.value));
      } else if (state == State.Requesting || state == State.Renewing) && p.messageType == NAK {
        state := State.Init;
        lease := None;
        offered := None;
        r := Ok(Nak);
      } else {
        r := Ok(Ignored);
      }
    }
  }

  // ----------------------------------------------------------- stale replies

  datatype Op = Discover | Retransmit | Renew | Handle(msg: bytes)

  function Do(c: Client, op: Op): Client {
    match op
    case Discover => Discovered(c)
    case Retransmit => c
    case Renew => Renewed(c)
    case Handle(msg) => Handled(c, msg).0
  }

  function DoAll(c: Client, ops: seq<Op>): Client
    decreases |ops|
  {
    if ops == [] then c else DoAll(Do(c, ops[0]), ops[1..])
  }

  /** How many discovery rounds `ops` begins. */
  function Rounds(ops: seq<Op>): nat {
    if ops == [] then 0 else (if ops[0].Discover? then 1 else 0) + Rounds(ops[1..])
  }

  lemma {:induction false} XidAfterOne(x: u32, n: nat)
    ensures XidAfter(NextXid(x), n) == XidAfter(x, n + 1)
  {
    if n > 0 {
      XidAfterOne(x, n - 1);
    }
  }

  lemma {:induction false} XidOfRun(c: Client, ops: seq<Op>)
    ensures DoAll(c, ops).xid == XidAfter(c.xid, Rounds(ops))
    ensures DoAll(c, ops).mac == c.mac
    decreases |ops|
  {
    if ops != [] {
      XidOfRun(Do(c, ops[0]), ops[1..]);
      if ops[0].Discover? {
        XidAfterOne(c.xid, Rounds(ops[1..]));
      }
    }
  }

  /**
   * Whatever the client does in between, it still answers to its old transaction
   * id exactly when the number of rounds begun since is a multiple of 2^32; at
   * any other time a parseable reply to that id is ignored and changes nothing.
   */
  lemma {:induction false} StaleRepliesIgnored(c: Client, ops: seq<Op>, msg: bytes)
    requires Meaning(msg).Ok? && Meaning(msg).value.xid == c.xid
    ensures var c' := DoAll(c, ops);
            && (c'.xid == c.xid <==> Rounds(ops) % 0x1_0000_0000 == 0)
            && (Rounds(ops) % 0x1_0000_0000 != 0 ==> Handled(c', msg) == (c', Ok(Ignored)))
  {
    XidOfRun(c, ops);
    FullPeriod(c.xid, Rounds(ops));
  }
}
