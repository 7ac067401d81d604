/** The receive thread: frames to ARP, DHCP and the IP sink (`src/link.rs`). */
module LinkRx {
  import opened Bytes
  import opened Ethernet
  import opened RndisPacket
  import opened Usb
  import opened Ipv4
  import opened Dhcp
  import opened DhcpRun
  import Arp

  const RX_DEPTH: nat := 16
  const MAX_CONSECUTIVE_STALLS: nat := 5
  const CLIENT_PORT: u16 := 68
  const SERVER_PORT: u16 := 67

  const IN_STUCK: UsbError := Other("bulk IN reads did not drain after cancel")

  datatype Failure = Usb(error: UsbError) | Stalls(count: nat)

  datatype LinkEvent = Bound(lease: Lease) | Failed(why: Failure)

  /** The readings taken of a clock, the latest last. */
  datatype Readings = Unread | Reading(before: Readings, time: nat)

  /** A clock that never goes back. */
  class Clock {
    var time: nat
    ghost var readings: Readings

    method Now() returns (t: nat)
      modifies this
      ensures t == time && old(time) <= time
      ensures readings == Reading(old(readings), t)
    {
      var tick: int :| tick >= 0;
      time := time + tick;
      t := time;
      readings := Reading(readings, t);
    }
  }

  // ----------------------------------------------------------------- routing

  /** Who gets a received frame, or that the timer was polled. */
  datatype Route =
    | ToArp(payload: bytes)
    | ToDhcp(msg: bytes, srcIp: Ip, srcMac: Mac)
    | ToSink(packet: bytes)
    | ToTimer

  predicate Addressed(f: EthFrame, hostMac: Mac) {
    f.dst == hostMac || IsMulticast(f.dst)
  }

  predicate IsDhcpReply(packet: bytes) {
    var d := ParseUdp(packet);
    d.Ok? && d.value.dstPort == CLIENT_PORT && d.value.srcPort == SERVER_PORT
  }

  /** A packet is for the DHCP client or for the sink, never for both. */
  function PacketRoute(packet: bytes, srcMac: Mac): Route {
    if IsDhcpReply(packet)
    then ToDhcp(ParseUdp(packet).value.payload, ParseUdp(packet).value.srcIp, srcMac)
    else ToSink(packet)
  }

  /** At most one route for a frame: none if it is malformed, not for us or of another type. */
  function RouteOf(frame: bytes, hostMac: Mac): seq<Route> {
    match Parse(frame)
    case Err(_) => []
    case Ok(f) =>
      if !Addressed(f, hostMac) then []
      else if f.ethertype == ETHERTYPE_ARP then [ToArp(f.payload)]
      else if f.ethertype == ETHERTYPE_IPV4 then [PacketRoute(f.payload, f.src)]
      else []
  }

  /** The routes of a transfer, in order, up to the first framing error. */
  function Dispatch(items: seq<Item>, hostMac: Mac): seq<Route> {
    if items == [] || items[0].Bad? then []
    else RouteOf(items[0].frame, hostMac) + Dispatch(items[1..], hostMac)
  }

  function SinkPart(routes: seq<Route>): seq<bytes> {
    if routes == [] then []
    else
      var n := |routes| - 1;
      SinkPart(routes[..n]) + if routes[n].ToSink? then [routes[n].packet] else []
  }

  function StackPart(routes: seq<Route>): seq<Route> {
    if routes == [] then []
    else
      var n := |routes| - 1;
      StackPart(routes[..n]) + if routes[n].ToSink? then [] else [routes[n]]
  }

  // ------------------------------------------------------------ specification

  /** Everything the receive thread keeps besides the sink. */
  datatype Stack = Stack(joint: Joint, table: Arp.Table, outbox: seq<bytes>, events: seq<LinkEvent>)

  /** What reaches it, with the clock readings taken on the way. */
  datatype Input =
    | ArpIn(payload: bytes, now: nat)
    | DhcpIn(msg: bytes, srcIp: Ip, srcMac: Mac, now: nat, learned: nat)
    | Tick(now: nat, later: nat)

  /** A DHCP message as it goes out: broadcast from the unspecified address. */
  function DhcpFrame(mac: Mac, msg: bytes): bytes {
    Build(BROADCAST_MAC, mac, ETHERTYPE_IPV4,
          UdpPacket(UdpDatagram(UNSPECIFIED, BROADCAST_IP, CLIENT_PORT, SERVER_PORT, msg), 0))
  }

  function Begin(mac: Mac, now: nat): Stack {
    var joint := Start(mac, now);
    Stack(joint, Arp.NewTable(mac, UNSPECIFIED), [DhcpFrame(mac, Pending(joint.client).value)], [])
  }

  lemma BeginIs(mac: Mac, now: nat, client: Client, msg: bytes, frame: bytes)
    requires client == Discovered(Fresh(mac, Be32At(mac, 2))) && Pending(client) == Some(msg)
    requires frame == DhcpFrame(mac, msg)
    ensures Begin(mac, now)
         == Stack(Joint(client, NewTimer(now)), Arp.NewTable(mac, UNSPECIFIED), [frame], [])
  {
  }

  function Posted(st: Stack, out: Output): Stack {
    if out.Sent? then st.(outbox := st.outbox + [DhcpFrame(st.table.hostMac, out.msg)]) else st
  }

  /** A lease gives us our address, and its sender's MAC is the gateway's. */
  function Acted(st: Stack, out: Output, srcIp: Ip, srcMac: Mac, learned: nat): Stack {
    if out.Leased? then
      st.(table := Arp.Inserted(st.table.(hostIp := out.lease.ip), srcIp, srcMac, learned),
          events := st.events + [LinkEvent.Bound(out.lease)])
    else
      Posted(st, out)
  }

  function Fed(st: Stack, input: Input): Stack {
    match input
    case ArpIn(payload, now) =>
      var (table, r) := Arp.Received(st.table, payload, now);
      st.(table := table, outbox := st.outbox + if r.Ok? && r.value.Some? then [r.value.value] else [])
    case DhcpIn(msg, srcIp, srcMac, now, learned) =>
      var (joint, out) := Delivered(st.joint, msg, now);
      Acted(st.(joint := joint), out, srcIp, srcMac, learned)
    case Tick(now, later) =>
      var (joint, out) := Polled(st.joint, now, later);
      Posted(st.(joint := joint), out)
  }

  /** Everything that has come in, the latest last. */
  datatype Trace = Idle | Trace(before: Trace, input: Input)

  function Replay(st: Stack, inputs: Trace): Stack {
    match inputs
    case Idle => st
    case Trace(before, input) => Fed(Replay(st, before), input)
  }

  /** The route an input came in by. */
  function RouteBy(input: Input): (r: Route)
    ensures !r.ToSink?
  {
    match input
    case ArpIn(payload, _) => ToArp(payload)
    case DhcpIn(msg, srcIp, srcMac, _, _) => ToDhcp(msg, srcIp, srcMac)
    case Tick(_, _) => ToTimer
  }

  /** The inputs as routes. */
  function RoutesOf(inputs: Trace): seq<Route> {
    match inputs
    case Idle => []
    case Trace(before, input) => RoutesOf(before) + [RouteBy(input)]
  }

  /** The first and the last clock reading an input comes with. */
  function Earliest(input: Input): nat {
    input.now
  }

  function Latest(input: Input): nat {
    match input
    case ArpIn(_, now) => now
    case DhcpIn(_, _, _, _, learned) => learned
    case Tick(_, later) => later
  }

  /** The last reading of a run that began at `t0`. */
  function LastReading(t0: nat, inputs: Trace): nat {
    if inputs.Idle? then t0 else Latest(inputs.input)
  }

  /** The readings never decrease. */
  predicate InOrder(t0: nat, inputs: Trace) {
    inputs.Trace? ==>
      && InOrder(t0, inputs.before)
      && LastReading(t0, inputs.before) <= Earliest(inputs.input) <= Latest(inputs.input)
  }

  /** The clock readings of a run, after those taken before it. */
  function ReadingsOf(earlier: Readings, inputs: Trace): Readings {
    match inputs
    case Idle => earlier
    case Trace(before, ArpIn(_, now)) => Reading(ReadingsOf(earlier, before), now)
    case Trace(before, DhcpIn(_, _, _, now, learned)) => Reading(Reading(ReadingsOf(earlier, before), now), learned)
    case Trace(before, Tick(now, later)) => Reading(Reading(ReadingsOf(earlier, before), now), later)
  }

  lemma DhcpInIs(
      st: Stack, msg: bytes, srcIp: Ip, srcMac: Mac, now: nat, learned: nat, joint: Joint, out: Output)
    requires (joint, out) == Delivered(st.joint, msg, now)
    ensures Fed(st, DhcpIn(msg, srcIp, srcMac, now, learned))
         == Acted(st.(joint := joint), out, srcIp, srcMac, learned)
  {
  }

  lemma TickIs(st: Stack, now: nat, later: nat, joint: Joint, out: Output)
    requires (joint, out) == Polled(st.joint, now, later)
    ensures Fed(st, Tick(now, later)) == Posted(st.(joint := joint), out)
  {
  }

  lemma {:induction false} PartsOne(routes: seq<Route>, route: Route)
    ensures SinkPart(routes + [route]) == SinkPart(routes) + if route.ToSink? then [route.packet] else []
    ensures StackPart(routes + [route]) == StackPart(routes) + if route.ToSink? then [] else [route]
  {
    assert (routes + [route])[..|routes|] == routes;
  }

  lemma {:induction false} DispatchStep(item: Item, items: seq<Item>, hostMac: Mac)
    requires item.Frame?
    ensures Dispatch([item] + items, hostMac) == RouteOf(item.frame, hostMac) + Dispatch(items, hostMac)
  {
    assert ([item] + items)[1..] == items;
  }

  ghost predicate AllBound(events: seq<LinkEvent>) {
    forall i :: 0 <= i < |events| ==> events[i].Bound?
  }

  /** Only leases are added. */
  ghost predicate Extends(before: seq<LinkEvent>, after: seq<LinkEvent>) {
    before <= after && AllBound(after[|before|..])
  }

  lemma ExtendsTwice(a: seq<LinkEvent>, b: seq<LinkEvent>, c: seq<LinkEvent>)
    requires Extends(a, b) && Extends(b, c)
    ensures Extends(a, c)
  {
    assert c[|a|..] == b[|a|..] + c[|b|..];
  }

  // -------------------------------------------------------------------- waits

  /** The stall count after one more wait: a read resets it, a stall adds one. */
  function StallsAfter(stalls: nat, read: Read): nat {
    if read.None? then stalls
    else if read.value.Ok? then 0
    else if read.value.error.Stall? then stalls + 1
    else stalls
  }

  /** Stalls since the last successful read. */
  function StallRun(waits: Waits): nat {
    match waits
    case NoWait => 0
    case Waits(before, read) => StallsAfter(StallRun(before), read)
  }

  /** The waits since the last successful read. */
  function SinceRead(waits: Waits): Waits {
    match waits
    case NoWait => NoWait
    case Waits(before, Some(Ok(_))) => NoWait
    case Waits(before, read) => Waits(SinceRead(before), read)
  }

  function StallsIn(waits: Waits): nat {
    match waits
    case NoWait => 0
    case Waits(before, Some(Err(Stall))) => StallsIn(before) + 1
    case Waits(before, _) => StallsIn(before)
  }

  /** The count the thread keeps is the number of stalls since the last successful read. */
  lemma {:induction false} StallRunMeans(waits: Waits)
    ensures StallRun(waits) == StallsIn(SinceRead(waits))
  {
    if waits.Waits? {
      StallRunMeans(waits.before);
    }
  }

  predicate Fatal(read: Read) {
    read.Some? && read.value.Err? && IsFatal(read.value.error)
  }

  predicate Stalled(read: Read) {
    read.Some? && read.value == Err(Stall)
  }

  /** A wait that found a stall, within the tolerated number of them. */
  predicate Recovers(read: Read, stalls: nat) {
    Stalled(read) && stalls <= MAX_CONSECUTIVE_STALLS
  }

  function Recoveries(waits: Waits): nat {
    match waits
    case NoWait => 0
    case Waits(before, read) => Recoveries(before) + if Recovers(read, StallRun(waits)) then 1 else 0
  }

  /**
   * How a turn ends the thread, if it does, given the stalls counted and what
   * clearing the halt returned, where that was reached: a fatal error, one stall
   * too many, or a recovery that failed. Nothing else does.
   */
  function Verdict(read: Read, stalls: nat, cleared: Option<Result<(), UsbError>>): Option<Failure> {
    if Fatal(read) then Some(Usb(read.value.error))
    else if !Stalled(read) then None
    else if stalls > MAX_CONSECUTIVE_STALLS then Some(Stalls(stalls))
    else if cleared.None? then Some(Usb(IN_STUCK))
    else if cleared.value.Err? then Some(Usb(cleared.value.error))
    else None
  }

  /**
   * Which waits end the thread: a lost or missing device at once, the sixth stall
   * in a row, and an earlier stall whose halt could not be cleared. A read, a
   * timeout or any other error does not.
   */
  lemma VerdictTable(stalls: nat, cleared: Option<Result<(), UsbError>>, data: bytes, why: string)
    ensures Verdict(Some(Err(UsbError.Disconnected)), stalls, cleared) == Some(Usb(UsbError.Disconnected))
    ensures Verdict(Some(Err(NotFound)), stalls, cleared) == Some(Usb(NotFound))
    ensures Verdict(Some(Err(Stall)), stalls, cleared)
         == if stalls >= 6 then Some(Stalls(stalls))
            else (match cleared
                  case None => Some(Usb(Other("bulk IN reads did not drain after cancel")))
                  case Some(Ok(_)) => None
                  case Some(Err(e)) => Some(Usb(e)))
    ensures Verdict(None, stalls, cleared) == Verdict(Some(Ok(data)), stalls, cleared) == None
    ensures Verdict(Some(Err(Timeout)), stalls, cleared) == Verdict(Some(Err(Other(why))), stalls, cleared) == None
  {
  }

  /** How the thread ends by its last wait, given every clearing of the halt. */
  function Outcome(waits: Waits, clears: seq<Result<(), UsbError>>): Option<Failure> {
    match waits
    case NoWait => None
    case Waits(before, read) =>
      var k := Recoveries(before);
      Verdict(read, StallRun(waits), if k < |clears| then Some(clears[k]) else None)
  }

  /** No fatal error, and no stall too many. */
  predicate Passed(waits: Waits) {
    StallRun(waits) <= MAX_CONSECUTIVE_STALLS && (waits.Waits? ==> !Fatal(waits.read))
  }

  /** So it was at every wait before the last one. */
  predicate Endured(waits: Waits) {
    waits.Waits? ==> Endured(waits.before) && Passed(waits.before)
  }

  function RoutesIn(read: Read, hostMac: Mac): seq<Route> {
    if read.Some? && read.value.Ok? then Dispatch(Decode(read.value.value), hostMac) else []
  }

  /** The routes of every transfer read, the timer polled once after each wait. */
  function AllRoutes(waits: Waits, hostMac: Mac): seq<Route> {
    match waits
    case NoWait => []
    case Waits(before, read) => AllRoutes(before, hostMac) + RoutesIn(read, hostMac) + [ToTimer]
  }

  /** One more wait, and what it did to the endpoint. */
  lemma {:induction false} WaitStep(
      before: Waits, read: Read, clears: seq<Result<(), UsbError>>, cleared: Option<Result<(), UsbError>>)
    requires Endured(before) && Passed(before) && |clears| == Recoveries(before)
    requires cleared.Some? ==> Recovers(read, StallsAfter(StallRun(before), read))
    ensures var waits, stalls := Waits(before, read), StallsAfter(StallRun(before), read);
            var after := clears + if cleared.Some? then [cleared.value] else [];
            && Endured(waits)
            && Outcome(waits, after) == Verdict(read, stalls, cleared)
            && (Outcome(waits, after).None? ==> Passed(waits) && |after| == Recoveries(waits))
  {
  }

  lemma StillBound(before: seq<LinkEvent>, after: seq<LinkEvent>)
    requires AllBound(before) && Extends(before, after)
    ensures AllBound(after)
  {
    assert after == before + after[|before|..];
  }

  // ---------------------------------------------------------- stall recovery

  /**
   * Cancel the queued reads and take them back, clear the halt exactly when
   * they have all come back, and refill the queue exactly when that succeeds.
   */
  method RecoverBulkIn(ep: InEndpoint) returns (r: Result<(), UsbError>)
    modifies ep
    ensures ep.cancels == old(ep.cancels) + 1 && ep.waits == old(ep.waits)
    ensures r.Ok? ==> !ep.draining
    ensures ep.clears == old(ep.clears) + [r] || (ep.clears == old(ep.clears) && r == Err(IN_STUCK) && ep.pending > 0)
    ensures r.Ok? ==> ep.pending == RX_DEPTH
    ensures r.Err? && ep.clears != old(ep.clears) ==> ep.pending == 0
    ensures ep.responsive && old(ep.pending) <= RX_DEPTH + 1 ==> ep.clears == old(ep.clears) + [r]
  {
    ep.CancelAll();
    ghost var start := ep.pending;
    for i := 0 to RX_DEPTH + 1
      invariant ep.pending <= start && ep.waits == old(ep.waits) && ep.draining
      invariant ep.cancels == old(ep.cancels) + 1 && ep.clears == old(ep.clears)
      invariant ep.responsive ==> ep.pending == 0 || ep.pending + i <= start
    {
      if ep.pending == 0 {
        break;
      }
      var _ := ep.Wait();
    }
    if ep.pending > 0 {
      return Err(IN_STUCK);
    }
    r := ep.ClearHalt();
    if r.Ok? {
      Refill(ep);
    }
  }

  method Refill(ep: InEndpoint)
    requires ep.pending == 0
    modifies ep
    ensures ep.pending == RX_DEPTH && ep.responsive == old(ep.responsive)
    ensures ep.cancels == old(ep.cancels) && ep.clears == old(ep.clears)
    ensures ep.waits == old(ep.waits) && ep.draining == old(ep.draining)
  {
    for i := 0 to RX_DEPTH
      invariant ep.pending == i && ep.responsive == old(ep.responsive)
      invariant ep.waits == old(ep.waits) && ep.draining == old(ep.draining)
      invariant ep.cancels == old(ep.cancels) && ep.clears == old(ep.clears)
    {
      ep.Submit();
    }
  }

  // ------------------------------------------------------------------- object

  class Rx {
    const hostMac: Mac
    const arp: Arp.Responder
    const dhcp: DhcpClient
    const timer: DhcpTimer
    var outbox: seq<bytes>
    var sink: seq<bytes>
    var events: seq<LinkEvent>
    /** When the thread began, and in which state. */
    ghost const t0: nat
    ghost const start: Stack
    /** The readings of the clock up to that one. */
    ghost const begun: Readings
    ghost var inputs: Trace
    ghost var routed: seq<Route>

    ghost function Value(): Stack
      reads this, arp, dhcp, timer
    {
      Stack(Joint(dhcp.Value(), timer.Value()), arp.Value(), outbox, events)
    }

    /** The state is what the inputs so far make of it, and so is the sink. */
    ghost predicate Valid()
      reads this, arp, dhcp, timer
    {
      && arp.hostMac == hostMac && dhcp.mac == hostMac
      && Value() == Replay(start, inputs)
      && Sorted()
    }

    /** Everything routed went to the sink or to the stack, in order. */
    ghost predicate Sorted()
      reads this
    {
      sink == SinkPart(routed) && RoutesOf(inputs) == StackPart(routed)
    }

    /** The inputs come with the readings of this clock, in turn, and these never decrease. */
    ghost predicate OnTime(clock: Clock)
      reads this, clock
    {
      && InOrder(t0, inputs) && LastReading(t0, inputs) <= clock.time
      && clock.readings == ReadingsOf(begun, inputs)
    }

    /** Seed the client from the MAC, start the timer and send the first DISCOVER. */
    constructor (hostMac: Mac, clock: Clock)
      modifies clock
      ensures Valid() && OnTime(clock) && inputs.Idle? && routed == [] && this.hostMac == hostMac
      ensures start == Begin(hostMac, t0) && begun == Reading(old(clock.readings), t0)
      ensures fresh(arp) && fresh(dhcp) && fresh(timer)
      ensures events == []
    {
      var arp := new Arp.Responder(hostMac, UNSPECIFIED);
      var dhcp := new DhcpClient(hostMac, Be32At(hostMac, 2));
      var now := clock.Now();
      var timer := new DhcpTimer(now);
      var msg := dhcp.Discover();
      var frame := WrapDhcp(hostMac, msg);
      BeginIs(hostMac, now, dhcp.Value(), msg, frame);
      this.hostMac, this.arp, this.dhcp, this.timer := hostMac, arp, dhcp, timer;
      outbox, sink, events := [frame], [], [];
      t0, start, inputs, routed := now, Begin(hostMac, now), Idle, [];
      begun := clock.readings;
    }

    /** Every frame of a transfer up to the first framing error, in order. */
    method HandleTransfer(data: bytes, clock: Clock)
      requires Valid() && OnTime(clock)
      modifies this, arp, dhcp, timer, clock
      ensures Valid() && OnTime(clock)
      ensures routed == old(routed) + Dispatch(Decode(data), hostMac)
      ensures Extends(old(events), events)
    {
      var frames := new Frames(data);
      ghost var whole := Dispatch(Decode(data), hostMac);
      ghost var done: seq<Route> := [];
      while true
        invariant fresh(frames)
        invariant Valid() && OnTime(clock)
        invariant routed == old(routed) + done
        invariant whole == done + Dispatch(Decode(frames.buf), hostMac)
        invariant Extends(old(events), events)
        decreases |frames.buf|
      {
        var item := frames.Next();
        match item
        case None =>
          break;
        case Some(Bad(e)) =>
          break;
        case Some(Frame(frame)) =>
          ghost var route := RouteOf(frame, hostMac);
          DispatchStep(Frame(frame), Decode(frames.buf), hostMac);
          Assoc(done, route, Dispatch(Decode(frames.buf), hostMac));
          Assoc(old(routed), done, route);
          ghost var was := events;
          HandleFrame(frame, clock);
          ExtendsTwice(old(events), was, events);
          done := done + route;
      }
    }

    method HandleFrame(frame: bytes, clock: Clock)
      requires Valid() && OnTime(clock)
      modifies this, arp, dhcp, timer, clock
      ensures Valid() && OnTime(clock)
      ensures routed == old(routed) + RouteOf(frame, hostMac)
      ensures Extends(old(events), events)
    {
      assert routed + [] == routed && events[|events|..] == [];
      var parsed := Parse(frame);
      if parsed.Err? {
        return;
      }
      var f := parsed.value;
      if f.dst != hostMac && !IsMulticast(f.dst) {
        return;
      }
      if f.ethertype == ETHERTYPE_ARP {
        HandleArp(f.payload, clock);
      } else if f.ethertype == ETHERTYPE_IPV4 {
        HandleIpv4(f.src, f.payload, clock);
      }
    }

    /** Send whatever the retransmit timer asks for. */
    method PollTimer(clock: Clock)
      requires Valid() && OnTime(clock)
      modifies this, dhcp, timer, clock
      ensures Valid() && OnTime(clock)
      ensures inputs.Trace? && inputs.before == old(inputs) && inputs.input.Tick?
      ensures routed == old(routed) + [ToTimer] && events == old(events)
    {
      var now := clock.Now();
      var later := clock.Now();
      ghost var before := Value();
      ghost var out := Polled(before.joint, now, later).1;
      var msg := timer.Due(dhcp, now, later);
      ghost var joint := Joint(dhcp.Value(), timer.Value());
      assert (joint, out) == Polled(before.joint, now, later);
      if msg.Some? {
        var frame := WrapDhcp(hostMac, msg.value);
        outbox := outbox + [frame];
      }
      assert Value() == Posted(before.(joint := joint), out);
      TickIs(before, now, later, joint, out);
      Record(before, Tick(now, later), clock);
    }

    /**
     * What one wait on the endpoint leads to: work, recovery or the end, which
     * comes exactly as `Verdict` says. `cleared` is what clearing the halt returned.
     */
    method Turn(read: Read, stalls: nat, bulkIn: InEndpoint, clock: Clock)
      returns (count: nat, why: Option<Failure>, ghost cleared: Option<Result<(), UsbError>>)
      requires Valid() && OnTime(clock) && stalls <= MAX_CONSECUTIVE_STALLS
      requires bulkIn.pending == if read.Some? then RX_DEPTH - 1 else RX_DEPTH
      requires !bulkIn.draining
      modifies this, arp, dhcp, timer, clock, bulkIn
      ensures Valid() && OnTime(clock)
      ensures count == StallsAfter(stalls, read)
      ensures why == Verdict(read, count, cleared)
      ensures routed == old(routed) + RoutesIn(read, hostMac)
      ensures Extends(old(events), events)
      ensures why.None? ==> bulkIn.pending == RX_DEPTH && !bulkIn.draining
      ensures bulkIn.waits == old(bulkIn.waits)
      ensures bulkIn.cancels == old(bulkIn.cancels) + if Recovers(read, count) then 1 else 0
      ensures bulkIn.clears == old(bulkIn.clears) + if cleared.Some? then [cleared.value] else []
      ensures cleared.Some? ==> Recovers(read, count)
      ensures Recovers(read, count) && cleared.None? ==> bulkIn.pending > 0
    {
      count, why, cleared := stalls, None, None;
      assert routed + [] == routed && bulkIn.clears + [] == bulkIn.clears;
      if read.None? {
        return;
      }
      if read.value.Ok? {
        count := 0;
        bulkIn.Submit();
        HandleTransfer(read.value.value, clock);
      } else if IsFatal(read.value.error) {
        why := Some(Usb(read.value.error));
      } else if read.value.error.Stall? {
        count := stalls + 1;
        if count > MAX_CONSECUTIVE_STALLS {
          why := Some(Stalls(count));
          return;
        }
        var recovered := RecoverBulkIn(bulkIn);
        if bulkIn.clears != old(bulkIn.clears) {
          cleared := Some(recovered);
        }
        if recovered.Err? {
          why := Some(Usb(recovered.error));
        }
      } else {
        bulkIn.Submit();
      }
    }

    method Fail(why: Failure)
      modifies this`events
      ensures events == old(events) + [Failed(why)]
    {
      events := events + [Failed(why)];
    }

    /** Turn after turn; at each, exactly sixteen reads are pending. */
    method Listen(bulkIn: InEndpoint, clock: Clock, shutdown: Latch) returns (why: Option<Failure>)
      requires Valid() && OnTime(clock) && bulkIn.pending == 16 && events == [] && routed == []
      requires bulkIn.cancels == 0 && bulkIn.clears == [] && bulkIn.waits.NoWait? && !bulkIn.draining
      modifies this, arp, dhcp, timer, clock, bulkIn, shutdown
      ensures Valid() && OnTime(clock)
      ensures AllBound(events)
      ensures Endured(bulkIn.waits) && bulkIn.cancels == Recoveries(bulkIn.waits)
      ensures why == Outcome(bulkIn.waits, bulkIn.clears)
      ensures if why.None? then shutdown.raised && routed == AllRoutes(bulkIn.waits, hostMac)
              else bulkIn.waits.Waits? && routed == AllRoutes(bulkIn.waits.before, hostMac)
    {
      why := None;
      var stalls := 0;
      while why.None?
        invariant Valid() && OnTime(clock)
        invariant AllBound(events)
        invariant Endured(bulkIn.waits) && stalls == StallRun(bulkIn.waits)
        invariant bulkIn.cancels == Recoveries(bulkIn.waits) && why == Outcome(bulkIn.waits, bulkIn.clears)
        invariant why.None? ==>
                    && bulkIn.pending == 16 && !bulkIn.draining && Passed(bulkIn.waits)
                    && |bulkIn.clears| == Recoveries(bulkIn.waits)
                    && routed == AllRoutes(bulkIn.waits, hostMac)
        invariant why.Some? ==> bulkIn.waits.Waits? && routed == AllRoutes(bulkIn.waits.before, hostMac)
        decreases shutdown.fuse, why.None?
      {
        var stop := shutdown.Load();
        if stop {
          return;
        }
        stalls, why := Serve(bulkIn, clock, stalls);
      }
    }

    /** One wait, its turn, and, unless that ends the thread, a poll of the timer. */
    method Serve(bulkIn: InEndpoint, clock: Clock, stalls: nat) returns (count: nat, why: Option<Failure>)
      requires Valid() && OnTime(clock) && AllBound(events)
      requires bulkIn.pending == 16 && !bulkIn.draining
      requires Endured(bulkIn.waits) && Passed(bulkIn.waits) && stalls == StallRun(bulkIn.waits)
      requires bulkIn.cancels == Recoveries(bulkIn.waits) == |bulkIn.clears|
      requires routed == AllRoutes(bulkIn.waits, hostMac)
      modifies this, arp, dhcp, timer, clock, bulkIn
      ensures Valid() && OnTime(clock) && AllBound(events)
      ensures bulkIn.waits.Waits? && bulkIn.waits.before == old(bulkIn.waits)
      ensures Endured(bulkIn.waits) && count == StallRun(bulkIn.waits)
      ensures bulkIn.cancels == Recoveries(bulkIn.waits) && why == Outcome(bulkIn.waits, bulkIn.clears)
      ensures why.None? ==>
                && bulkIn.pending == 16 && !bulkIn.draining && Passed(bulkIn.waits)
                && |bulkIn.clears| == Recoveries(bulkIn.waits)
                && routed == AllRoutes(bulkIn.waits, hostMac)
      ensures why.Some? ==> routed == AllRoutes(bulkIn.waits.before, hostMac)
    {
      ghost var was, before, clears := events, bulkIn.waits, bulkIn.clears;
      var read := bulkIn.Wait();
      ghost var cleared;
      count, why, cleared := Turn(read, stalls, bulkIn, clock);
      WaitStep(before, read, clears, cleared);
      StillBound(was, events);
      if why.None? {
        PollTimer(clock);
      } else {
        assert AllRoutes(before, hostMac) + [] == AllRoutes(before, hostMac);
      }
    }

    /**
     * The thread. It ends on shutdown, or with one failure event, which is the
     * last event of all and the one that `Outcome` makes of what the endpoint's
     * waits and clearings of the halt returned. What was routed is what the
     * transfers among the waits hold, with a poll of the timer after each wait
     * that did not end the thread.
     */
    method RxLoop(bulkIn: InEndpoint, clock: Clock, shutdown: Latch)
      requires Valid() && OnTime(clock) && events == [] && routed == []
      requires bulkIn.pending == 0 && bulkIn.cancels == 0 && bulkIn.clears == []
      requires bulkIn.waits.NoWait? && !bulkIn.draining
      modifies this, arp, dhcp, timer, clock, bulkIn, shutdown
      ensures Sorted() && OnTime(clock)
      ensures Endured(bulkIn.waits) && bulkIn.cancels == Recoveries(bulkIn.waits)
      ensures var why, st := Outcome(bulkIn.waits, bulkIn.clears), Replay(start, inputs);
              && AllBound(st.events)
              && Value() == st.(events := st.events + if why.Some? then [Failed(why.value)] else [])
              && routed == AllRoutes(if why.Some? then bulkIn.waits.before else bulkIn.waits, hostMac)
              && (why.None? ==> shutdown.raised)
    {
      Refill(bulkIn);
      var why := Listen(bulkIn, clock, shutdown);
      assert events + [] == events;
      if why.Some? {
        Fail(why.value);
      }
    }

    method HandleArp(payload: bytes, clock: Clock)
      requires Valid() && OnTime(clock)
      modifies this, arp, clock
      ensures Valid() && OnTime(clock)
      ensures routed == old(routed) + [ToArp(payload)]
      ensures Extends(old(events), events)
    {
      var now := clock.Now();
      ghost var before := Value();
      var r := arp.Handle(payload, now);
      if r.Ok? && r.value.Some? {
        outbox := outbox + [r.value.value];
      }
      assert before.outbox + [] == before.outbox;
      assert Value() == Fed(before, ArpIn(payload, now));
      Record(before, ArpIn(payload, now), clock);
    }

    method HandleIpv4(srcMac: Mac, payload: bytes, clock: Clock)
      requires Valid() && OnTime(clock)
      modifies this, arp, dhcp, timer, clock
      ensures Valid() && OnTime(clock)
      ensures routed == old(routed) + [PacketRoute(payload, srcMac)]
      ensures Extends(old(events), events)
    {
      var d := ParseUdp(payload);
      if d.Ok? && d.value.dstPort == CLIENT_PORT && d.value.srcPort == SERVER_PORT {
        HandleDhcp(d.value.payload, d.value.srcIp, srcMac, clock);
      } else {
        Deliver(payload);
      }
    }

    /** Hand a packet to the tunnel. */
    method Deliver(packet: bytes)
      requires Valid()
      modifies this`sink, this`routed
      ensures Valid() && routed == old(routed) + [ToSink(packet)]
    {
      PartsOne(routed, ToSink(packet));
      assert StackPart(routed) + [] == StackPart(routed);
      sink := sink + [packet];
      routed := routed + [ToSink(packet)];
    }

    method HandleDhcp(msg: bytes, srcIp: Ip, srcMac: Mac, clock: Clock)
      requires Valid() && OnTime(clock)
      modifies this, arp, dhcp, timer, clock
      ensures Valid() && OnTime(clock)
      ensures routed == old(routed) + [ToDhcp(msg, srcIp, srcMac)]
      ensures Extends(old(events), events)
    {
      var now := clock.Now();
      var learned := clock.Now();
      ghost var before := Value();
      var out := timer.Deliver(dhcp, msg, now);
      ghost var joint := Joint(dhcp.Value(), timer.Value());
      assert (joint, out) == Delivered(before.joint, msg, now);
      Act(out, srcIp, srcMac, learned);
      assert Value() == Acted(before.(joint := joint), out, srcIp, srcMac, learned);
      DhcpInIs(before, msg, srcIp, srcMac, now, learned, joint, out);
      Record(before, DhcpIn(msg, srcIp, srcMac, now, learned), clock);
    }

    method Act(out: Output, srcIp: Ip, srcMac: Mac, learned: nat)
      requires arp.hostMac == hostMac
      modifies this`outbox, this`events, arp
      ensures Value() == Acted(old(Value()), out, srcIp, srcMac, learned)
      ensures out.Leased? ==> events == old(events) + [LinkEvent.Bound(out.lease)]
      ensures !out.Leased? ==> events == old(events)
    {
      if out.Sent? {
        var frame := WrapDhcp(hostMac, out.msg);
        outbox := outbox + [frame];
      } else if out.Leased? {
        arp.SetHostIp(out.lease.ip);
        arp.Insert(srcIp, srcMac, learned);
        events := events + [LinkEvent.Bound(out.lease)];
      }
    }

    /** Add an input to the history. */
    ghost method Record(before: Stack, input: Input, clock: Clock)
      requires arp.hostMac == hostMac && dhcp.mac == hostMac
      requires before == Replay(start, inputs) && Value() == Fed(before, input)
      requires Sorted() && InOrder(t0, inputs)
      requires LastReading(t0, inputs) <= Earliest(input) <= Latest(input) <= clock.time
      requires clock.readings == ReadingsOf(begun, Trace(inputs, input))
      modifies this`inputs, this`routed
      ensures Valid() && OnTime(clock)
      ensures inputs == Trace(old(inputs), input) && routed == old(routed) + [RouteBy(input)]
    {
      var route := RouteBy(input);
      PartsOne(routed, route);
      assert sink + [] == sink;
      inputs := Trace(inputs, input);
      routed := routed + [route];
    }
  }

  method WrapDhcp(mac: Mac, msg: bytes) returns (frame: bytes)
    ensures frame == DhcpFrame(mac, msg)
  {
    var ip := BuildUdp(UdpDatagram(UNSPECIFIED, BROADCAST_IP, CLIENT_PORT, SERVER_PORT, msg), 0);
    frame := Build(BROADCAST_MAC, mac, ETHERTYPE_IPV4, ip);
  }
}
