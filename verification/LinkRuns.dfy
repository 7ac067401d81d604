/**
 * Whole runs of the receive thread and whole paths of a packet: what the parts
 * of the link guarantee together.
 */
module LinkRuns {
  import opened Bytes
  import NetError
  import opened Ethernet
  import opened Ipv4
  import opened RndisWire
  import opened RndisPacket
  import opened DhcpMessage
  import opened Dhcp
  import opened DhcpRun
  import opened LinkRx
  import Arp
  import XidCycle

  // ------------------------------------------------- the client inside the link

  /** The client and timer steps among the inputs. */
  function StepsOf(inputs: Trace): seq<Step> {
    match inputs
    case Idle => []
    case Trace(before, input) => StepsOf(before) + StepOf(input)
  }

  function StepOf(input: Input): seq<Step> {
    match input
    case ArpIn(_, _) => []
    case DhcpIn(msg, _, _, now, _) => [Deliver(msg, now)]
    case Tick(now, later) => [Poll(now, later)]
  }

  lemma {:induction false} AfterOne(j: Joint, steps: seq<Step>, step: Step)
    ensures After(j, steps + [step]) == Take(After(j, steps), step).0
  {
    assert (steps + [step])[..|steps|] == steps;
  }

  /** Inside the link, client and timer run exactly as they do on their own. */
  lemma {:induction false} JointOfReplay(mac: Mac, t0: nat, inputs: Trace)
    ensures Replay(Begin(mac, t0), inputs).joint == After(Start(mac, t0), StepsOf(inputs))
  {
    if inputs.Trace? {
      JointOfReplay(mac, t0, inputs.before);
      var steps := StepsOf(inputs.before);
      JointStep(Replay(Begin(mac, t0), inputs.before), inputs.input, Start(mac, t0), steps);
    }
  }

  lemma {:induction false} JointStep(st: Stack, input: Input, j: Joint, steps: seq<Step>)
    requires st.joint == After(j, steps)
    ensures Fed(st, input).joint == After(j, steps + StepOf(input))
  {
    match input
    case ArpIn(_, _) =>
      assert steps + [] == steps;
    case DhcpIn(msg, _, _, now, _) =>
      AfterOne(j, steps, Deliver(msg, now));
    case Tick(now, later) =>
      AfterOne(j, steps, Poll(now, later));
  }

  /** At every point of every run of the receive thread, client and timer agree. */
  lemma {:induction false} LinkAgrees(mac: Mac, t0: nat, inputs: Trace)
    ensures Agree(Replay(Begin(mac, t0), inputs).joint)
  {
    JointOfReplay(mac, t0, inputs);
    AlwaysAgree(mac, t0, StepsOf(inputs));
  }

  // --------------------------------------------------- the ARP table in the link

  /** The calls on the responder that an input leads to. */
  function CallsOf(st: Stack, input: Input): seq<Arp.Call> {
    match input
    case ArpIn(payload, now) => [Arp.Hear(payload, now)]
    case DhcpIn(msg, srcIp, srcMac, now, learned) =>
      var out := Delivered(st.joint, msg, now).1;
      if out.Leased? then [Arp.SetIp(out.lease.ip), Arp.Learn(srcIp, srcMac, learned)] else []
    case Tick(_, _) => []
  }

  function AllCalls(st: Stack, inputs: Trace): seq<Arp.Call> {
    match inputs
    case Idle => []
    case Trace(before, input) => AllCalls(st, before) + CallsOf(Replay(st, before), input)
  }

  lemma {:induction false} CallOne(t: Arp.Table, calls: seq<Arp.Call>, call: Arp.Call)
    ensures Arp.After(t, calls + [call]) == Arp.Do(Arp.After(t, calls), call)
  {
    assert (calls + [call])[..|calls|] == calls;
  }

  lemma {:induction false} TableStep(st: Stack, input: Input, table: Arp.Table, calls: seq<Arp.Call>)
    requires st.table == Arp.After(table, calls)
    ensures Fed(st, input).table == Arp.After(table, calls + CallsOf(st, input))
  {
    match input
    case ArpIn(payload, now) =>
      CallOne(table, calls, Arp.Hear(payload, now));
    case DhcpIn(msg, srcIp, srcMac, now, learned) =>
      GrantStep(st.(joint := Delivered(st.joint, msg, now).0), Delivered(st.joint, msg, now).1,
                srcIp, srcMac, learned, table, calls);
    case Tick(_, _) =>
      assert calls + [] == calls;
  }

  lemma {:induction false} GrantStep(
      st: Stack, out: Output, srcIp: Ip, srcMac: Mac, learned: nat, table: Arp.Table, calls: seq<Arp.Call>)
    requires st.table == Arp.After(table, calls)
    ensures Acted(st, out, srcIp, srcMac, learned).table
         == Arp.After(table, calls + if out.Leased? then [Arp.SetIp(out.lease.ip), Arp.Learn(srcIp, srcMac, learned)]
                                     else [])
  {
    if out.Leased? {
      var first, second := Arp.SetIp(out.lease.ip), Arp.Learn(srcIp, srcMac, learned);
      CallOne(table, calls, first);
      CallOne(table, calls + [first], second);
      assert calls + [first, second] == calls + [first] + [second];
    } else {
      assert calls + [] == calls;
    }
  }

  /** The table is what a history of calls makes of it, so its theorems apply. */
  lemma {:induction false} TableOfReplay(mac: Mac, t0: nat, inputs: Trace)
    ensures Replay(Begin(mac, t0), inputs).table
         == Arp.After(Arp.NewTable(mac, UNSPECIFIED), AllCalls(Begin(mac, t0), inputs))
  {
    if inputs.Trace? {
      TableOfReplay(mac, t0, inputs.before);
      TableStep(Replay(Begin(mac, t0), inputs.before), inputs.input,
                Arp.NewTable(mac, UNSPECIFIED), AllCalls(Begin(mac, t0), inputs.before));
    }
  }

  // ------------------------------------------------------- our own address

  /** The address of the last lease reported, if any. */
  function LastAddress(events: seq<LinkEvent>): Ip
    requires AllBound(events)
  {
    if events == [] then UNSPECIFIED else events[|events| - 1].lease.ip
  }

  /** The address we answer ARP for is that of the last lease ever reported. */
  ghost predicate Answering(st: Stack) {
    && AllBound(st.events)
    && st.table.hostIp == LastAddress(st.events)
    && (st.events != [] ==> st.table.hostIp != UNSPECIFIED)
    && (st.joint.client.lease.Some? ==>
          st.events != [] && st.events[|st.events| - 1] == LinkEvent.Bound(st.joint.client.lease.value))
  }

  lemma FedAnswering(st: Stack, input: Input)
    requires Answering(st) && Agree(st.joint)
    ensures Answering(Fed(st, input))
  {
    match input
    case ArpIn(payload, now) =>
      KeptAnswering(st, Fed(st, input));
    case DhcpIn(msg, srcIp, srcMac, now, learned) =>
      var (joint, out) := Delivered(st.joint, msg, now);
      DhcpInIs(st, msg, srcIp, srcMac, now, learned, joint, out);
      DeliveredAgrees(st.joint, msg, now);
      LeaseStep(st.joint, Deliver(msg, now));
      ActedAnswering(st, joint, out, srcIp, srcMac, learned);
    case Tick(now, later) =>
      var (joint, out) := Polled(st.joint, now, later);
      TickIs(st, now, later, joint, out);
      LeaseStep(st.joint, Poll(now, later));
      KeptAnswering(st, Posted(st.(joint := joint), out));
  }

  lemma KeptAnswering(st: Stack, st': Stack)
    requires Answering(st)
    requires st'.joint.client.lease == st.joint.client.lease
    requires st'.table.hostIp == st.table.hostIp && st'.events == st.events
    ensures Answering(st')
  {
  }

  lemma ActedAnswering(st: Stack, joint: Joint, out: Output, srcIp: Ip, srcMac: Mac, learned: nat)
    requires Answering(st)
    requires joint.client.lease == if out.Leased? then Some(out.lease)
                                   else if out.Refused? then None
                                   else st.joint.client.lease
    requires out.Leased? ==> out.lease.ip != UNSPECIFIED
    ensures Answering(Acted(st.(joint := joint), out, srcIp, srcMac, learned))
  {
  }

  lemma {:induction false} AlwaysAnswering(mac: Mac, t0: nat, inputs: Trace)
    ensures Answering(Replay(Begin(mac, t0), inputs))
  {
    if inputs.Trace? {
      AlwaysAnswering(mac, t0, inputs.before);
      LinkAgrees(mac, t0, inputs.before);
      FedAnswering(Replay(Begin(mac, t0), inputs.before), inputs.input);
    }
  }

  /**
   * A refusal drops the lease but not the address: over every run, ARP answers
   * for the address held now, or for none, exactly when a lease is held or none
   * was ever reported.
   */
  lemma {:induction false} AnswersForLease(mac: Mac, t0: nat, inputs: Trace)
    ensures var st := Replay(Begin(mac, t0), inputs);
            var held := if st.joint.client.lease.Some? then st.joint.client.lease.value.ip else UNSPECIFIED;
            st.table.hostIp == held <==> st.joint.client.lease.Some? || st.events == []
  {
    AlwaysAnswering(mac, t0, inputs);
  }

  // ---------------------------------------------------------- what goes out

  /** An ARP reply in our name. */
  ghost predicate IsArpReply(frame: bytes, mac: Mac) {
    var f := Parse(frame);
    && f.Ok? && f.value.src == mac && f.value.ethertype == 0x0806
    && var p := Arp.ParsePacket(f.value.payload);
    && p.Ok? && p.value.op == 2
    && p.value.senderMac == mac && p.value.senderIp != [0, 0, 0, 0] && p.value.targetMac == f.value.dst
  }

  /** A DHCP message that conforms to some state of the client, as a server would read it. */
  ghost predicate IsDhcpRequest(frame: bytes, mac: Mac) {
    var f := Parse(frame);
    && f.Ok? && f.value.src == mac && f.value.dst == [0xFF, 0xFF, 0xFF, 0xFF, 0xFF, 0xFF]
    && f.value.ethertype == 0x0800
    && var d := ParseUdp(f.value.payload);
    && d.Ok? && d.value.srcPort == 68 && d.value.dstPort == 67
    && d.value.srcIp == [0, 0, 0, 0] && d.value.dstIp == [255, 255, 255, 255]
    && exists c: Client :: c.mac == mac && Conforms(d.value.payload, c)
  }

  lemma DhcpFrameReads(mac: Mac, msg: bytes, c: Client)
    requires Conforms(msg, c) && c.mac == mac
    ensures IsDhcpRequest(DhcpFrame(mac, msg), mac)
  {
    var d := UdpDatagram(UNSPECIFIED, BROADCAST_IP, CLIENT_PORT, SERVER_PORT, msg);
    ParseBuild(BROADCAST_MAC, mac, ETHERTYPE_IPV4, UdpPacket(d, 0));
    UdpRoundTrip(d, 0, []);
    assert UdpPacket(d, 0) + [] == UdpPacket(d, 0);
    assert Zeros(0) == [];
  }

  ghost predicate AllSound(frames: seq<bytes>, mac: Mac) {
    forall i :: 0 <= i < |frames| ==> IsArpReply(frames[i], mac) || IsDhcpRequest(frames[i], mac)
  }

  lemma PostSound(mac: Mac, j: Joint, out: Output)
    requires Agree(j) && j.client.mac == mac
    requires out.Sent? && Pending(j.client) == Some(out.msg)
    ensures IsDhcpRequest(DhcpFrame(mac, out.msg), mac)
  {
    PendingConforms(j);
    DhcpFrameReads(mac, out.msg, j.client);
  }

  lemma ReplySound(t: Arp.Table, payload: bytes, now: nat)
    ensures var r := Arp.Received(t, payload, now).1;
            r.Ok? && r.value.Some? ==> IsArpReply(r.value.value, t.hostMac)
  {
    Arp.RepliesAnswer(t, payload, now);
  }

  /** The MAC is fixed for the life of the link. */
  ghost predicate Named(st: Stack, mac: Mac) {
    st.joint.client.mac == mac && st.table.hostMac == mac
  }

  lemma FedNamed(st: Stack, input: Input, mac: Mac)
    requires Named(st, mac)
    ensures Named(Fed(st, input), mac)
  {
    match input
    case ArpIn(_, _) =>
    case DhcpIn(msg, _, _, now, _) =>
      assert Delivered(st.joint, msg, now).0.client.mac == mac;
    case Tick(_, _) =>
  }

  lemma {:induction false} AlwaysNamed(mac: Mac, t0: nat, inputs: Trace)
    ensures Named(Replay(Begin(mac, t0), inputs), mac)
  {
    if inputs.Trace? {
      AlwaysNamed(mac, t0, inputs.before);
      FedNamed(Replay(Begin(mac, t0), inputs.before), inputs.input, mac);
    }
  }

  lemma PostedSound(mac: Mac, st: Stack, out: Output)
    requires AllSound(st.outbox, mac) && st.table.hostMac == mac
    requires out.Sent? ==> IsDhcpRequest(DhcpFrame(mac, out.msg), mac)
    ensures AllSound(Posted(st, out).outbox, mac)
  {
  }

  /** One input adds at most one frame, and a sound one. */
  lemma FedSound(mac: Mac, st: Stack, input: Input)
    requires Agree(st.joint) && Named(st, mac)
    requires AllSound(st.outbox, mac)
    ensures AllSound(Fed(st, input).outbox, mac)
  {
    match input
    case ArpIn(payload, now) =>
      ReplySound(st.table, payload, now);
    case DhcpIn(msg, srcIp, srcMac, now, learned) =>
      var (j, out) := Delivered(st.joint, msg, now);
      DeliveredSound(mac, st, msg, now);
      DhcpInIs(st, msg, srcIp, srcMac, now, learned, j, out);
      PostedSound(mac, st.(joint := j), out);
    case Tick(now, later) =>
      var (j, out) := Polled(st.joint, now, later);
      PolledSound(mac, st, now, later);
      TickIs(st, now, later, j, out);
      PostedSound(mac, st.(joint := j), out);
  }

  lemma DeliveredSound(mac: Mac, st: Stack, msg: bytes, now: nat)
    requires Agree(st.joint) && Named(st, mac)
    ensures var out := Delivered(st.joint, msg, now).1;
            out.Sent? ==> IsDhcpRequest(DhcpFrame(mac, out.msg), mac)
  {
    DeliveredAgrees(st.joint, msg, now);
    var (j, out) := Delivered(st.joint, msg, now);
    if out.Sent? {
      PostSound(mac, j, out);
    }
  }

  lemma PolledSound(mac: Mac, st: Stack, now: nat, later: nat)
    requires Agree(st.joint) && Named(st, mac)
    ensures var out := Polled(st.joint, now, later).1;
            out.Sent? ==> IsDhcpRequest(DhcpFrame(mac, out.msg), mac)
  {
    PolledAgrees(st.joint, now, later);
    var (j, out) := Polled(st.joint, now, later);
    if out.Sent? {
      PostSound(mac, j, out);
    }
  }

  /**
   * Over every run, every frame the receive thread queues is an ARP reply in our
   * own name with an assigned address, or a DHCP message of a form that some state
   * of the client demands, readable through all its wrappings.
   */
  lemma {:induction false} OutboxSound(mac: Mac, t0: nat, inputs: Trace)
    ensures AllSound(Replay(Begin(mac, t0), inputs).outbox, mac)
  {
    if inputs.Idle? {
      AlwaysAgree(mac, t0, []);
      var j := Start(mac, t0);
      PostSound(mac, j, Sent(Pending(j.client).value));
    } else {
      OutboxSound(mac, t0, inputs.before);
      LinkAgrees(mac, t0, inputs.before);
      AlwaysNamed(mac, t0, inputs.before);
      FedSound(mac, Replay(Begin(mac, t0), inputs.before), inputs.input);
    }
  }

  /** The IPv4 frames among those queued. */
  predicate IsIpv4(frame: bytes) {
    Parse(frame).Ok? && Parse(frame).value.ethertype == 0x0800
  }

  function Ipv4Frames(frames: seq<bytes>): seq<bytes> {
    if frames == [] then []
    else
      var n := |frames| - 1;
      Ipv4Frames(frames[..n]) + if IsIpv4(frames[n]) then [frames[n]] else []
  }

  lemma {:induction false} Ipv4One(frames: seq<bytes>, frame: bytes)
    ensures Ipv4Frames(frames + [frame]) == Ipv4Frames(frames) + if IsIpv4(frame) then [frame] else []
  {
    assert (frames + [frame])[..|frames|] == frames;
  }

  /** What an output puts on the wire. */
  function Framed(mac: Mac, out: Output): seq<bytes> {
    if out.Sent? then [DhcpFrame(mac, out.msg)] else []
  }

  /** The messages that the steps put out, in order, as they go out on the wire. */
  function SentFrames(mac: Mac, j: Joint, steps: seq<Step>): seq<bytes> {
    if steps == [] then []
    else
      var n := |steps| - 1;
      SentFrames(mac, j, steps[..n]) + Framed(mac, Out(j, steps, n))
  }

  /** What an input makes the client and its timer put out. */
  function Shown(st: Stack, input: Input): Output {
    match input
    case ArpIn(_, _) => Quiet
    case DhcpIn(msg, _, _, now, _) => Delivered(st.joint, msg, now).1
    case Tick(now, later) => Polled(st.joint, now, later).1
  }

  lemma {:induction false} SentOne(mac: Mac, st: Stack, input: Input, j: Joint, steps: seq<Step>)
    requires st.joint == After(j, steps)
    ensures SentFrames(mac, j, steps + StepOf(input)) == SentFrames(mac, j, steps) + Framed(mac, Shown(st, input))
  {
    if input.ArpIn? {
      assert steps + [] == steps;
    } else {
      var step := StepOf(input)[0];
      assert (steps + [step])[..|steps|] == steps;
      assert Out(j, steps + [step], |steps|) == Take(st.joint, step).1;
    }
  }

  lemma DhcpFrameIsIpv4(mac: Mac, msg: bytes)
    ensures IsIpv4(DhcpFrame(mac, msg))
  {
    var d := UdpDatagram(UNSPECIFIED, BROADCAST_IP, CLIENT_PORT, SERVER_PORT, msg);
    ParseBuild(BROADCAST_MAC, mac, ETHERTYPE_IPV4, UdpPacket(d, 0));
  }

  lemma {:induction false} PostedFrames(mac: Mac, st: Stack, out: Output)
    requires st.table.hostMac == mac
    ensures Ipv4Frames(Posted(st, out).outbox) == Ipv4Frames(st.outbox) + Framed(mac, out)
  {
    if out.Sent? {
      Ipv4One(st.outbox, DhcpFrame(mac, out.msg));
      DhcpFrameIsIpv4(mac, out.msg);
    } else {
      assert Ipv4Frames(st.outbox) + [] == Ipv4Frames(st.outbox);
    }
  }

  /** A grant queues nothing. */
  lemma {:induction false} ActedFrames(mac: Mac, st: Stack, out: Output, srcIp: Ip, srcMac: Mac, learned: nat)
    requires st.table.hostMac == mac
    ensures Ipv4Frames(Acted(st, out, srcIp, srcMac, learned).outbox) == Ipv4Frames(st.outbox) + Framed(mac, out)
  {
    if out.Leased? {
      assert Ipv4Frames(st.outbox) + [] == Ipv4Frames(st.outbox);
    } else {
      PostedFrames(mac, st, out);
    }
  }

  /** The IPv4 frames an input adds are what it makes the client put out. */
  lemma {:induction false} FedFrames(mac: Mac, st: Stack, input: Input)
    requires Named(st, mac)
    ensures Ipv4Frames(Fed(st, input).outbox) == Ipv4Frames(st.outbox) + Framed(mac, Shown(st, input))
  {
    match input
    case ArpIn(payload, now) =>
      ArpAddsNone(mac, st, payload, now);
      assert Ipv4Frames(st.outbox) + [] == Ipv4Frames(st.outbox);
    case DhcpIn(msg, srcIp, srcMac, now, learned) =>
      var (joint, out) := Delivered(st.joint, msg, now);
      DhcpInIs(st, msg, srcIp, srcMac, now, learned, joint, out);
      ActedFrames(mac, st.(joint := joint), out, srcIp, srcMac, learned);
    case Tick(now, later) =>
      var (joint, out) := Polled(st.joint, now, later);
      TickIs(st, now, later, joint, out);
      PostedFrames(mac, st.(joint := joint), out);
  }

  lemma {:induction false} ArpAddsNone(mac: Mac, st: Stack, payload: bytes, now: nat)
    requires Named(st, mac)
    ensures Ipv4Frames(Fed(st, ArpIn(payload, now)).outbox) == Ipv4Frames(st.outbox)
  {
    var r := Arp.Received(st.table, payload, now).1;
    if r.Ok? && r.value.Some? {
      ReplySound(st.table, payload, now);
      Ipv4One(st.outbox, r.value.value);
      assert Ipv4Frames(st.outbox) + [] == Ipv4Frames(st.outbox);
    } else {
      assert st.outbox + [] == st.outbox;
    }
  }

  /** The first DISCOVER, which is sent before anything comes in. */
  function FirstFrame(mac: Mac, t0: nat): bytes {
    DhcpFrame(mac, Pending(Start(mac, t0).client).value)
  }

  /**
   * Over every run, the IPv4 frames queued are the first DISCOVER and then, in
   * order and each once, the messages that the run's own steps put out. What
   * holds of those messages therefore holds of the link's frames.
   */
  lemma {:induction false} OutboxExact(mac: Mac, t0: nat, inputs: Trace)
    ensures Ipv4Frames(Replay(Begin(mac, t0), inputs).outbox)
         == [FirstFrame(mac, t0)] + SentFrames(mac, Start(mac, t0), StepsOf(inputs))
  {
    var first := [FirstFrame(mac, t0)];
    if inputs.Idle? {
      DhcpFrameIsIpv4(mac, Pending(Start(mac, t0).client).value);
      Ipv4One([], FirstFrame(mac, t0));
      assert [] + first == first && first + [] == first;
    } else {
      var before, steps := Replay(Begin(mac, t0), inputs.before), StepsOf(inputs.before);
      OutboxExact(mac, t0, inputs.before);
      AlwaysNamed(mac, t0, inputs.before);
      JointOfReplay(mac, t0, inputs.before);
      FedFrames(mac, before, inputs.input);
      SentOne(mac, before, inputs.input, Start(mac, t0), steps);
      Assoc(first, SentFrames(mac, Start(mac, t0), steps), Framed(mac, Shown(before, inputs.input)));
    }
  }

  /** The id that follows a number. */
  function IdBehind(seed: nat): nat {
    (1_664_525 * seed + 1_013_904_223) % 0x1_0000_0000
  }

  /**
   * The first DISCOVER goes by the id that follows the number in the last four
   * bytes of our MAC.
   */
  lemma FirstDiscoverId(mac: Mac, t0: nat)
    ensures var msg := Pending(Start(mac, t0).client).value;
            && |msg| == 300
            && Be32At(msg, 4) == IdBehind(0x100_0000 * mac[2] as int + 0x1_0000 * mac[3] as int
                                          + 0x100 * mac[4] as int + mac[5] as int)
  {
    var seed := Be32At(mac, 2);
    DiscoverId(mac, XidCycle.NextXid(seed));
    XidCycle.KnownIds(seed);
    WireOrders(0, mac, 2);
  }

  lemma DiscoverId(mac: Mac, xid: u32)
    ensures var msg := Encode(mac, xid, DISCOVER, UNSPECIFIED, None, None);
            |msg| == 300 && Be32At(msg, 4) == xid
  {
    EncodeReads(mac, xid, DISCOVER, UNSPECIFIED, None, None);
  }

  lemma FrontSame(j: Joint, steps: seq<Step>, n: nat, i: nat)
    requires i < n <= |steps|
    ensures Out(j, steps[..n], i) == Out(j, steps, i)
  {
    assert steps[..n][..i] == steps[..i];
  }

  /** Each of them is the message of one step. */
  lemma {:induction false} SentFrameAt(mac: Mac, j: Joint, steps: seq<Step>, k: nat) returns (i: nat)
    requires k < |SentFrames(mac, j, steps)|
    ensures i < |steps| && Out(j, steps, i).Sent?
    ensures SentFrames(mac, j, steps)[k] == DhcpFrame(mac, Out(j, steps, i).msg)
  {
    var n := |steps| - 1;
    if k < |SentFrames(mac, j, steps[..n])| {
      i := SentFrameAt(mac, j, steps[..n], k);
      FrontSame(j, steps, n, i);
    } else {
      i := n;
    }
  }

  /** So each frame carries a message that conforms to the state its own step leaves behind. */
  lemma {:induction false} SentFramesConform(mac: Mac, t0: nat, steps: seq<Step>, k: nat) returns (i: nat)
    requires k < |SentFrames(mac, Start(mac, t0), steps)|
    ensures i < |steps| && Out(Start(mac, t0), steps, i).Sent?
    ensures SentFrames(mac, Start(mac, t0), steps)[k] == DhcpFrame(mac, Out(Start(mac, t0), steps, i).msg)
    ensures Conforms(Out(Start(mac, t0), steps, i).msg, At(Start(mac, t0), steps, i + 1).client)
  {
    i := SentFrameAt(mac, Start(mac, t0), steps, k);
    SentConforms(mac, t0, steps, i);
  }

  // --------------------------------------------------------- who receives what

  /** How many items come before the first framing error. */
  function Intact(items: seq<Item>): nat {
    if items == [] || items[0].Bad? then 0 else 1 + Intact(items[1..])
  }

  datatype Taker = Resolver | Client | Tunnel | Timekeeper

  function TakerOf(route: Route): Taker {
    match route
    case ToArp(_) => Resolver
    case ToDhcp(_, _, _) => Taker.Client
    case ToSink(_) => Tunnel
    case ToTimer => Timekeeper
  }

  /** A well-formed datagram from port 67 to port 68. */
  predicate FromServer(d: Result<UdpDatagram, NetError.Error>) {
    d.Ok? && d.value.srcPort == 67 && d.value.dstPort == 68
  }

  /** What a frame must be for each taker; the conditions exclude each other. */
  predicate MeantFor(item: Item, taker: Taker, hostMac: Mac) {
    && item.Frame?
    && var f := Parse(item.frame);
    && f.Ok? && (f.value.dst == hostMac || f.value.dst[0] % 2 == 1)
    && match taker
       case Resolver => f.value.ethertype == 0x0806
       case Client => f.value.ethertype == 0x0800 && FromServer(ParseUdp(f.value.payload))
       case Tunnel => f.value.ethertype == 0x0800 && !FromServer(ParseUdp(f.value.payload))
       case Timekeeper => false
  }

  /** What it then gets of the frame. */
  predicate TakenFrom(route: Route, item: Item) {
    && item.Frame? && Parse(item.frame).Ok?
    && var f := Parse(item.frame).value;
    match route
    case ToArp(payload) => payload == f.payload
    case ToDhcp(msg, srcIp, srcMac) =>
      var d := ParseUdp(f.payload);
      d.Ok? && msg == d.value.payload && srcIp == d.value.srcIp && srcMac == f.src
    case ToSink(packet) => packet == f.payload
    case ToTimer => false
  }

  /** The routes to one taker. */
  function Share(routes: seq<Route>, taker: Taker): seq<Route> {
    if routes == [] then []
    else
      var n := |routes| - 1;
      Share(routes[..n], taker) + if TakerOf(routes[n]) == taker then [routes[n]] else []
  }

  /** The positions of its frames among the items. */
  function Positions(items: seq<Item>, taker: Taker, hostMac: Mac, base: nat): seq<nat>
    decreases |items|
  {
    if items == [] || items[0].Bad? then []
    else (if MeantFor(items[0], taker, hostMac) then [base] else [])
         + Positions(items[1..], taker, hostMac, base + 1)
  }

  lemma {:induction false} ShareConcat(a: seq<Route>, b: seq<Route>, taker: Taker)
    ensures Share(a + b, taker) == Share(a, taker) + Share(b, taker)
    decreases |b|
  {
    if b == [] {
      assert a + b == a;
    } else {
      var n := |b| - 1;
      assert (a + b)[..|a| + n] == a + b[..n];
      ShareConcat(a, b[..n], taker);
      Assoc(Share(a, taker), Share(b[..n], taker), if TakerOf(b[n]) == taker then [b[n]] else []);
    }
  }

  /** The sink holds the packets of the tunnel's share. */
  lemma {:induction false} SinkIsShare(routes: seq<Route>)
    ensures var share := Share(routes, Tunnel);
            && |SinkPart(routes)| == |share|
            && forall i :: 0 <= i < |share| ==> share[i] == ToSink(SinkPart(routes)[i])
  {
    if routes != [] {
      SinkIsShare(routes[..|routes| - 1]);
    }
  }

  lemma {:induction false} ShareOne(routes: seq<Route>, route: Route, taker: Taker)
    ensures Share(routes + [route], taker) == Share(routes, taker) + if TakerOf(route) == taker then [route] else []
  {
    assert (routes + [route])[..|routes|] == routes;
  }

  /** The stack gets the shares of all the others, in order, and nothing of the sink's. */
  lemma {:induction false} StackIsRest(routes: seq<Route>, taker: Taker)
    ensures Share(StackPart(routes), taker) == if taker == Tunnel then [] else Share(routes, taker)
  {
    if routes != [] {
      var n := |routes| - 1;
      var stack := StackPart(routes[..n]);
      StackIsRest(routes[..n], taker);
      if routes[n].ToSink? {
        assert stack + [] == stack;
      } else {
        ShareOne(stack, routes[n], taker);
      }
    }
  }

  lemma {:induction false} ShareOfRoute(item: Item, taker: Taker, hostMac: Mac)
    requires item.Frame?
    ensures var share := Share(RouteOf(item.frame, hostMac), taker);
            if MeantFor(item, taker, hostMac) then |share| == 1 && TakenFrom(share[0], item) else share == []
  {
    var routes := RouteOf(item.frame, hostMac);
    if routes != [] {
      assert routes == [routes[0]];
      assert routes[..0] == [];
    }
  }

  /** Position `k`, counted from `base`, is one of the taker's. */
  predicate IsPosition(k: nat, items: seq<Item>, taker: Taker, hostMac: Mac, base: nat) {
    base <= k < base + Intact(items) && k - base < |items| && MeantFor(items[k - base], taker, hostMac)
  }

  /** `positions` lists exactly the taker's items from `base` on, in order. */
  ghost predicate Lists(positions: seq<nat>, items: seq<Item>, taker: Taker, hostMac: Mac, base: nat) {
    && Rising(positions, base)
    && forall k: nat :: k in positions <==> IsPosition(k, items, taker, hostMac, base)
  }

  /** Strictly increasing, from `base` on. */
  ghost predicate Rising(positions: seq<nat>, base: nat) {
    && (forall k :: k in positions ==> base <= k)
    && (forall i, j :: 0 <= i < j < |positions| ==> positions[i] < positions[j])
  }

  lemma RisingCons(base: nat, rest: seq<nat>)
    requires Rising(rest, base + 1)
    ensures Rising([base] + rest, base) && Rising(rest, base)
  {
    assert forall i :: 0 <= i < |rest| ==> rest[i] in rest;
  }

  lemma {:induction false} PositionsList(items: seq<Item>, taker: Taker, hostMac: Mac, base: nat)
    ensures Lists(Positions(items, taker, hostMac, base), items, taker, hostMac, base)
    decreases |items|
  {
    if items != [] && items[0].Frame? {
      var rest := Positions(items[1..], taker, hostMac, base + 1);
      PositionsList(items[1..], taker, hostMac, base + 1);
      RisingCons(base, rest);
      ListsCons(items, taker, hostMac, base, rest);
    }
  }

  lemma ListsCons(items: seq<Item>, taker: Taker, hostMac: Mac, base: nat, rest: seq<nat>)
    requires items != [] && items[0].Frame?
    requires Lists(rest, items[1..], taker, hostMac, base + 1)
    requires Rising([base] + rest, base) && Rising(rest, base)
    ensures Lists((if MeantFor(items[0], taker, hostMac) then [base] else []) + rest, items, taker, hostMac, base)
  {
    var first: seq<nat> := if MeantFor(items[0], taker, hostMac) then [base] else [];
    assert first + rest == if MeantFor(items[0], taker, hostMac) then [base] + rest else rest;
    forall k: nat
      ensures k in first + rest <==> IsPosition(k, items, taker, hostMac, base)
    {
      assert k in first + rest <==> k in first || k in rest;
      PositionStep(k, items, taker, hostMac, base);
    }
  }

  lemma PositionStep(k: nat, items: seq<Item>, taker: Taker, hostMac: Mac, base: nat)
    requires items != [] && items[0].Frame?
    ensures IsPosition(k, items, taker, hostMac, base) <==>
            || (k == base && MeantFor(items[0], taker, hostMac))
            || IsPosition(k, items[1..], taker, hostMac, base + 1)
  {
  }

  /** Each route was taken from the item at its position. */
  ghost predicate Matches(routes: seq<Route>, positions: seq<nat>, items: seq<Item>, base: nat) {
    && |routes| == |positions|
    && forall i :: 0 <= i < |routes| ==>
         base <= positions[i] < base + |items| && TakenFrom(routes[i], items[positions[i] - base])
  }

  lemma {:induction false} ShareMatches(items: seq<Item>, taker: Taker, hostMac: Mac, base: nat)
    ensures Matches(Share(Dispatch(items, hostMac), taker), Positions(items, taker, hostMac, base), items, base)
    decreases |items|
  {
    if items != [] && items[0].Frame? {
      var first, rest := RouteOf(items[0].frame, hostMac), Dispatch(items[1..], hostMac);
      ShareMatches(items[1..], taker, hostMac, base + 1);
      ShareConcat(first, rest, taker);
      ShareOfRoute(items[0], taker, hostMac);
      MatchesCons(items, base, Share(first, taker), Share(rest, taker),
                  Positions(items[1..], taker, hostMac, base + 1));
    }
  }

  lemma MatchesCons(items: seq<Item>, base: nat, first: seq<Route>, routes: seq<Route>, rest: seq<nat>)
    requires items != [] && |first| <= 1
    requires forall i :: 0 <= i < |first| ==> TakenFrom(first[i], items[0])
    requires Matches(routes, rest, items[1..], base + 1)
    ensures Matches(first + routes, (if |first| == 1 then [base] else []) + rest, items, base)
  {
    assert forall i :: 0 <= i < |rest| ==> items[rest[i] - base] == items[1..][rest[i] - (base + 1)];
  }

  /**
   * For every transfer and every taker: it receives something of exactly those
   * frames before the first framing error that are meant for it, in order, each
   * once. So the sink gets the addressed IPv4 packets that are no DHCP replies,
   * those go to the client and never to the sink, and ARP goes to the resolver.
   */
  lemma {:induction false} DispatchExact(data: bytes, taker: Taker, hostMac: Mac)
    ensures var items := Decode(data);
            var positions := Positions(items, taker, hostMac, 0);
            && Lists(positions, items, taker, hostMac, 0)
            && Matches(Share(Dispatch(items, hostMac), taker), positions, items, 0)
  {
    PositionsList(Decode(data), taker, hostMac, 0);
    ShareMatches(Decode(data), taker, hostMac, 0);
  }

  // --------------------------------------------------------------- end to end

  /**
   * A datagram survives all its wrappings: built as UDP over IPv4, framed as
   * Ethernet and packed anywhere in a batch, it is decoded at its place in the
   * transfer with the same addresses, ports and payload, whatever padding each
   * layer added, exactly when its payload fits the length fields.
   */
  lemma {:induction false} EndToEnd(
      d: UdpDatagram, ipId: u16, dst: Mac, src: Mac,
      before: seq<bytes>, after: seq<bytes>, alignment: nat, trailer: bytes)
    requires |trailer| < DATA_HEADER_LEN
    requires var frame := Build(dst, src, ETHERTYPE_IPV4, UdpPacket(d, ipId));
             AllEncodable(before + [frame] + after, alignment)
    ensures var frame := Build(dst, src, ETHERTYPE_IPV4, UdpPacket(d, ipId));
            var items := Decode(Messages(before + [frame] + after, alignment) + trailer);
            && |items| == |before| + 1 + |after|
            && items[|before|].Frame?
            && var f := Parse(items[|before|].frame);
            && f.Ok? && f.value.dst == dst && f.value.src == src && f.value.ethertype == ETHERTYPE_IPV4
            && (ParseUdp(f.value.payload) == Ok(d) <==> |d.payload| <= MAX_PAYLOAD)
  {
    var packet := UdpPacket(d, ipId);
    var frame := Build(dst, src, ETHERTYPE_IPV4, packet);
    DecodeMessages(before + [frame] + after, alignment, trailer);
    ParseBuild(dst, src, ETHERTYPE_IPV4, packet);
    UdpRoundTrip(d, ipId, Zeros(if |packet| < 46 then 46 - |packet| else 0));
  }

  lemma {:induction false} DispatchConcat(a: seq<Item>, b: seq<Item>, hostMac: Mac)
    requires forall i :: 0 <= i < |a| ==> a[i].Frame?
    ensures Dispatch(a + b, hostMac) == Dispatch(a, hostMac) + Dispatch(b, hostMac)
  {
    if a == [] {
      assert a + b == b;
    } else {
      assert (a + b)[1..] == a[1..] + b;
      DispatchConcat(a[1..], b, hostMac);
      Assoc(RouteOf(a[0].frame, hostMac), Dispatch(a[1..], hostMac), Dispatch(b, hostMac));
    }
  }

  lemma OksAround(before: seq<bytes>, frame: bytes, after: seq<bytes>)
    ensures Oks(before + [frame] + after) == Oks(before) + ([Frame(frame)] + Oks(after))
  {
  }

  lemma ReplyRoute(d: UdpDatagram, ipId: u16, dst: Mac, src: Mac, hostMac: Mac)
    requires |d.payload| <= MAX_PAYLOAD
    requires d.srcPort == SERVER_PORT && d.dstPort == CLIENT_PORT
    requires dst == hostMac || IsMulticast(dst)
    ensures RouteOf(Build(dst, src, ETHERTYPE_IPV4, UdpPacket(d, ipId)), hostMac)
         == [ToDhcp(d.payload, d.srcIp, src)]
  {
    var packet := UdpPacket(d, ipId);
    ParseBuild(dst, src, ETHERTYPE_IPV4, packet);
    UdpRoundTrip(d, ipId, Zeros(if |packet| < 46 then 46 - |packet| else 0));
  }

  /**
   * A server's reply sent to us or broadcast, anywhere in a transfer, reaches the
   * DHCP client exactly once, in its place among what the other frames lead to.
   */
  lemma {:induction false} ReplyReachesClient(
      d: UdpDatagram, ipId: u16, dst: Mac, src: Mac, hostMac: Mac,
      before: seq<bytes>, after: seq<bytes>, alignment: nat, trailer: bytes)
    requires |trailer| < DATA_HEADER_LEN && |d.payload| <= MAX_PAYLOAD
    requires d.srcPort == SERVER_PORT && d.dstPort == CLIENT_PORT
    requires dst == hostMac || IsMulticast(dst)
    requires var frame := Build(dst, src, ETHERTYPE_IPV4, UdpPacket(d, ipId));
             AllEncodable(before + [frame] + after, alignment)
    ensures var frame := Build(dst, src, ETHERTYPE_IPV4, UdpPacket(d, ipId));
            var items := Decode(Messages(before + [frame] + after, alignment) + trailer);
            Dispatch(items, hostMac)
            == Dispatch(Oks(before), hostMac) + [ToDhcp(d.payload, d.srcIp, src)] + Dispatch(Oks(after), hostMac)
  {
    var frame := Build(dst, src, ETHERTYPE_IPV4, UdpPacket(d, ipId));
    DecodeMessages(before + [frame] + after, alignment, trailer);
    OksAround(before, frame, after);
    DispatchConcat(Oks(before), [Frame(frame)] + Oks(after), hostMac);
    DispatchStep(Frame(frame), Oks(after), hostMac);
    ReplyRoute(d, ipId, dst, src, hostMac);
    Assoc(Dispatch(Oks(before), hostMac), [ToDhcp(d.payload, d.srcIp, src)], Dispatch(Oks(after), hostMac));
  }
}
