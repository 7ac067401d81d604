/**
 * The DHCP client together with its retransmit timer, as the receive thread
 * drives them (`src/link.rs`). Clock readings are arguments, in nanoseconds.
 */
module DhcpRun {
  import opened Bytes
  import opened NetError
  import opened Ethernet
  import opened DhcpMessage
  import opened Dhcp

  const DHCP_RETRY_MIN: nat := 1 * SECOND
  const DHCP_RETRY_MAX: nat := 16 * SECOND

  datatype Timer = Timer(next: nat, backoff: nat, renewAt: Option<nat>)

  // ------------------------------------------------------------ specification

  function NewTimer(now: nat): Timer {
    Timer(now + DHCP_RETRY_MIN, DHCP_RETRY_MIN, None)
  }

  function BoundTimer(lease: Lease, now: nat): Timer {
    Timer(now + lease.renewalTime, DHCP_RETRY_MIN, Some(now + lease.renewalTime))
  }

  function RestartedTimer(now: nat): Timer {
    Timer(now, DHCP_RETRY_MIN, None)
  }

  /** The pair of state machines. */
  datatype Joint = Joint(client: Client, timer: Timer)

  /** What one step shows to the outside. */
  datatype Output = Quiet | Sent(msg: bytes) | Leased(lease: Lease) | Refused

  /** A timer poll: the first clock reading decides, the second one schedules. */
  function Polled(j: Joint, now: nat, later: nat): (Joint, Output) {
    if now < j.timer.next then (j, Quiet)
    else if j.timer.renewAt.Some? then
      var client := Renewed(j.client);
      (Joint(client, Timer(later + DHCP_RETRY_MIN, DHCP_RETRY_MIN, None)),
       if j.client.lease.None? || Pending(client).None? then Quiet else Sent(Pending(client).value))
    else
      var backoff := Min(j.timer.backoff * 2, DHCP_RETRY_MAX);
      var client := if Pending(j.client).Some? then j.client else Discovered(j.client);
      (Joint(client, Timer(later + backoff, backoff, None)), Sent(Pending(client).value))
  }

  /** A DHCP payload reaches the client; a lease or a refusal resets the timer. */
  function Delivered(j: Joint, msg: bytes, now: nat): (Joint, Output) {
    var (client, r) := Handled(j.client, msg);
    match r
    case Ok(Send(m)) => (Joint(client, j.timer), Sent(m))
    case Ok(Bound(lease)) => (Joint(client, BoundTimer(lease, now)), Leased(lease))
    case Ok(Nak) => (Joint(client, RestartedTimer(now)), Refused)
    case _ => (Joint(client, j.timer), Quiet)
  }

  // ------------------------------------------------------------------- object

  class DhcpTimer {
    var next: nat
    var backoff: nat
    var renewAt: Option<nat>

    ghost function Value(): Timer
      reads this
    {
      Timer(next, backoff, renewAt)
    }

    constructor (now: nat)
      ensures Value() == NewTimer(now)
    {
      next := now + DHCP_RETRY_MIN;
      backoff := DHCP_RETRY_MIN;
      renewAt := None;
    }

    method Bound(lease: Lease, now: nat)
      modifies this
      ensures Value() == BoundTimer(lease, now)
    {
      backoff := DHCP_RETRY_MIN;
      renewAt := Some(now + lease.renewalTime);
      next := renewAt.value;
    }

    method Restart(now: nat)
      modifies this
      ensures Value() == RestartedTimer(now)
    {
      backoff := DHCP_RETRY_MIN;
      next := now;
      renewAt := None;
    }

    /** Feed the client, and let a lease or a refusal reset the timer. */
    method Deliver(dhcp: DhcpClient, msg: bytes, now: nat) returns (out: Output)
      modifies this, dhcp
      ensures (Joint(dhcp.Value(), Value()), out) == Delivered(old(Joint(dhcp.Value(), Value())), msg, now)
    {
      var r := dhcp.Handle(msg);
      match r
      case Ok(Send(m)) =>
        out := Sent(m);
      case Ok(Bound(lease)) =>
        Bound(lease, now);
        out := Leased(lease);
      case Ok(Nak) =>
        Restart(now);
        out := Refused;
      case _ =>
        out := Quiet;
    }

    method Due(dhcp: DhcpClient, now: nat, later: nat) returns (msg: Option<bytes>)
      modifies this, dhcp
      ensures var (j, out) := Polled(old(Joint(dhcp.Value(), Value())), now, later);
              && Joint(dhcp.Value(), Value()) == j
              && msg == if out.Sent? then Some(out.msg) else None
    {
      if now < next {
        return None;
      }
      if renewAt.Some? {
        renewAt := None;
        next := later + DHCP_RETRY_MIN;
        backoff := DHCP_RETRY_MIN;
        msg := dhcp.Renew();
        return;
      }
      backoff := Min(backoff * 2, DHCP_RETRY_MAX);
      next := later + backoff;
      msg := dhcp.Retransmit();
      if msg.None? {
        var m := dhcp.Discover();
        msg := Some(m);
      }
    }
  }

  // --------------------------------------------------------------------- runs

  datatype Step = Deliver(msg: bytes, now: nat) | Poll(now: nat, later: nat)

  function Take(j: Joint, step: Step): (Joint, Output) {
    match step
    case Deliver(msg, now) => Delivered(j, msg, now)
    case Poll(now, later) => Polled(j, now, later)
  }

  /** The transaction id is seeded from the last four bytes of the MAC. */
  function Start(mac: Mac, now: nat): Joint {
    Joint(Discovered(Fresh(mac, Be32At(mac, 2))), NewTimer(now))
  }

  function After(j: Joint, steps: seq<Step>): Joint {
    if steps == [] then j else Take(After(j, steps[..|steps| - 1]), steps[|steps| - 1]).0
  }

  /** The state before step `i`, and what step `i` puts out. */
  function At(j: Joint, steps: seq<Step>, i: nat): Joint
    requires i <= |steps|
  {
    After(j, steps[..i])
  }

  function Out(j: Joint, steps: seq<Step>, i: nat): Output
    requires i < |steps|
  {
    Take(At(j, steps, i), steps[i]).1
  }

  lemma AtNext(j: Joint, steps: seq<Step>, i: nat)
    requires i < |steps|
    ensures At(j, steps, i + 1) == Take(At(j, steps, i), steps[i]).0
  {
    assert steps[..i + 1][..i] == steps[..i];
  }

  // ---------------------------------------------------------- joint invariant

  /**
   * The timer knows of a renewal exactly while the client is bound, the client
   * holds a lease exactly while bound or renewing, and what a REQUEST needs is
   * there when one may be sent.
   */
  ghost predicate Agree(j: Joint) {
    && (j.timer.renewAt.Some? <==> j.client.state == State.Bound)
    && (j.client.lease.Some? <==> j.client.state in {State.Bound, State.Renewing})
    && (j.client.lease.Some? ==> j.client.lease.value.ip != UNSPECIFIED)
    && (j.client.state == State.Requesting ==> j.client.offered.Some?)
    && (j.client.state == State.Selecting ==> j.client.offered.None? && j.client.serverId.None?)
    && (j.client.state == State.Init ==> j.client.offered.None?)
    && 0 < j.timer.backoff <= DHCP_RETRY_MAX
  }

  lemma PolledAgrees(j: Joint, now: nat, later: nat)
    requires Agree(j)
    ensures var (j', out) := Polled(j, now, later);
            Agree(j') && (out.Sent? ==> Pending(j'.client) == Some(out.msg))
  {
  }

  lemma DeliveredAgrees(j: Joint, msg: bytes, now: nat)
    requires Agree(j)
    ensures var (j', out) := Delivered(j, msg, now);
            Agree(j') && (out.Sent? ==> Pending(j'.client) == Some(out.msg))
  {
  }

  /** Every step keeps the agreement, and sends only what it then waits on. */
  lemma TakeAgrees(j: Joint, step: Step)
    requires Agree(j)
    ensures var (j', out) := Take(j, step);
            Agree(j') && (out.Sent? ==> Pending(j'.client) == Some(out.msg))
  {
    match step
    case Deliver(msg, now) => DeliveredAgrees(j, msg, now);
    case Poll(now, later) => PolledAgrees(j, now, later);
  }

  lemma {:induction false} AlwaysAgree(mac: Mac, t0: nat, steps: seq<Step>)
    ensures Agree(After(Start(mac, t0), steps))
  {
    if steps != [] {
      AlwaysAgree(mac, t0, steps[..|steps| - 1]);
      TakeAgrees(After(Start(mac, t0), steps[..|steps| - 1]), steps[|steps| - 1]);
    }
  }

  /**
   * In every reachable state an expired poll sends something, it begins a new
   * discovery round exactly when the client is idle, and a renewal is sent
   * exactly when the client is bound or already renewing.
   */
  lemma {:induction false} ExpiredPollSends(mac: Mac, t0: nat, steps: seq<Step>, now: nat, later: nat)
    ensures var j := After(Start(mac, t0), steps);
            var (j', out) := Polled(j, now, later);
            && (out.Sent? <==> now >= j.timer.next)
            && (out.Sent? ==> out.msg == Pending(j'.client).value)
            && (out.Sent? ==> (j'.client.xid != j.client.xid <==> j.client.state == State.Init))
            && (out.Sent? ==> (j'.client.state == State.Renewing <==>
                                j.client.state in {State.Bound, State.Renewing}))
  {
    AlwaysAgree(mac, t0, steps);
    var j := After(Start(mac, t0), steps);
    if j.client.state == State.Init {
      NextDiffers(j.client.xid);
    }
  }

  lemma NextDiffers(x: u32)
    ensures XidCycle.NextXid(x) != x
  {
    XidCycle.FullPeriod(x, 1);
    assert XidCycle.XidAfter(x, 1) == XidCycle.NextXid(XidCycle.XidAfter(x, 0));
  }

  // --------------------------------------------------------- message contents

  /** The options a server finds in a message. */
  function OptionsOf(msg: bytes): seq<Tlv>
    requires |msg| == 300 && Scan(msg[BOOTP_LEN + 4..]).Ok?
  {
    Scan(msg[BOOTP_LEN + 4..]).value
  }

  predicate Carries(tlvs: seq<Tlv>, code: byte, value: Option<bytes>) {
    LastOption(tlvs, code, 0) == value
  }

  predicate AllZero(b: bytes) {
    forall i :: 0 <= i < |b| ==> b[i] == 0
  }

  /** What an outgoing message must say in each state (section 4.3.2 of RFC 2131). */
  ghost predicate Conforms(msg: bytes, c: Client) {
    && |msg| == 300
    && msg[..4] == [1, 1, 6, 0] && Be32At(msg, 4) == c.xid && Be16At(msg, 8) == 0 && msg[28..34] == c.mac
    && AllZero(msg[16..28]) && AllZero(msg[34..236])
    && msg[236..240] == [0x63, 0x82, 0x53, 0x63]
    && Scan(msg[240..]).Ok?
    && var tlvs := Scan(msg[240..]).value;
    && Carries(tlvs, 61, Some([1] + c.mac))
    && Carries(tlvs, 55, Some([1, 3, 6, 15, 26, 51, 58]))
    && match c.state
       case Selecting =>
         && msg[12..16] == [0, 0, 0, 0] && Be16At(msg, 10) == 0x8000
         && Carries(tlvs, 53, Some([1])) && Carries(tlvs, 50, None) && Carries(tlvs, 54, None)
       case Requesting =>
         && msg[12..16] == [0, 0, 0, 0] && Be16At(msg, 10) == 0x8000
         && Carries(tlvs, 53, Some([3]))
         && c.offered.Some? && Carries(tlvs, 50, c.offered) && Carries(tlvs, 54, c.serverId)
       case Renewing =>
         && c.lease.Some? && msg[12..16] == c.lease.value.ip != [0, 0, 0, 0]
         && Be16At(msg, 10) == 0
         && Carries(tlvs, 53, Some([3])) && Carries(tlvs, 50, None) && Carries(tlvs, 54, None)
       case _ => false
  }

  lemma {:induction false} LastOptionConcat(a: seq<Tlv>, b: seq<Tlv>, code: byte)
    ensures LastOption(a + b, code, 0)
         == if LastOption(b, code, 0).Some? then LastOption(b, code, 0) else LastOption(a, code, 0)
  {
    if a == [] {
      assert a + b == b;
    } else {
      assert (a + b)[1..] == a[1..] + b;
      LastOptionConcat(a[1..], b, code);
    }
  }

  lemma {:induction false} LastOptionOne(tlv: Tlv, code: byte)
    ensures LastOption([tlv], code, 0) == if tlv.code == code then Some(tlv.data) else None
  {
    assert [tlv][1..] == [];
  }

  /** What each option of an outgoing list reads as. */
  lemma {:induction false} OutgoingOption(mac: Mac, kind: byte, requested: Option<Ip>, server: Option<Ip>, code: byte)
    requires kind == DISCOVER || kind == REQUEST
    ensures LastOption(Tlvs(DhcpMessage.Outgoing(mac, kind, requested, server)), code, 0)
         == if code == OPT_MESSAGE_TYPE then Some([kind])
            else if code == OPT_CLIENT_ID then Some([HTYPE_ETHERNET] + mac)
            else if code == OPT_REQUESTED_IP then requested
            else if code == OPT_SERVER_ID then server
            else if code == OPT_PARAM_REQUEST then Some(WANTED)
            else None
  {
    var type', id := Tlv(OPT_MESSAGE_TYPE, [kind]), Tlv(OPT_CLIENT_ID, [HTYPE_ETHERNET] + mac);
    var wanted := Tlv(OPT_PARAM_REQUEST, WANTED);
    var second := OptionalAddress(OPT_REQUESTED_IP, requested);
    var third := OptionalAddress(OPT_SERVER_ID, server);
    var front := [Opt(type'), Opt(id)];
    assert front == [Opt(type')] + [Opt(id)];
    WriteConcat([Opt(type')], [Opt(id)]);
    WriteOne(type');
    WriteOne(id);
    WriteOne(wanted);
    WriteConcat(front, second);
    WriteConcat(front + second, third);
    WriteConcat(front + second + third, [Opt(wanted)]);
    AddressOption(OPT_REQUESTED_IP, requested, code);
    AddressOption(OPT_SERVER_ID, server, code);
    LastOptionOne(type', code);
    LastOptionOne(id, code);
    LastOptionOne(wanted, code);
    LastOptionConcat([type'], [id], code);
    LastOptionConcat(Tlvs(front), Tlvs(second), code);
    LastOptionConcat(Tlvs(front + second), Tlvs(third), code);
    LastOptionConcat(Tlvs(front + second + third), [wanted], code);
  }

  lemma {:induction false} AddressOption(own: byte, ip: Option<Ip>, code: byte)
    ensures LastOption(Tlvs(OptionalAddress(own, ip)), code, 0)
         == if own == code && ip.Some? then Some(ip.value) else None
  {
    if ip.Some? {
      WriteOne(Tlv(own, ip.value));
      LastOptionOne(Tlv(own, ip.value), code);
    }
  }

  lemma EncodeCarries(c: Client, kind: byte, ciaddr: Ip, requested: Option<Ip>, server: Option<Ip>)
    requires kind == DISCOVER || kind == REQUEST
    ensures var m := Encode(c.mac, c.xid, kind, ciaddr, requested, server);
            && |m| == 300 && Scan(m[BOOTP_LEN + 4..]).Ok?
            && var tlvs := OptionsOf(m);
            && Carries(tlvs, OPT_CLIENT_ID, Some([HTYPE_ETHERNET] + c.mac))
            && Carries(tlvs, OPT_PARAM_REQUEST, Some(WANTED))
            && Carries(tlvs, OPT_MESSAGE_TYPE, Some([kind]))
            && Carries(tlvs, OPT_REQUESTED_IP, requested)
            && Carries(tlvs, OPT_SERVER_ID, server)
  {
    EncodeReads(c.mac, c.xid, kind, ciaddr, requested, server);
    OutgoingOption(c.mac, kind, requested, server, OPT_CLIENT_ID);
    OutgoingOption(c.mac, kind, requested, server, OPT_PARAM_REQUEST);
    OutgoingOption(c.mac, kind, requested, server, OPT_MESSAGE_TYPE);
    OutgoingOption(c.mac, kind, requested, server, OPT_REQUESTED_IP);
    OutgoingOption(c.mac, kind, requested, server, OPT_SERVER_ID);
  }

  lemma PendingConforms(j: Joint)
    requires Agree(j) && Pending(j.client).Some?
    ensures Conforms(Pending(j.client).value, j.client)
  {
    var c := j.client;
    match c.state
    case Selecting =>
      EncodeReads(c.mac, c.xid, DISCOVER, UNSPECIFIED, None, None);
      EncodeCarries(c, DISCOVER, UNSPECIFIED, None, None);
    case Requesting =>
      EncodeReads(c.mac, c.xid, REQUEST, UNSPECIFIED, c.offered, c.serverId);
      EncodeCarries(c, REQUEST, UNSPECIFIED, c.offered, c.serverId);
    case Renewing =>
      EncodeReads(c.mac, c.xid, REQUEST, c.lease.value.ip, None, None);
      EncodeCarries(c, REQUEST, c.lease.value.ip, None, None);
    case _ =>
  }

  /** Over every run, each message sent conforms to the state it leaves behind. */
  lemma SentConforms(mac: Mac, t0: nat, steps: seq<Step>, i: nat)
    requires i < |steps|
    ensures var j := Start(mac, t0);
            Out(j, steps, i).Sent? ==> Conforms(Out(j, steps, i).msg, At(j, steps, i + 1).client)
  {
    var j := Start(mac, t0);
    if Out(j, steps, i).Sent? {
      AtNext(j, steps, i);
      AlwaysAgree(mac, t0, steps[..i]);
      TakeAgrees(At(j, steps, i), steps[i]);
      PendingConforms(At(j, steps, i + 1));
    }
  }

  // ------------------------------------------------------ leases follow offers

  /** Step `i` accepts an OFFER. */
  ghost predicate AcceptsOffer(j: Joint, steps: seq<Step>, i: nat)
    requires i < |steps|
  {
    && At(j, steps, i).client.state == State.Selecting
    && steps[i].Deliver? && Out(j, steps, i).Sent?
    && Meaning(steps[i].msg).Ok?
    && Meaning(steps[i].msg).value.messageType == OFFER
    && Meaning(steps[i].msg).value.xid == At(j, steps, i).client.xid
  }

  /** From after step `i` up to before step `n`, no new round begins. */
  ghost predicate SameRound(j: Joint, steps: seq<Step>, i: nat, n: nat)
    requires i < n <= |steps|
  {
    && Engaged(At(j, steps, n))
    && At(j, steps, n).client.xid == At(j, steps, i).client.xid
    && (i + 1 < n ==> SameRound(j, steps, i, n - 1))
  }

  ghost predicate Engaged(j: Joint) {
    j.client.state in {State.Requesting, State.Bound, State.Renewing}
  }

  /** The client goes by what this OFFER named. */
  ghost predicate GoesBy(c: Client, msg: bytes) {
    var p := Meaning(msg);
    p.Ok? && p.value.xid == c.xid && c.offered == Some(p.value.yiaddr) && c.serverId == p.value.serverId
  }

  /** The only way in is an accepted OFFER, and what it named stays put inside. */
  lemma EngagedStep(j: Joint, step: Step)
    requires Agree(j) && Engaged(Take(j, step).0)
    ensures var c := Take(j, step).0.client;
            if Engaged(j) then
              c.xid == j.client.xid && c.offered == j.client.offered && c.serverId == j.client.serverId
            else
              && c.xid == j.client.xid
              && j.client.state == State.Selecting
              && step.Deliver? && Take(j, step).1.Sent?
              && Meaning(step.msg).Ok? && Meaning(step.msg).value.messageType == OFFER
              && GoesBy(c, step.msg)
  {
  }

  lemma {:induction false} OfferBefore(mac: Mac, t0: nat, steps: seq<Step>, n: nat) returns (i: nat)
    requires n <= |steps| && Engaged(At(Start(mac, t0), steps, n))
    ensures i < n && AcceptsOffer(Start(mac, t0), steps, i) && SameRound(Start(mac, t0), steps, i, n)
    ensures GoesBy(At(Start(mac, t0), steps, n).client, steps[i].msg)
  {
    StartsSelecting(mac, t0, steps);
    var engaged := OfferStep(mac, t0, steps, n - 1);
    if engaged {
      i := OfferBefore(mac, t0, steps, n - 1);
    } else {
      i := n - 1;
    }
  }

  lemma StartsSelecting(mac: Mac, t0: nat, steps: seq<Step>)
    ensures !Engaged(At(Start(mac, t0), steps, 0))
  {
    assert steps[..0] == [];
  }

  lemma OfferStep(mac: Mac, t0: nat, steps: seq<Step>, n: nat) returns (engaged: bool)
    requires n < |steps| && Engaged(At(Start(mac, t0), steps, n + 1))
    ensures At(Start(mac, t0), steps, n + 1).client.xid == At(Start(mac, t0), steps, n).client.xid
    ensures engaged == Engaged(At(Start(mac, t0), steps, n))
    ensures if engaged then
              var c, c' := At(Start(mac, t0), steps, n).client, At(Start(mac, t0), steps, n + 1).client;
              c'.offered == c.offered && c'.serverId == c.serverId
            else
              AcceptsOffer(Start(mac, t0), steps, n)
              && GoesBy(At(Start(mac, t0), steps, n + 1).client, steps[n].msg)
  {
    AlwaysAgree(mac, t0, steps[..n]);
    AtNext(Start(mac, t0), steps, n);
    EngagedStep(At(Start(mac, t0), steps, n), steps[n]);
    engaged := Engaged(At(Start(mac, t0), steps, n));
  }

  /**
   * Over every run, a lease is obtained only from an ACK of the round of an
   * OFFER accepted earlier, with no other round begun since, and its address is
   * the one that ACK names.
   */
  lemma {:induction false} LeaseFollowsOffer(mac: Mac, t0: nat, steps: seq<Step>, n: nat)
    requires n < |steps| && Out(Start(mac, t0), steps, n).Leased?
    ensures var j := Start(mac, t0);
            && steps[n].Deliver? && Meaning(steps[n].msg).Ok?
            && Meaning(steps[n].msg).value.messageType == ACK
            && Out(j, steps, n).lease.ip == Meaning(steps[n].msg).value.yiaddr != UNSPECIFIED
            && exists i :: 0 <= i < n && AcceptsOffer(j, steps, i) && SameRound(j, steps, i, n)
                 && Meaning(steps[n].msg).value.xid == Meaning(steps[i].msg).value.xid
  {
    var i := OfferBefore(mac, t0, steps, n);
    assert At(Start(mac, t0), steps, n).client.xid == At(Start(mac, t0), steps, i).client.xid;
  }

  /**
   * Over every run, each REQUEST for a new lease, first or repeated, names the
   * address and the server of the OFFER accepted in the same round.
   */
  lemma {:induction false} RequestNamesOffer(mac: Mac, t0: nat, steps: seq<Step>, n: nat)
    requires n < |steps| && Out(Start(mac, t0), steps, n).Sent?
    requires At(Start(mac, t0), steps, n + 1).client.state == State.Requesting
    ensures var j := Start(mac, t0);
            var msg := Out(j, steps, n).msg;
            && Conforms(msg, At(j, steps, n + 1).client)
            && exists i :: 0 <= i <= n && AcceptsOffer(j, steps, i) && SameRound(j, steps, i, n + 1)
                 && Carries(OptionsOf(msg), 50, Some(Meaning(steps[i].msg).value.yiaddr))
                 && Carries(OptionsOf(msg), 54, Meaning(steps[i].msg).value.serverId)
  {
    SentConforms(mac, t0, steps, n);
    var i := OfferBefore(mac, t0, steps, n + 1);
  }

  /** Step `k` neither grants nor refuses a lease. */
  predicate LeaseKept(j: Joint, steps: seq<Step>, k: nat)
    requires k < |steps|
  {
    !Out(j, steps, k).Leased? && !Out(j, steps, k).Refused?
  }

  /** The lease held at any point is the one the last grant put out, and was not refused since. */
  lemma {:induction false} LeaseWasGranted(mac: Mac, t0: nat, steps: seq<Step>, n: nat) returns (i: nat)
    requires n <= |steps| && At(Start(mac, t0), steps, n).client.lease.Some?
    ensures i < n && Out(Start(mac, t0), steps, i) == Leased(At(Start(mac, t0), steps, n).client.lease.value)
    ensures forall k :: i < k < n ==> LeaseKept(Start(mac, t0), steps, k)
  {
    i := GrantedSince(Start(mac, t0), steps, n);
  }

  lemma {:induction false} GrantedSince(j: Joint, steps: seq<Step>, n: nat) returns (i: nat)
    requires j.client.lease.None?
    requires n <= |steps| && At(j, steps, n).client.lease.Some?
    ensures i < n && Out(j, steps, i) == Leased(At(j, steps, n).client.lease.value)
    ensures forall k :: i < k < n ==> LeaseKept(j, steps, k)
  {
    var outs := seq(|steps|, k requires 0 <= k < |steps| => Out(j, steps, k));
    var leases := seq(|steps| + 1, k requires 0 <= k <= |steps| => At(j, steps, k).client.lease);
    assert steps[..0] == [];
    forall k | 0 <= k < |steps|
      ensures Moves(leases[k], outs[k], leases[k + 1])
    {
      LeaseAt(j, steps, k);
    }
    i := GrantedAmong(outs, leases, n);
    assert forall k :: i < k < n ==> outs[k] == Out(j, steps, k);
  }

  /** What an output does to the lease held. */
  predicate Moves(lease: Option<Lease>, out: Output, lease': Option<Lease>) {
    lease' == if out.Leased? then Some(out.lease) else if out.Refused? then None else lease
  }

  lemma {:induction false} GrantedAmong(outs: seq<Output>, leases: seq<Option<Lease>>, n: nat) returns (i: nat)
    requires n <= |outs| && |leases| == |outs| + 1 && leases[0].None? && leases[n].Some?
    requires forall k :: 0 <= k < |outs| ==> Moves(leases[k], outs[k], leases[k + 1])
    ensures i < n && outs[i] == Leased(leases[n].value)
    ensures forall k :: i < k < n ==> !outs[k].Leased? && !outs[k].Refused?
  {
    i := n - 1;
    assert Moves(leases[i], outs[i], leases[i + 1]);
    if !outs[i].Leased? {
      i := GrantedAmong(outs, leases, n - 1);
    }
  }

  lemma LeaseAt(j: Joint, steps: seq<Step>, n: nat)
    requires n < |steps|
    ensures Moves(At(j, steps, n).client.lease, Out(j, steps, n), At(j, steps, n + 1).client.lease)
  {
    AtNext(j, steps, n);
    LeaseStep(At(j, steps, n), steps[n]);
  }

  lemma LeaseStep(j: Joint, step: Step)
    ensures var (j', out) := Take(j, step);
            Moves(j.client.lease, out, j'.client.lease)
  {
  }

  // ------------------------------------------------------------------ renewal

  /** A step that shows nothing changes nothing. */
  lemma QuietStep(j: Joint, step: Step)
    requires Agree(j) && Take(j, step).1.Quiet?
    ensures Take(j, step).0 == j
  {
  }

  ghost predicate AllQuiet(j: Joint, steps: seq<Step>) {
    forall i :: 0 <= i < |steps| ==> Out(j, steps, i).Quiet?
  }

  lemma {:induction false} QuietRun(j: Joint, steps: seq<Step>)
    requires Agree(j) && AllQuiet(j, steps)
    ensures After(j, steps) == j
  {
    if steps != [] {
      var n := |steps| - 1;
      var front := steps[..n];
      forall i | 0 <= i < n
        ensures Out(j, front, i).Quiet?
      {
        assert front[..i] == steps[..i];
        assert Out(j, front, i) == Out(j, steps, i);
      }
      QuietRun(j, front);
      assert Out(j, steps, n) == Take(After(j, front), steps[n]).1;
      QuietStep(j, steps[n]);
    }
  }

  /**
   * After a lease is granted, whatever else arrives without effect, the timer
   * sends a renewal at the lease's renewal time and not before.
   */
  lemma {:induction false} RenewsOnTime(j: Joint, msg: bytes, t: nat, quiet: seq<Step>, now: nat, later: nat)
    requires Agree(j) && Delivered(j, msg, t).1.Leased?
    requires AllQuiet(Delivered(j, msg, t).0, quiet)
    ensures var (granted, out) := Delivered(j, msg, t);
            var (j', sent) := Polled(After(granted, quiet), now, later);
            && (sent.Sent? <==> now >= t + out.lease.renewalTime)
            && (sent.Sent? ==> j'.client.state == State.Renewing && j'.client.lease == Some(out.lease)
                               && Conforms(sent.msg, j'.client))
  {
    var (granted, out) := Delivered(j, msg, t);
    DeliveredAgrees(j, msg, t);
    QuietRun(granted, quiet);
    GrantedTimer(j, msg, t);
    PolledAgrees(granted, now, later);
    var (j', sent) := Polled(granted, now, later);
    if sent.Sent? {
      PendingConforms(j');
    }
  }

  lemma GrantedTimer(j: Joint, msg: bytes, t: nat)
    requires Delivered(j, msg, t).1.Leased?
    ensures var (granted, out) := Delivered(j, msg, t);
            && granted.timer == BoundTimer(out.lease, t)
            && granted.client.state == State.Bound && granted.client.lease == Some(out.lease)
  {
  }

  // ------------------------------------------------------------------ backoff

  /** The backoff in force after `k` unanswered sends. */
  function BackoffAfter(k: nat): nat {
    if k == 0 then DHCP_RETRY_MIN else Min(2 * BackoffAfter(k - 1), DHCP_RETRY_MAX)
  }

  /** The waiting time those sends add up to. */
  function TotalBackoff(k: nat): nat {
    if k == 0 then 0 else TotalBackoff(k - 1) + BackoffAfter(k)
  }

  /** Polls whose two readings are in order, and replies that change nothing. */
  ghost predicate Unanswered(j: Joint, steps: seq<Step>) {
    forall i :: 0 <= i < |steps| ==>
      && !Out(j, steps, i).Leased? && !Out(j, steps, i).Refused?
      && (steps[i].Poll? ==> steps[i].now <= steps[i].later)
  }

  /** How many of the steps were timer polls that sent. */
  function TimerSends(j: Joint, steps: seq<Step>): nat {
    if steps == [] then 0
    else
      var n := |steps| - 1;
      TimerSends(j, steps[..n]) + if steps[n].Poll? && Out(j, steps, n).Sent? then 1 else 0
  }

  /** Two to the power `k`. */
  function Doubled(k: nat): (r: nat)
    ensures r >= 1
  {
    if k == 0 then 1 else 2 * Doubled(k - 1)
  }

  /** It doubles from one second up to sixteen. */
  lemma {:induction false} BackoffInSeconds(k: nat)
    ensures BackoffAfter(k) == Min(Doubled(k), 16) * 1_000_000_000
  {
    if k > 0 {
      BackoffInSeconds(k - 1);
    }
  }

  lemma UnansweredFront(j: Joint, steps: seq<Step>, n: nat)
    requires Unanswered(j, steps) && n <= |steps|
    ensures Unanswered(j, steps[..n])
  {
    var front := steps[..n];
    forall i | 0 <= i < n
      ensures Out(j, front, i) == Out(j, steps, i) && front[i] == steps[i]
    {
      assert front[..i] == steps[..i];
    }
  }

  /** A timer send of an unanswered run: the backoff doubles and is waited out. */
  predicate Backs(timer: Timer, timer': Timer) {
    && timer'.renewAt.None?
    && timer'.backoff == Min(2 * timer.backoff, DHCP_RETRY_MAX)
    && timer'.next >= timer.next + timer'.backoff
  }

  /** One step of an unanswered run. */
  lemma UnansweredStep(j: Joint, step: Step)
    requires j.timer.renewAt.None?
    requires var (_, out) := Take(j, step);
             !out.Leased? && !out.Refused? && (step.Poll? ==> step.now <= step.later)
    ensures var (j', out) := Take(j, step);
            if step.Poll? && out.Sent? then
              && Backs(j.timer, j'.timer)
              && j.timer.next <= step.now && j'.timer.next == step.later + j'.timer.backoff
            else
              j'.timer == j.timer
  {
  }

  /**
   * From a freshly reset timer, and while no lease and no refusal arrives, the
   * backoff after k timer sends is min(2^k, 16) seconds, and the next one is
   * not due before the backoffs of all of them have passed one after another.
   */
  lemma {:induction false} BackoffDoubles(j: Joint, steps: seq<Step>)
    requires j.timer.backoff == DHCP_RETRY_MIN && j.timer.renewAt.None?
    requires Unanswered(j, steps)
    ensures BackedOff(After(j, steps).timer, j.timer.next, TimerSends(j, steps))
  {
    if steps != [] {
      var n := |steps| - 1;
      var before, k := After(j, steps[..n]), TimerSends(j, steps[..n]);
      UnansweredFront(j, steps, n);
      BackoffDoubles(j, steps[..n]);
      assert Out(j, steps, n) == Take(before, steps[n]).1;
      BackedOffStep(before, After(j, steps), steps[n], j.timer.next, k, TimerSends(j, steps));
    }
  }

  lemma BackedOffStep(j: Joint, j': Joint, step: Step, start: nat, k: nat, k': nat)
    requires j' == Take(j, step).0 && k' == k + if step.Poll? && Take(j, step).1.Sent? then 1 else 0
    requires BackedOff(j.timer, start, k)
    requires !Take(j, step).1.Leased? && !Take(j, step).1.Refused? && (step.Poll? ==> step.now <= step.later)
    ensures BackedOff(j'.timer, start, k')
  {
    UnansweredStep(j, step);
    if step.Poll? && Take(j, step).1.Sent? {
      BackedOffNext(j.timer, j'.timer, start, k);
    }
  }

  /** The timer after `k` sends of an unanswered run that began at `start`. */
  ghost predicate BackedOff(timer: Timer, start: nat, k: nat) {
    timer.renewAt.None? && timer.backoff == BackoffAfter(k) && timer.next >= start + TotalBackoff(k)
  }

  /** One more send: from the k-th backoff to the next. */
  lemma BackedOffNext(timer: Timer, timer': Timer, start: nat, k: nat)
    requires BackedOff(timer, start, k) && Backs(timer, timer')
    ensures BackedOff(timer', start, k + 1)
  {
  }

  /** Due at this time, with no backoff so far. */
  predicate ResetTo(timer: Timer, due: nat) {
    timer.renewAt.None? && timer.next == due && timer.backoff == BackoffAfter(0)
  }

  /**
   * Where the backoff begins: one second after the first DISCOVER and after a
   * renewal was sent, at once after a refusal, and at the renewal time after a grant.
   */
  lemma {:induction false} TimerResets(mac: Mac, t0: nat, j: Joint, msg: bytes, now: nat, later: nat)
    ensures ResetTo(Start(mac, t0).timer, t0 + 1_000_000_000)
    ensures Delivered(j, msg, now).1.Refused? ==> ResetTo(Delivered(j, msg, now).0.timer, now)
    ensures Agree(j) && j.client.state == State.Bound && j.timer.next <= now ==>
              var (j', out) := Polled(j, now, later);
              out.Sent? && ResetTo(j'.timer, later + 1_000_000_000)
    ensures Delivered(j, msg, now).1.Leased? ==>
              Delivered(j, msg, now).0.timer.next == now + Delivered(j, msg, now).1.lease.renewalTime
  {
  }

  /** After a timer send the next one is due exactly when the backoff it set has passed. */
  lemma {:induction false} SendsSpaced(j: Joint, now: nat, later: nat, quiet: seq<Step>, now': nat, later': nat)
    requires now <= later
    requires Agree(j) && Polled(j, now, later).1.Sent?
    requires var j' := Polled(j, now, later).0;
             Unanswered(j', quiet) && TimerSends(j', quiet) == 0
    ensures Polled(After(Polled(j, now, later).0, quiet), now', later').1.Sent? <==>
            now' >= later + Polled(j, now, later).0.timer.backoff
  {
    TimerHolds(Polled(j, now, later).0, quiet);
  }

  lemma {:induction false} TimerHolds(j: Joint, quiet: seq<Step>)
    requires Unanswered(j, quiet) && TimerSends(j, quiet) == 0
    requires j.timer.renewAt.None?
    ensures After(j, quiet).timer == j.timer
  {
    if quiet != [] {
      var n := |quiet| - 1;
      UnansweredFront(j, quiet, n);
      TimerHolds(j, quiet[..n]);
      assert Out(j, quiet, n) == Take(After(j, quiet[..n]), quiet[n]).1;
      UnansweredStep(After(j, quiet[..n]), quiet[n]);
    }
  }
}
