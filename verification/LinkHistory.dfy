/**
 * What a history of the receive thread leaves behind: which histories put an
 * entry into the ARP table that its own filter would refuse, which leave an
 * address without a lease, and how far apart the timer's messages are.
 */
module LinkHistory {
  import opened Bytes
  import opened Ethernet
  import opened DhcpMessage
  import opened Dhcp
  import opened DhcpRun
  import opened DhcpReply
  import opened LinkRx
  import opened LinkRuns
  import Arp

  // ------------------------------------------------------- the learning filter

  /** A lease granted by a reply from the unspecified address or a group MAC. */
  predicate Taints(st: Stack, input: Input) {
    && input.DhcpIn?
    && Delivered(st.joint, input.msg, input.now).1.Leased?
    && (input.srcIp == UNSPECIFIED || IsMulticast(input.srcMac))
  }

  lemma TaintStep(st: Stack, input: Input)
    requires Arp.Clean(st.table)
    ensures Arp.Clean(Fed(st, input).table) <==> !Taints(st, input)
  {
    match input
    case ArpIn(payload, now) =>
      Arp.HeardClean(st.table, payload, now);
    case DhcpIn(msg, srcIp, srcMac, now, learned) =>
      var out := Delivered(st.joint, msg, now).1;
      if out.Leased? {
        Arp.InsertedClean(st.table.(hostIp := out.lease.ip), srcIp, srcMac, learned);
      }
    case Tick(_, _) =>
  }

  /** The table was clean at every point of the run. */
  ghost predicate AlwaysClean(st: Stack, inputs: Trace) {
    Arp.Clean(Replay(st, inputs).table) && (inputs.Trace? ==> AlwaysClean(st, inputs.before))
  }

  /** No input of the run was a tainting grant. */
  predicate NeverTainted(st: Stack, inputs: Trace) {
    inputs.Trace? ==> !Taints(Replay(st, inputs.before), inputs.input) && NeverTainted(st, inputs.before)
  }

  /**
   * The filter covers what is heard but not what a lease inserts: at every point
   * of a run the table is free of entries for 0.0.0.0 and of group MACs exactly
   * when no lease of the run came from such a sender.
   */
  lemma {:induction false} CleanExactly(mac: Mac, t0: nat, inputs: Trace)
    ensures AlwaysClean(Begin(mac, t0), inputs) <==> NeverTainted(Begin(mac, t0), inputs)
  {
    if inputs.Trace? {
      CleanExactly(mac, t0, inputs.before);
      if AlwaysClean(Begin(mac, t0), inputs.before) {
        TaintStep(Replay(Begin(mac, t0), inputs.before), inputs.input);
      }
    }
  }

  // --------------------------------------------------------- reachable cases

  /** An OFFER and an ACK from a server at the given addresses. */
  function Granting(mac: Mac, t0: nat, ip: Ip, server: Ip, srcIp: Ip, srcMac: Mac): Trace {
    Trace(Trace(Idle, DhcpIn(Short(OFFER, Xid(mac), ip, mac, server), srcIp, srcMac, t0, t0)),
          DhcpIn(Short(ACK, Xid(mac), ip, mac, server), srcIp, srcMac, t0, t0))
  }

  lemma OfferFed(st: Stack, ip: Ip, server: Ip, srcIp: Ip, srcMac: Mac, now: nat)
    requires st.joint.client.state == State.Selecting
    ensures var c := st.joint.client;
            var st' := Fed(st, DhcpIn(Short(OFFER, c.xid, ip, c.mac, server), srcIp, srcMac, now, now));
            && st'.joint.client == c.(state := State.Requesting, offered := Some(ip), serverId := Some(server))
            && st'.table == st.table && st'.events == st.events
  {
    OfferTaken(st.joint, ip, server, now);
  }

  lemma AckFed(st: Stack, ip: Ip, server: Ip, srcIp: Ip, srcMac: Mac, now: nat)
    requires st.joint.client.state == State.Requesting && ip != UNSPECIFIED
    ensures var c, lease := st.joint.client, ShortLease(ip, server);
            var st' := Fed(st, DhcpIn(Short(ACK, c.xid, ip, c.mac, server), srcIp, srcMac, now, now));
            && st'.joint == Joint(c.(state := State.Bound, lease := Some(lease)), BoundTimer(lease, now))
            && st'.table == Arp.Inserted(st.table.(hostIp := ip), srcIp, srcMac, now)
            && st'.events == st.events + [LinkEvent.Bound(lease)]
  {
    AckGrants(st.joint, ip, server, now);
  }

  lemma RenewalFed(st: Stack, now: nat)
    requires st.joint.client.state == State.Bound && st.joint.client.lease.Some?
    requires st.joint.timer.renewAt.Some? && st.joint.timer.next <= now
    ensures var st' := Fed(st, Tick(now, now));
            && st'.joint.client == st.joint.client.(state := State.Renewing)
            && st'.table == st.table && st'.events == st.events
  {
    RenewalSent(st.joint, now);
  }

  lemma NakFed(st: Stack, server: Ip, srcIp: Ip, srcMac: Mac, now: nat)
    requires st.joint.client.state == State.Renewing
    ensures var c := st.joint.client;
            var st' := Fed(st, DhcpIn(Short(NAK, c.xid, UNSPECIFIED, c.mac, server), srcIp, srcMac, now, now));
            && st'.joint.client == c.(state := State.Init, lease := None, offered := None)
            && st'.table == st.table && st'.events == st.events
  {
    NakRefuses(st.joint, server, now);
  }

  /** Bound to the lease, with the sender taken for the gateway. */
  ghost predicate Granted(st: Stack, mac: Mac, t0: nat, ip: Ip, server: Ip, srcIp: Ip, srcMac: Mac) {
    var lease := ShortLease(ip, server);
    && st.joint.timer == BoundTimer(lease, t0)
    && st.joint.client.state == State.Bound && st.joint.client.lease == Some(lease)
    && st.joint.client.xid == Xid(mac) && st.joint.client.mac == mac
    && st.table.hostIp == ip && st.events == [LinkEvent.Bound(lease)]
    && srcIp in st.table.cache && st.table.cache[srcIp] == Arp.Entry(srcMac, t0)
  }

  lemma GrantingBinds(mac: Mac, t0: nat, ip: Ip, server: Ip, srcIp: Ip, srcMac: Mac)
    requires ip != UNSPECIFIED
    ensures Granted(Replay(Begin(mac, t0), Granting(mac, t0, ip, server, srcIp, srcMac)),
                    mac, t0, ip, server, srcIp, srcMac)
  {
    var offer := DhcpIn(Short(OFFER, Xid(mac), ip, mac, server), srcIp, srcMac, t0, t0);
    var ack := DhcpIn(Short(ACK, Xid(mac), ip, mac, server), srcIp, srcMac, t0, t0);
    GrantFrom(Begin(mac, t0), mac, t0, ip, server, srcIp, srcMac, offer, ack);
    ReplayTwo(Begin(mac, t0), Idle, offer, ack);
  }

  lemma {:induction false} ReplayTwo(st: Stack, inputs: Trace, a: Input, b: Input)
    ensures Replay(st, Trace(Trace(inputs, a), b)) == Fed(Fed(Replay(st, inputs), a), b)
  {
    assert Replay(st, Trace(inputs, a)) == Fed(Replay(st, inputs), a);
  }

  lemma GrantFrom(
      st: Stack, mac: Mac, t0: nat, ip: Ip, server: Ip, srcIp: Ip, srcMac: Mac, offer: Input, ack: Input)
    requires ip != UNSPECIFIED
    requires st.joint.client.state == State.Selecting && st.events == []
    requires st.joint.client.xid == Xid(mac) && st.joint.client.mac == mac
    requires offer == DhcpIn(Short(OFFER, Xid(mac), ip, mac, server), srcIp, srcMac, t0, t0)
    requires ack == DhcpIn(Short(ACK, Xid(mac), ip, mac, server), srcIp, srcMac, t0, t0)
    ensures Granted(Fed(Fed(st, offer), ack), mac, t0, ip, server, srcIp, srcMac)
  {
    OfferFed(st, ip, server, srcIp, srcMac, t0);
    AckFed(Fed(st, offer), ip, server, srcIp, srcMac, t0);
  }

  /** From any sender the filter would refuse, a granted lease does taint the table. */
  lemma {:induction false} GrantTaints(mac: Mac, t0: nat, ip: Ip, server: Ip, srcIp: Ip, srcMac: Mac)
    requires ip != UNSPECIFIED
    requires srcIp == UNSPECIFIED || IsMulticast(srcMac)
    ensures var inputs := Granting(mac, t0, ip, server, srcIp, srcMac);
            && InOrder(t0, inputs)
            && !Arp.Clean(Replay(Begin(mac, t0), inputs).table)
            && Arp.LookedUp(Replay(Begin(mac, t0), inputs).table, srcIp, t0) == Some(srcMac)
  {
    GrantingBinds(mac, t0, ip, server, srcIp, srcMac);
    GrantingInOrder(mac, t0, ip, server, srcIp, srcMac);
  }

  /** The lease comes up for renewal, and the server refuses it. */
  function Losing(mac: Mac, t0: nat, ip: Ip, server: Ip, srcIp: Ip, srcMac: Mac): Trace {
    var due := t0 + 1800 * SECOND;
    Trace(Trace(Granting(mac, t0, ip, server, srcIp, srcMac), Tick(due, due)),
          DhcpIn(Short(NAK, Xid(mac), UNSPECIFIED, mac, server), srcIp, srcMac, due, due))
  }

  /** No lease any more, but still its address. */
  ghost predicate Lost(st: Stack, ip: Ip, server: Ip) {
    && st.joint.client.state == State.Init && st.joint.client.lease.None?
    && st.table.hostIp == ip
    && st.events == [LinkEvent.Bound(ShortLease(ip, server))]
  }

  /** For any address a server can name: it is leased, lost again, and still answered for. */
  lemma {:induction false} RefusalKeepsAddress(mac: Mac, t0: nat, ip: Ip, server: Ip, srcIp: Ip, srcMac: Mac)
    requires ip != UNSPECIFIED
    ensures Lost(Replay(Begin(mac, t0), Losing(mac, t0, ip, server, srcIp, srcMac)), ip, server)
    ensures InOrder(t0, Losing(mac, t0, ip, server, srcIp, srcMac))
  {
    var due := t0 + 1800 * SECOND;
    var nak := DhcpIn(Short(NAK, Xid(mac), UNSPECIFIED, mac, server), srcIp, srcMac, due, due);
    var granting := Granting(mac, t0, ip, server, srcIp, srcMac);
    GrantingBinds(mac, t0, ip, server, srcIp, srcMac);
    LoseFrom(Replay(Begin(mac, t0), granting), mac, t0, ip, server, srcIp, srcMac, nak);
    ReplayTwo(Begin(mac, t0), granting, Tick(due, due), nak);
    LosingInOrder(mac, t0, ip, server, srcIp, srcMac);
  }

  lemma {:induction false} GrantingInOrder(mac: Mac, t0: nat, ip: Ip, server: Ip, srcIp: Ip, srcMac: Mac)
    ensures var inputs := Granting(mac, t0, ip, server, srcIp, srcMac);
            InOrder(t0, inputs) && LastReading(t0, inputs) == t0
  {
    var inputs := Granting(mac, t0, ip, server, srcIp, srcMac);
    assert InOrder(t0, Idle);
    assert InOrder(t0, inputs.before);
  }

  lemma {:induction false} LosingInOrder(mac: Mac, t0: nat, ip: Ip, server: Ip, srcIp: Ip, srcMac: Mac)
    ensures InOrder(t0, Losing(mac, t0, ip, server, srcIp, srcMac))
  {
    GrantingInOrder(mac, t0, ip, server, srcIp, srcMac);
    assert InOrder(t0, Losing(mac, t0, ip, server, srcIp, srcMac).before);
  }

  lemma LoseFrom(st: Stack, mac: Mac, t0: nat, ip: Ip, server: Ip, srcIp: Ip, srcMac: Mac, nak: Input)
    requires Granted(st, mac, t0, ip, server, srcIp, srcMac)
    requires var due := t0 + 1800 * SECOND;
             nak == DhcpIn(Short(NAK, Xid(mac), UNSPECIFIED, mac, server), srcIp, srcMac, due, due)
    ensures Lost(Fed(Fed(st, Tick(t0 + 1800 * SECOND, t0 + 1800 * SECOND)), nak), ip, server)
  {
    var due := t0 + 1800 * SECOND;
    RenewalFed(st, due);
    NakFed(Fed(st, Tick(due, due)), server, srcIp, srcMac, due);
  }

  // ---------------------------------------------------------- the timer's pace

  predicate TimerSent(st: Stack, input: Input) {
    input.Tick? && Shown(st, input).Sent?
  }

  /** No input led to a lease or a refusal. */
  ghost predicate Unheard(st: Stack, inputs: Trace) {
    inputs.Trace? ==>
      var shown := Shown(Replay(st, inputs.before), inputs.input);
      !shown.Leased? && !shown.Refused? && Unheard(st, inputs.before)
  }

  function Sends(st: Stack, inputs: Trace): nat {
    match inputs
    case Idle => 0
    case Trace(before, input) => Sends(st, before) + if TimerSent(Replay(st, before), input) then 1 else 0
  }

  /** One input without an answer: a timer send backs off, everything else leaves the timer alone. */
  lemma UnheardStep(st: Stack, input: Input)
    requires st.joint.timer.renewAt.None? && Earliest(input) <= Latest(input)
    requires !Shown(st, input).Leased? && !Shown(st, input).Refused?
    ensures var timer, timer' := st.joint.timer, Fed(st, input).joint.timer;
            if TimerSent(st, input) then
              && Backs(timer, timer') && timer.next <= input.now && timer'.next == input.later + timer'.backoff
            else
              timer' == timer
  {
    match input
    case ArpIn(_, _) =>
    case DhcpIn(msg, _, _, now, _) =>
      UnansweredStep(st.joint, Deliver(msg, now));
    case Tick(now, later) =>
      UnansweredStep(st.joint, Poll(now, later));
  }

  /**
   * The thread's own pace: from any point where the timer stands reset, and
   * while no lease and no refusal comes in, its k-th message leaves the backoff
   * at min(2^k, 16) seconds and the next not due before all backoffs so far.
   */
  lemma {:induction false} LinkBacksOff(st: Stack, t0: nat, inputs: Trace)
    requires st.joint.timer.backoff == DHCP_RETRY_MIN && st.joint.timer.renewAt.None?
    requires InOrder(t0, inputs) && Unheard(st, inputs)
    ensures BackedOff(Replay(st, inputs).joint.timer, st.joint.timer.next, Sends(st, inputs))
  {
    if inputs.Trace? {
      LinkBacksOff(st, t0, inputs.before);
      PaceStep(Replay(st, inputs.before), Replay(st, inputs), inputs.input, st.joint.timer.next,
               Sends(st, inputs.before), Sends(st, inputs));
    }
  }

  lemma PaceStep(st: Stack, st': Stack, input: Input, start: nat, k: nat, k': nat)
    requires st' == Fed(st, input) && k' == k + (if TimerSent(st, input) then 1 else 0)
    requires BackedOff(st.joint.timer, start, k) && Earliest(input) <= Latest(input)
    requires !Shown(st, input).Leased? && !Shown(st, input).Refused?
    ensures BackedOff(st'.joint.timer, start, k')
  {
    UnheardStep(st, input);
    if TimerSent(st, input) {
      BackedOffNext(st.joint.timer, st'.joint.timer, start, k);
    }
  }

  lemma {:induction false} NextStays(st: Stack, t0: nat, inputs: Trace)
    requires st.joint.timer.renewAt.None?
    requires InOrder(t0, inputs) && Unheard(st, inputs)
    ensures Replay(st, inputs).joint.timer.renewAt.None?
    ensures Replay(st, inputs).joint.timer.next >= st.joint.timer.next
  {
    if inputs.Trace? {
      NextStays(st, t0, inputs.before);
      UnheardStep(Replay(st, inputs.before), inputs.input);
    }
  }

  /**
   * Two messages of the timer with no lease and no refusal in between are at
   * least the backoff apart that the earlier one set, whatever else came in.
   */
  lemma {:induction false} LinkSendsSpaced(st: Stack, first: Input, t0: nat, between: Trace, second: Input)
    requires TimerSent(st, first) && Earliest(first) <= Latest(first)
    requires InOrder(t0, between) && Unheard(Fed(st, first), between)
    requires TimerSent(Replay(Fed(st, first), between), second)
    ensures second.now >= first.later + Fed(st, first).joint.timer.backoff
  {
    NextStays(Fed(st, first), t0, between);
    SentWhenDue(Replay(Fed(st, first), between), second);
    assert Fed(st, first).joint.timer == Polled(st.joint, first.now, first.later).0.timer;
  }

  lemma SentWhenDue(st: Stack, input: Input)
    requires TimerSent(st, input)
    ensures input.now >= st.joint.timer.next
  {
  }
}
