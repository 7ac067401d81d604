/** ARP responder and resolver (`src/netstack/arp.rs`). Time is an argument, in nanoseconds. */
module Arp {
  import opened Bytes
  import opened NetError
  import opened Ethernet

  const OP_REQUEST: u16 := 1
  const OP_REPLY: u16 := 2
  const HTYPE_ETHERNET: u16 := 1
  const PACKET_LEN: nat := 28
  const ENTRY_TTL: nat := 300_000_000_000
  const RETRY_INTERVAL: nat := 1_000_000_000

  datatype ArpPacket = ArpPacket(op: u16, senderMac: Mac, senderIp: Ip, targetMac: Mac, targetIp: Ip)

  function ParsePacket(buf: bytes): Result<ArpPacket, Error> {
    if |buf| < PACKET_LEN then Err(Truncated)
    else if Be16At(buf, 0) != HTYPE_ETHERNET || Be16At(buf, 2) != ETHERTYPE_IPV4 then
      Err(Malformed("not Ethernet/IPv4 ARP"))
    else if buf[4] != 6 || buf[5] != 4 then
      Err(Malformed("unexpected ARP address sizes"))
    else
      Ok(ArpPacket(Be16At(buf, 6), buf[8..14], buf[14..18], buf[18..24], buf[24..28]))
  }

  function BuildPacket(p: ArpPacket): (b: bytes)
    ensures |b| == PACKET_LEN
  {
    Be16(HTYPE_ETHERNET) + Be16(ETHERTYPE_IPV4) + [6, 4] + Be16(p.op)
    + p.senderMac + p.senderIp + p.targetMac + p.targetIp
  }

  /** A packet as RFC 826 lays it out for Ethernet and IPv4; it parses back, whatever padding follows it. */
  lemma PacketRoundTrip(p: ArpPacket, padding: bytes)
    ensures BuildPacket(p) == [0, 1, 8, 0, 6, 4, p.op / 0x100, p.op % 0x100]
                              + p.senderMac + p.senderIp + p.targetMac + p.targetIp
    ensures ParsePacket(BuildPacket(p) + padding) == Ok(p)
  {
    var b := BuildPacket(p) + padding;
    assert b[6..8] == Be16(p.op);
    assert b[8..14] == p.senderMac;
    assert b[14..18] == p.senderIp;
    assert b[18..24] == p.targetMac;
    assert b[24..28] == p.targetIp;
  }

  // ------------------------------------------------------------ specification

  datatype Entry = Entry(mac: Mac, learned: nat)

  /** The responder's fields as a value. */
  datatype Table = Table(hostMac: Mac, hostIp: Ip, cache: map<Ip, Entry>, lastRequest: map<Ip, nat>)

  function NewTable(hostMac: Mac, hostIp: Ip): Table {
    Table(hostMac, hostIp, map[], map[])
  }

  function LookedUp(t: Table, ip: Ip, now: nat): Option<Mac> {
    if ip in t.cache && now - t.cache[ip].learned < ENTRY_TTL then Some(t.cache[ip].mac) else None
  }

  function Inserted(t: Table, ip: Ip, mac: Mac, now: nat): Table {
    t.(cache := t.cache[ip := Entry(mac, now)])
  }

  predicate MayRequest(t: Table, ip: Ip, now: nat) {
    ip in t.lastRequest ==> now - t.lastRequest[ip] >= RETRY_INTERVAL
  }

  function Requested(t: Table, ip: Ip, now: nat): (Table, Option<bytes>) {
    if !MayRequest(t, ip, now) then (t, None)
    else
      (t.(lastRequest := t.lastRequest[ip := now]),
       Some(Build(BROADCAST_MAC, t.hostMac, ETHERTYPE_ARP,
                  BuildPacket(ArpPacket(OP_REQUEST, t.hostMac, t.hostIp, ZERO_MAC, ip)))))
  }

  /** Only a specified sender with an individual address is learned. */
  predicate Teaches(p: ArpPacket) {
    p.senderIp != UNSPECIFIED && !IsMulticast(p.senderMac)
  }

  function ReplyTo(t: Table, p: ArpPacket): Option<bytes> {
    if p.op != OP_REQUEST || p.targetIp != t.hostIp || t.hostIp == UNSPECIFIED then None
    else Some(Build(p.senderMac, t.hostMac, ETHERTYPE_ARP,
                    BuildPacket(ArpPacket(OP_REPLY, t.hostMac, t.hostIp, p.senderMac, p.senderIp))))
  }

  function Received(t: Table, payload: bytes, now: nat): (Table, Result<Option<bytes>, Error>) {
    match ParsePacket(payload)
    case Err(e) => (t, Err(e))
    case Ok(p) =>
      (if Teaches(p) then Inserted(t, p.senderIp, p.senderMac, now) else t, Ok(ReplyTo(t, p)))
  }

  // ------------------------------------------------------------------- object

  class Responder {
    const hostMac: Mac
    var hostIp: Ip
    var cache: map<Ip, Entry>
    var lastRequest: map<Ip, nat>

    ghost function Value(): Table
      reads this
    {
      Table(hostMac, hostIp, cache, lastRequest)
    }

    constructor (hostMac: Mac, hostIp: Ip)
      ensures Value() == NewTable(hostMac, hostIp)
    {
      this.hostMac := hostMac;
      this.hostIp := hostIp;
      cache := map[];
      lastRequest := map[];
    }

    method SetHostIp(ip: Ip)
      modifies this
      ensures Value() == old(Value()).(hostIp := ip)
    {
      hostIp := ip;
    }

    method Lookup(ip: Ip, now: nat) returns (mac: Option<Mac>)
      ensures mac == LookedUp(Value(), ip, now)
    {
      if ip in cache && now - cache[ip].learned < ENTRY_TTL {
        mac := Some(cache[ip].mac);
      } else {
        mac := None;
      }
    }

    method Insert(ip: Ip, mac: Mac, now: nat)
      modifies this
      ensures Value() == Inserted(old(Value()), ip, mac, now)
    {
      cache := cache[ip := Entry(mac, now)];
    }

    method Request(ip: Ip, now: nat) returns (frame: Option<bytes>)
      modifies this
      ensures (Value(), frame) == Requested(old(Value()), ip, now)
    {
      if ip in lastRequest && now - lastRequest[ip] < RETRY_INTERVAL {
        return None;
      }
      lastRequest := lastRequest[ip := now];
      var packet := BuildPacket(ArpPacket(OP_REQUEST, hostMac, hostIp, ZERO_MAC, ip));
      frame := Some(Build(BROADCAST_MAC, hostMac, ETHERTYPE_ARP, packet));
    }

    method Handle(payload: bytes, now: nat) returns (r: Result<Option<bytes>, Error>)
      modifies this
      ensures (Value(), r) == Received(old(Value()), payload, now)
    {
      var parsed := ParsePacket(payload);
      if parsed.Err? {
        return Err(parsed.error);
      }
      var p := parsed.value;
      if p.senderIp != UNSPECIFIED && !IsMulticast(p.senderMac) {
        Insert(p.senderIp, p.senderMac, now);
      }
      if p.op != OP_REQUEST || p.targetIp != hostIp || hostIp == UNSPECIFIED {
        return Ok(None);
      }
      var reply := BuildPacket(ArpPacket(OP_REPLY, hostMac, hostIp, p.senderMac, p.senderIp));
      r := Ok(Some(Build(p.senderMac, hostMac, ETHERTYPE_ARP, reply)));
    }
  }

  // --------------------------------------------------------------------- runs

  /** Calls on the shared responder, from whichever thread holds the lock. */
  datatype Call =
    | SetIp(ip: Ip)
    | Learn(ip: Ip, mac: Mac, now: nat)
    | Ask(ip: Ip, now: nat)
    | Hear(payload: bytes, now: nat)

  function Do(t: Table, call: Call): Table {
    match call
    case SetIp(ip) => t.(hostIp := ip)
    case Learn(ip, mac, now) => Inserted(t, ip, mac, now)
    case Ask(ip, now) => Requested(t, ip, now).0
    case Hear(payload, now) => Received(t, payload, now).0
  }

  function After(t: Table, calls: seq<Call>): Table {
    if calls == [] then t else Do(After(t, calls[..|calls| - 1]), calls[|calls| - 1])
  }

  /**
   * What a call teaches, independent of the table it meets: an insertion its own
   * pair, and any packet, request or reply, the pair of its sender, unless that has
   * no address or a group MAC.
   */
  function Lesson(call: Call): Option<(Ip, Entry)> {
    match call
    case Learn(ip, mac, now) => Some((ip, Entry(mac, now)))
    case Hear(payload, now) =>
      var r := ParsePacket(payload);
      if r.Ok? && r.value.senderIp != [0, 0, 0, 0] && r.value.senderMac[0] % 2 == 0
      then Some((r.value.senderIp, Entry(r.value.senderMac, now))) else None
    case _ => None
  }

  /** The last thing the history says about `ip`. */
  function Latest(calls: seq<Call>, ip: Ip): Option<Entry> {
    if calls == [] then None
    else
      var n := |calls| - 1;
      var lesson := Lesson(calls[n]);
      if lesson.Some? && lesson.value.0 == ip then Some(lesson.value.1) else Latest(calls[..n], ip)
  }

  lemma {:induction false} CacheIsLatest(mac: Mac, hostIp: Ip, calls: seq<Call>, ip: Ip)
    ensures var cache := After(NewTable(mac, hostIp), calls).cache;
            Latest(calls, ip) == if ip in cache then Some(cache[ip]) else None
  {
    if calls != [] {
      CacheIsLatest(mac, hostIp, calls[..|calls| - 1], ip);
    }
  }

  /**
   * Over every history of calls, a lookup returns the address most recently
   * learned, from a call of any kind, exactly while it is under 300 s old.
   */
  lemma {:induction false} LookupAgreesWithHistory(mac: Mac, hostIp: Ip, calls: seq<Call>, ip: Ip, now: nat)
    ensures LookedUp(After(NewTable(mac, hostIp), calls), ip, now)
         == match Latest(calls, ip)
            case Some(e) => (if now - e.learned < 300_000_000_000 then Some(e.mac) else None)
            case None => None
  {
    CacheIsLatest(mac, hostIp, calls, ip);
  }

  // ------------------------------------------------------------ what is heard

  /**
   * Every packet, request or reply, teaches the address of its sender for 300 s,
   * and nothing else; one whose sender has no address or a group MAC teaches
   * nothing, and neither does one that is malformed.
   */
  lemma LearnsFrom(t: Table, p: ArpPacket, padding: bytes, now: nat, later: nat, ip: Ip)
    ensures var t' := Received(t, BuildPacket(p) + padding, now).0;
            LookedUp(t', ip, later)
            == if p.senderIp == ip && p.senderIp != [0, 0, 0, 0] && p.senderMac[0] % 2 == 0
               then (if later - now < 300_000_000_000 then Some(p.senderMac) else None)
               else LookedUp(t, ip, later)
  {
    PacketRoundTrip(p, padding);
  }

  /** A malformed packet changes nothing: too short, or not for Ethernet and IPv4. */
  lemma MalformedIgnored(t: Table, payload: bytes, now: nat)
    ensures Received(t, payload, now).1.Err? <==> |payload| < 28 || payload[..6] != [0, 1, 8, 0, 6, 4]
    ensures Received(t, payload, now).1.Err? ==> Received(t, payload, now).0 == t
  {
    if |payload| >= 28 {
      assert payload[..6] == [payload[0], payload[1], payload[2], payload[3], payload[4], payload[5]];
    }
  }

  /** So a question that was put on the wire is settled by its answer. */
  lemma AnswerResolves(t: Table, ip: Ip, mac: Mac, asked: nat, now: nat, later: nat, padding: bytes)
    requires ip != [0, 0, 0, 0] && mac[0] % 2 == 0 && later - now < 300_000_000_000
    ensures var asking := Requested(t, ip, asked).0;
            var answer := ArpPacket(2, mac, ip, t.hostMac, t.hostIp);
            LookedUp(Received(asking, BuildPacket(answer) + padding, now).0, ip, later) == Some(mac)
  {
    LearnsFrom(Requested(t, ip, asked).0, ArpPacket(2, mac, ip, t.hostMac, t.hostIp), padding, now, later, ip);
  }

  // ------------------------------------------------------- the learning filter

  /** No entry that the learning filter would refuse. */
  ghost predicate Clean(t: Table) {
    forall ip :: ip in t.cache ==> ip != [0, 0, 0, 0] && t.cache[ip].mac[0] % 2 == 0
  }

  lemma InsertedClean(t: Table, ip: Ip, mac: Mac, now: nat)
    requires Clean(t)
    ensures Clean(Inserted(t, ip, mac, now)) <==> ip != UNSPECIFIED && !IsMulticast(mac)
  {
    var cache := Inserted(t, ip, mac, now).cache;
    assert ip in cache && cache[ip].mac == mac;
  }

  /** The filter covers what is heard. */
  lemma HeardClean(t: Table, payload: bytes, now: nat)
    requires Clean(t)
    ensures Clean(Received(t, payload, now).0)
  {
    var p := ParsePacket(payload);
    if p.Ok? && Teaches(p.value) {
      InsertedClean(t, p.value.senderIp, p.value.senderMac, now);
    }
  }

  /** The table was clean after each of the calls. */
  ghost predicate AlwaysClean(t: Table, calls: seq<Call>) {
    Clean(After(t, calls)) && (calls != [] ==> AlwaysClean(t, calls[..|calls| - 1]))
  }

  /** Not a direct insertion of what the filter would refuse. */
  predicate Proper(call: Call) {
    call.Learn? ==> call.ip != [0, 0, 0, 0] && call.mac[0] % 2 == 0
  }

  predicate AllProper(calls: seq<Call>) {
    calls != [] ==> Proper(calls[|calls| - 1]) && AllProper(calls[..|calls| - 1])
  }

  lemma CleanStep(t: Table, call: Call)
    requires Clean(t)
    ensures Clean(Do(t, call)) <==> Proper(call)
  {
    match call
    case SetIp(_) =>
    case Learn(ip, mac, now) =>
      InsertedClean(t, ip, mac, now);
    case Ask(_, _) =>
    case Hear(payload, now) =>
      HeardClean(t, payload, now);
  }

  /**
   * The filter holds for everything heard and for nothing inserted: over every
   * history the table stays free of the unspecified address and of group MACs
   * exactly when no direct insertion has one.
   */
  lemma {:induction false} OnlyInsertionTaints(mac: Mac, hostIp: Ip, calls: seq<Call>)
    ensures AlwaysClean(NewTable(mac, hostIp), calls) <==> AllProper(calls)
  {
    if calls != [] {
      var n := |calls| - 1;
      OnlyInsertionTaints(mac, hostIp, calls[..n]);
      if AlwaysClean(NewTable(mac, hostIp), calls[..n]) {
        CleanStep(After(NewTable(mac, hostIp), calls[..n]), calls[n]);
      }
    }
  }

  // ------------------------------------------------------------ rate limiting

  /** Call `i` puts a request for `ip` on the wire. */
  predicate Emits(t: Table, calls: seq<Call>, i: nat, ip: Ip)
    requires i < |calls|
  {
    calls[i].Ask? && calls[i].ip == ip && Requested(After(t, calls[..i]), ip, calls[i].now).1.Some?
  }

  ghost predicate Monotone(calls: seq<Call>) {
    forall i, j :: 0 <= i < j < |calls| && calls[i].Ask? && calls[j].Ask? ==> calls[i].now <= calls[j].now
  }

  /** When the last request for `ip` among the first `k` calls went out. */
  function LastEmitted(t: Table, calls: seq<Call>, k: nat, ip: Ip): Option<nat>
    requires k <= |calls|
  {
    if k == 0 then None
    else if Emits(t, calls, k - 1, ip) then Some(calls[k - 1].now)
    else LastEmitted(t, calls, k - 1, ip)
  }

  function Remembered(t: Table, ip: Ip): Option<nat> {
    if ip in t.lastRequest then Some(t.lastRequest[ip]) else None
  }

  lemma {:induction false} AfterNext(t: Table, calls: seq<Call>, k: nat)
    requires k < |calls|
    ensures After(t, calls[..k + 1]) == Do(After(t, calls[..k]), calls[k])
  {
    assert calls[..k + 1][..k] == calls[..k];
  }

  /** Only an emitted request changes the remembered time of its address. */
  lemma RememberedNext(t: Table, call: Call, ip: Ip)
    ensures Remembered(Do(t, call), ip)
         == if call.Ask? && call.ip == ip && Requested(t, ip, call.now).1.Some? then Some(call.now)
            else Remembered(t, ip)
  {
  }

  lemma {:induction false} RemembersLast(mac: Mac, hostIp: Ip, calls: seq<Call>, k: nat, ip: Ip)
    requires k <= |calls|
    ensures Remembered(After(NewTable(mac, hostIp), calls[..k]), ip)
         == LastEmitted(NewTable(mac, hostIp), calls, k, ip)
  {
    var t := NewTable(mac, hostIp);
    if k == 0 {
      assert calls[..0] == [];
    } else {
      RemembersLast(mac, hostIp, calls, k - 1, ip);
      AfterNext(t, calls, k - 1);
      RememberedNext(After(t, calls[..k - 1]), calls[k - 1], ip);
    }
  }

  /** On a monotone clock the last emission is the latest, and it is one of them. */
  lemma {:induction false} LastIsLatest(t: Table, calls: seq<Call>, k: nat, ip: Ip)
    requires Monotone(calls) && k <= |calls|
    ensures var last := LastEmitted(t, calls, k, ip);
            && (forall i :: 0 <= i < k && Emits(t, calls, i, ip) ==> last.Some? && calls[i].now <= last.value)
            && (last.Some? ==> exists i :: 0 <= i < k && Emits(t, calls, i, ip) && calls[i].now == last.value)
  {
    if k > 0 {
      LastIsLatest(t, calls, k - 1, ip);
    }
  }

  /**
   * Over every history on a monotone clock, a request is put on the wire exactly
   * when none for the same address was in the second before it.
   */
  lemma {:induction false} RequestsAreSpaced(mac: Mac, hostIp: Ip, calls: seq<Call>, n: nat, ip: Ip)
    requires Monotone(calls)
    requires n < |calls| && calls[n].Ask? && calls[n].ip == ip
    ensures var t := NewTable(mac, hostIp);
            Emits(t, calls, n, ip) <==>
            forall i :: 0 <= i < n && Emits(t, calls, i, ip) ==> calls[n].now - calls[i].now >= 1_000_000_000
  {
    var t := NewTable(mac, hostIp);
    RemembersLast(mac, hostIp, calls, n, ip);
    LastIsLatest(t, calls, n, ip);
    EmittedWhenDue(After(t, calls[..n]), ip, calls[n].now);
  }

  lemma EmittedWhenDue(t: Table, ip: Ip, now: nat)
    ensures Requested(t, ip, now).1.Some? <==>
            (Remembered(t, ip).Some? ==> now - Remembered(t, ip).value >= RETRY_INTERVAL)
  {
  }

  // ------------------------------------------------------------------ replies

  /**
   * A reply goes out exactly for a well-formed request naming our own, assigned
   * address, and it reads back as our address answering the asker.
   */
  lemma RepliesAnswer(t: Table, payload: bytes, now: nat)
    ensures var r := Received(t, payload, now).1;
            var p := ParsePacket(payload);
            && (r.Ok? <==> p.Ok?)
            && (r.Ok? ==> (r.value.Some? <==>
                 p.value.op == 1 && p.value.targetIp == t.hostIp != [0, 0, 0, 0]))
            && (r.Ok? && r.value.Some? ==>
                 var f := Parse(r.value.value);
                 && f.Ok? && f.value.dst == p.value.senderMac && f.value.src == t.hostMac
                 && f.value.ethertype == 0x0806
                 && ParsePacket(f.value.payload)
                 == Ok(ArpPacket(2, t.hostMac, t.hostIp, p.value.senderMac, p.value.senderIp)))
  {
    var r := Received(t, payload, now).1;
    if r.Ok? && r.value.Some? {
      var p := ParsePacket(payload).value;
      var answer := ArpPacket(OP_REPLY, t.hostMac, t.hostIp, p.senderMac, p.senderIp);
      ParseBuild(p.senderMac, t.hostMac, ETHERTYPE_ARP, BuildPacket(answer));
      PacketRoundTrip(answer, Zeros(18));
    }
  }

  /** The address we went by after these calls. */
  function HostIpAfter(hostIp: Ip, calls: seq<Call>): Ip {
    if calls == [] then hostIp
    else
      var n := |calls| - 1;
      if calls[n].SetIp? then calls[n].ip else HostIpAfter(hostIp, calls[..n])
  }

  lemma {:induction false} NamesAfter(mac: Mac, hostIp: Ip, calls: seq<Call>)
    ensures After(NewTable(mac, hostIp), calls).hostMac == mac
    ensures After(NewTable(mac, hostIp), calls).hostIp == HostIpAfter(hostIp, calls)
  {
    if calls != [] {
      NamesAfter(mac, hostIp, calls[..|calls| - 1]);
    }
  }

  /**
   * Over every history, every request put on the wire is a broadcast that reads
   * back as our question for the address, asked from the address set last.
   */
  lemma {:induction false} RequestsAsk(mac: Mac, hostIp: Ip, calls: seq<Call>, n: nat, ip: Ip)
    requires n < |calls| && Emits(NewTable(mac, hostIp), calls, n, ip)
    ensures var frame := Requested(After(NewTable(mac, hostIp), calls[..n]), ip, calls[n].now).1.value;
            var f := Parse(frame);
            && f.Ok? && f.value.dst == [0xFF, 0xFF, 0xFF, 0xFF, 0xFF, 0xFF] && f.value.src == mac
            && f.value.ethertype == 0x0806
            && ParsePacket(f.value.payload)
            == Ok(ArpPacket(1, mac, HostIpAfter(hostIp, calls[..n]), [0, 0, 0, 0, 0, 0], ip))
  {
    NamesAfter(mac, hostIp, calls[..n]);
    var question := ArpPacket(OP_REQUEST, mac, HostIpAfter(hostIp, calls[..n]), ZERO_MAC, ip);
    ParseBuild(BROADCAST_MAC, mac, ETHERTYPE_ARP, BuildPacket(question));
    PacketRoundTrip(question, Zeros(18));
  }
}
