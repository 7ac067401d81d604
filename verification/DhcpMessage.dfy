/** DHCP messages and their options (`src/netstack/dhcp.rs`). */
module DhcpMessage {
  import opened Bytes
  import opened NetError
  import opened Ethernet

  const OP_REQUEST: byte := 1
  const OP_REPLY: byte := 2
  const HTYPE_ETHERNET: byte := 1
  const FLAG_BROADCAST: u16 := 0x8000
  const MAGIC_COOKIE: bytes := [0x63, 0x82, 0x53, 0x63]
  const BOOTP_LEN: nat := 236

  const OPT_PAD: byte := 0
  const OPT_SUBNET_MASK: byte := 1
  const OPT_ROUTER: byte := 3
  const OPT_DNS: byte := 6
  const OPT_DOMAIN_NAME: byte := 15
  const OPT_INTERFACE_MTU: byte := 26
  const OPT_REQUESTED_IP: byte := 50
  const OPT_LEASE_TIME: byte := 51
  const OPT_MESSAGE_TYPE: byte := 53
  const OPT_SERVER_ID: byte := 54
  const OPT_PARAM_REQUEST: byte := 55
  const OPT_RENEWAL_TIME: byte := 58
  const OPT_CLIENT_ID: byte := 61
  const OPT_END: byte := 255

  const DISCOVER: byte := 1
  const OFFER: byte := 2
  const REQUEST: byte := 3
  const ACK: byte := 5
  const NAK: byte := 6

  /** Durations count nanoseconds, the resolution of the source's clock type. */
  const SECOND: nat := 1_000_000_000

  // ----------------------------------------------------------------- options

  datatype Tlv = Tlv(code: byte, data: bytes)

  /** The options of a message body: pads skipped, END stops, truncation fails. */
  function Scan(rest: bytes): Result<seq<Tlv>, Error>
    decreases |rest|
  {
    if rest == [] then Ok([])
    else if rest[0] == OPT_PAD then Scan(rest[1..])
    else if rest[0] == OPT_END then Ok([])
    else if |rest| < 2 || |rest| < 2 + rest[1] as int then Err(Truncated)
    else
      var later :- Scan(rest[2 + rest[1] as int..]);
      Ok([Tlv(rest[0], rest[2..2 + rest[1] as int])] + later)
  }

  /** What a writer puts in the options area. */
  datatype Written = Pad | Opt(tlv: Tlv)

  /** One option on the wire; the length byte is a narrowing cast. */
  function OptionBytes(code: byte, data: bytes): bytes {
    [code, |data| % 0x100] + data
  }

  function ItemBytes(item: Written): bytes {
    match item
    case Pad => [0]
    case Opt(tlv) => OptionBytes(tlv.code, tlv.data)
  }

  function ItemTlvs(item: Written): seq<Tlv> {
    match item
    case Pad => []
    case Opt(tlv) => [tlv]
  }

  function Write(items: seq<Written>): bytes {
    if items == [] then [] else ItemBytes(items[0]) + Write(items[1..])
  }

  function Tlvs(items: seq<Written>): seq<Tlv> {
    if items == [] then [] else ItemTlvs(items[0]) + Tlvs(items[1..])
  }

  predicate Writable(tlv: Tlv) {
    tlv.code != OPT_PAD && tlv.code != OPT_END && |tlv.data| < 0x100
  }

  predicate AllWritable(items: seq<Written>) {
    forall i :: 0 <= i < |items| && items[i].Opt? ==> Writable(items[i].tlv)
  }

  function InFront(tlvs: seq<Tlv>, scanned: Result<seq<Tlv>, Error>): Result<seq<Tlv>, Error> {
    if scanned.Ok? then Ok(tlvs + scanned.value) else scanned
  }

  lemma InFrontTwice(a: seq<Tlv>, b: seq<Tlv>, scanned: Result<seq<Tlv>, Error>)
    ensures InFront(a, InFront(b, scanned)) == InFront(a + b, scanned)
    ensures InFront([], scanned) == scanned
  {
    if scanned.Ok? {
      assert a + (b + scanned.value) == a + b + scanned.value;
      assert [] + scanned.value == scanned.value;
    }
  }

  lemma OptionSplits(head: bytes, data: bytes, after: bytes)
    requires |head| == 2
    ensures var buf := head + data + after;
            buf[2..2 + |data|] == data && buf[2 + |data|..] == after && buf[0] == head[0] && buf[1] == head[1]
  {
  }

  lemma {:induction false} ScanStep(buf: bytes, data: bytes, after: bytes)
    requires |buf| >= 2 + |data| && buf[0] != OPT_PAD && buf[0] != OPT_END && buf[1] as int == |data|
    requires buf[2..2 + |data|] == data && buf[2 + |data|..] == after
    ensures Scan(buf) == InFront([Tlv(buf[0], data)], Scan(after))
  {
  }

  lemma {:induction false} ScanPad(after: bytes)
    ensures Scan([OPT_PAD] + after) == Scan(after)
  {
    assert ([OPT_PAD] + after)[1..] == after;
  }

  lemma {:induction false} ScanOne(item: Written, after: bytes)
    requires item.Opt? ==> Writable(item.tlv)
    ensures Scan(ItemBytes(item) + after) == InFront(ItemTlvs(item), Scan(after))
  {
    match item
    case Pad =>
      ScanPad(after);
      InFrontTwice([], [], Scan(after));
    case Opt(tlv) =>
      OptionSplits([tlv.code, |tlv.data| % 0x100], tlv.data, after);
      ScanStep(OptionBytes(tlv.code, tlv.data) + after, tlv.data, after);
  }

  /** Written options scan back, in front of whatever the rest scans to. */
  lemma {:induction false} ScanWritten(items: seq<Written>, rest: bytes)
    requires AllWritable(items)
    ensures Scan(Write(items) + rest) == InFront(Tlvs(items), Scan(rest))
  {
    if items == [] {
      assert Write(items) + rest == rest;
      InFrontTwice([], [], Scan(rest));
    } else {
      var after := Write(items[1..]) + rest;
      Assoc(ItemBytes(items[0]), Write(items[1..]), rest);
      ScanOne(items[0], after);
      ScanWritten(items[1..], rest);
      InFrontTwice(ItemTlvs(items[0]), Tlvs(items[1..]), Scan(rest));
    }
  }

  /** The items a body spells, up to its END, its end or its truncation. */
  function Spelled(rest: bytes): seq<Written>
    decreases |rest|
  {
    if rest == [] || rest[0] == OPT_END then []
    else if rest[0] == OPT_PAD then [Pad] + Spelled(rest[1..])
    else if |rest| < 2 || |rest| < 2 + rest[1] as int then []
    else [Opt(Tlv(rest[0], rest[2..2 + rest[1] as int]))] + Spelled(rest[2 + rest[1] as int..])
  }

  /** What follows the items: END and beyond, nothing, or a truncated option. */
  function Remainder(rest: bytes): bytes
    decreases |rest|
  {
    if rest == [] || rest[0] == OPT_END then rest
    else if rest[0] == OPT_PAD then Remainder(rest[1..])
    else if |rest| < 2 || |rest| < 2 + rest[1] as int then rest
    else Remainder(rest[2 + rest[1] as int..])
  }

  predicate Ended(tail: bytes) {
    tail == [] || tail[0] == 255
  }

  lemma {:induction false} Spelling(rest: bytes)
    ensures rest == Write(Spelled(rest)) + Remainder(rest)
    ensures AllWritable(Spelled(rest))
    ensures Scan(rest).Ok? ==> Ended(Remainder(rest))
    decreases |rest|
  {
    if rest == [] || rest[0] == OPT_END {
    } else if rest[0] == OPT_PAD {
      Spelling(rest[1..]);
      assert rest == ItemBytes(Pad) + rest[1..];
      SpellingStep(rest, Pad, rest[1..]);
    } else if |rest| >= 2 && |rest| >= 2 + rest[1] as int {
      var n := 2 + rest[1] as int;
      var item := Opt(Tlv(rest[0], rest[2..n]));
      Spelling(rest[n..]);
      SplitOption(rest, n);
      SpellingStep(rest, item, rest[n..]);
    }
  }

  lemma SplitOption(rest: bytes, n: nat)
    requires 2 <= n <= |rest| && n == 2 + rest[1] as int
    ensures rest == OptionBytes(rest[0], rest[2..n]) + rest[n..]
  {
    assert rest[..2] == [rest[0], rest[1]];
  }

  lemma {:induction false} SpellingStep(rest: bytes, item: Written, after: bytes)
    requires rest == ItemBytes(item) + after
    requires after == Write(Spelled(after)) + Remainder(after)
    ensures rest == Write([item] + Spelled(after)) + Remainder(after)
  {
    assert ([item] + Spelled(after))[1..] == Spelled(after);
    Assoc(ItemBytes(item), Write(Spelled(after)), Remainder(after));
  }

  /** A body is accepted exactly when it is whole options ended by END or by the end. */
  lemma {:induction false} ScanAccepts(rest: bytes)
    ensures Scan(rest).Ok? <==>
            exists items, tail :: AllWritable(items) && Ended(tail) && rest == Write(items) + tail
  {
    if Scan(rest).Ok? {
      Spelling(rest);
    }
    forall items, tail | AllWritable(items) && Ended(tail) && rest == Write(items) + tail
      ensures Scan(rest).Ok?
    {
      ScanWritten(items, tail);
    }
  }

  // ----------------------------------------------------------------- parsing

  datatype Parsed = Parsed(
    xid: u32,
    yiaddr: Ip,
    siaddr: Ip,
    chaddr: Mac,
    messageType: byte,
    netmask: Option<Ip>,
    router: Option<Ip>,
    dns: seq<Ip>,
    domain: Option<bytes>,
    mtu: Option<u16>,
    serverId: Option<Ip>,
    leaseTime: Option<nat>,
    renewalTime: Option<nat>)

  function Seconds(b: bytes): nat
    requires |b| >= 4
  {
    Be32At(b, 0) * SECOND
  }

  /** The whole addresses in a DNS option; a shorter rest is dropped. */
  function Addresses(data: bytes): (r: seq<Ip>)
    ensures |r| == |data| / 4
    ensures forall i :: 0 <= i < |r| ==> r[i] == data[4 * i..4 * i + 4]
  {
    if |data| < 4 then []
    else
      var rest := Addresses(data[4..]);
      AddressesNext(data, rest);
      [data[..4]] + rest
  }

  lemma AddressesNext(data: bytes, rest: seq<Ip>)
    requires |data| >= 4 && |rest| == |data[4..]| / 4
    requires forall i :: 0 <= i < |rest| ==> rest[i] == data[4..][4 * i..4 * i + 4]
    ensures var r := [data[..4]] + rest;
            |r| == |data| / 4 && forall i :: 0 <= i < |r| ==> r[i] == data[4 * i..4 * i + 4]
  {
    var r := [data[..4]] + rest;
    forall i | 0 <= i < |r|
      ensures r[i] == data[4 * i..4 * i + 4]
    {
      if i > 0 {
        var k := i - 1;
        assert r[i] == rest[k];
        SliceOfDrop(data, 4, 4 * k + 4, 4 * k + 8);
      }
    }
  }

  predicate Continuation(b: bytes, i: nat) {
    i < |b| && 0x80 <= b[i] < 0xC0
  }

  /** Well-formed UTF-8, as in section 4 of RFC 3629. */
  predicate Utf8(b: bytes)
    decreases |b|
  {
    if b == [] then true
    else if b[0] < 0x80 then Utf8(b[1..])
    else if 0xC2 <= b[0] < 0xE0 then Continuation(b, 1) && Utf8(b[2..])
    else if 0xE0 <= b[0] < 0xF0 then
      && Continuation(b, 1) && Continuation(b, 2)
      && (b[0] == 0xE0 ==> b[1] >= 0xA0) && (b[0] == 0xED ==> b[1] < 0xA0)
      && Utf8(b[3..])
    else if 0xF0 <= b[0] < 0xF5 then
      && Continuation(b, 1) && Continuation(b, 2) && Continuation(b, 3)
      && (b[0] == 0xF0 ==> b[1] >= 0x90) && (b[0] == 0xF4 ==> b[1] < 0x90)
      && Utf8(b[4..])
    else false
  }

  function TrimNuls(b: bytes): (r: bytes)
    ensures r <= b && (r == [] || r[|r| - 1] != 0)
    ensures forall i :: |r| <= i < |b| ==> b[i] == 0
  {
    if b != [] && b[|b| - 1] == 0 then TrimNuls(b[..|b| - 1]) else b
  }

  function DomainName(data: bytes): Option<bytes> {
    if Utf8(data) && TrimNuls(data) != [] then Some(TrimNuls(data)) else None
  }

  /** What one option does; those too short for their type do nothing. */
  function Apply(p: Parsed, tlv: Tlv): Parsed {
    var data, len := tlv.data, |tlv.data|;
    if tlv.code == OPT_MESSAGE_TYPE && len >= 1 then p.(messageType := data[0])
    else if tlv.code == OPT_SUBNET_MASK && len >= 4 then p.(netmask := Some(data[..4]))
    else if tlv.code == OPT_ROUTER && len >= 4 then p.(router := Some(data[..4]))
    else if tlv.code == OPT_SERVER_ID && len >= 4 then p.(serverId := Some(data[..4]))
    else if tlv.code == OPT_DNS then p.(dns := Addresses(data))
    else if tlv.code == OPT_DOMAIN_NAME then p.(domain := DomainName(data))
    else if tlv.code == OPT_INTERFACE_MTU && len >= 2 then p.(mtu := Some(Be16At(data, 0)))
    else if tlv.code == OPT_LEASE_TIME && len >= 4 then p.(leaseTime := Some(Seconds(data)))
    else if tlv.code == OPT_RENEWAL_TIME && len >= 4 then p.(renewalTime := Some(Seconds(data)))
    else p
  }

  function ApplyAll(p: Parsed, tlvs: seq<Tlv>): Parsed
    decreases |tlvs|
  {
    if tlvs == [] then p else ApplyAll(Apply(p, tlvs[0]), tlvs[1..])
  }

  /** The fixed fields, before any option. */
  function FixedFields(buf: bytes): Parsed
    requires |buf| >= BOOTP_LEN
  {
    Parsed(Be32At(buf, 4), buf[16..20], buf[20..24], buf[28..34], 0,
           None, None, [], None, None, None, None, None)
  }

  /** The meaning of a received message: fixed fields, then a fold over its options. */
  function Meaning(buf: bytes): Result<Parsed, Error> {
    if |buf| < BOOTP_LEN + 4 then Err(Truncated)
    else if buf[0] != OP_REPLY then Err(Malformed("not a BOOTP reply"))
    else if buf[BOOTP_LEN..BOOTP_LEN + 4] != MAGIC_COOKIE then Err(Malformed("bad magic cookie"))
    else
      var tlvs :- Scan(buf[BOOTP_LEN + 4..]);
      var p := ApplyAll(FixedFields(buf), tlvs);
      if p.messageType == 0 then Err(Malformed("no DHCP message type")) else Ok(p)
  }

  /** Which messages are taken: a BOOTP reply with the cookie, whole options, and a type among them. */
  lemma MeaningExactly(buf: bytes)
    ensures Meaning(buf).Ok? <==>
            && |buf| >= 240 && buf[0] == 2 && buf[236..240] == [0x63, 0x82, 0x53, 0x63]
            && Scan(buf[240..]).Ok?
            && LastOption(Scan(buf[240..]).value, 53, 1).Some?
            && LastOption(Scan(buf[240..]).value, 53, 1).value[0] != 0
  {
    if |buf| >= 240 && Scan(buf[240..]).Ok? {
      TypeField(FixedFields(buf), Scan(buf[240..]).value);
    }
  }

  /** The source's single loop over the options, updating as it goes. */
  method ParseMessage(buf: bytes) returns (r: Result<Parsed, Error>)
    ensures r == Meaning(buf)
  {
    if |buf| < BOOTP_LEN + 4 {
      return Err(Truncated);
    }
    if buf[0] != OP_REPLY {
      return Err(Malformed("not a BOOTP reply"));
    }
    if buf[BOOTP_LEN..BOOTP_LEN + 4] != MAGIC_COOKIE {
      return Err(Malformed("bad magic cookie"));
    }

    var p := FixedFields(buf);
    var rest := buf[BOOTP_LEN + 4..];
    ghost var all := Scan(rest);
    while rest != []
      invariant all.Ok? <==> Scan(rest).Ok?
      invariant all.Ok? ==> ApplyAll(FixedFields(buf), all.value) == ApplyAll(p, Scan(rest).value)
      invariant all.Err? ==> all == Scan(rest)
      decreases |rest|
    {
      var code := rest[0];
      if code == OPT_PAD {
        rest := rest[1..];
        continue;
      } else if code == OPT_END {
        break;
      }
      if |rest| < 2 {
        return Err(Truncated);
      }
      var len := rest[1];
      if |rest| < 2 + len as int {
        return Err(Truncated);
      }
      var data := rest[2..2 + len as int];
      rest := rest[2 + len as int..];
      p := Apply(p, Tlv(code, data));
    }

    if p.messageType == 0 {
      return Err(Malformed("no DHCP message type"));
    }
    return Ok(p);
  }

  // -------------------------------------------------- which option wins

  /** The data of the last option with this code and at least `min` bytes. */
  function LastOption(tlvs: seq<Tlv>, code: byte, min: nat): (r: Option<bytes>)
    ensures r.Some? ==> |r.value| >= min
  {
    if tlvs == [] then None
    else
      var later := LastOption(tlvs[1..], code, min);
      if later.Some? then later
      else if tlvs[0].code == code && |tlvs[0].data| >= min then Some(tlvs[0].data)
      else None
  }

  /** Option `i` is one of this code, long enough. */
  predicate Says(tlvs: seq<Tlv>, i: nat, code: byte, min: nat) {
    i < |tlvs| && tlvs[i].code == code && |tlvs[i].data| >= min
  }

  /** It is the one with the highest place of its kind. */
  lemma {:induction false} LastOptionMeans(tlvs: seq<Tlv>, code: byte, min: nat)
    ensures LastOption(tlvs, code, min).None? ==> forall i: nat :: !Says(tlvs, i, code, min)
    ensures LastOption(tlvs, code, min).Some? ==>
              exists i: nat :: Says(tlvs, i, code, min) && tlvs[i].data == LastOption(tlvs, code, min).value
                               && forall k: nat :: k > i ==> !Says(tlvs, k, code, min)
  {
    if tlvs != [] {
      var later := tlvs[1..];
      LastOptionMeans(later, code, min);
      if LastOption(later, code, min).Some? {
        var i: nat :| Says(later, i, code, min) && later[i].data == LastOption(later, code, min).value
                      && forall k: nat :: k > i ==> !Says(later, k, code, min);
        assert Says(tlvs, i + 1, code, min);
        forall k: nat | k > i + 1
          ensures !Says(tlvs, k, code, min)
        {
          assert !Says(later, k - 1, code, min);
        }
      } else {
        forall k: nat | k > 0
          ensures !Says(tlvs, k, code, min)
        {
          assert !Says(later, k - 1, code, min);
        }
        if LastOption(tlvs, code, min).Some? {
          assert Says(tlvs, 0, code, min);
        }
      }
    }
  }

  function OrElse<T>(later: Option<T>, before: Option<T>): Option<T> {
    if later.Some? then later else before
  }

  function LastAddress(tlvs: seq<Tlv>, code: byte): Option<Ip> {
    match LastOption(tlvs, code, 4)
    case Some(data) => Some(data[..4])
    case None => None
  }

  function LastTime(tlvs: seq<Tlv>, code: byte): Option<nat> {
    match LastOption(tlvs, code, 4)
    case Some(data) => Some(Seconds(data))
    case None => None
  }

  lemma {:induction false} FixedStay(p: Parsed, tlvs: seq<Tlv>)
    ensures var q := ApplyAll(p, tlvs);
            q.xid == p.xid && q.yiaddr == p.yiaddr && q.siaddr == p.siaddr && q.chaddr == p.chaddr
    decreases |tlvs|
  {
    if tlvs != [] {
      FixedStay(Apply(p, tlvs[0]), tlvs[1..]);
    }
  }

  lemma {:induction false} TypeField(p: Parsed, tlvs: seq<Tlv>)
    ensures ApplyAll(p, tlvs).messageType
         == match LastOption(tlvs, OPT_MESSAGE_TYPE, 1) case Some(data) => data[0] case None => p.messageType
    decreases |tlvs|
  {
    if tlvs != [] {
      TypeField(Apply(p, tlvs[0]), tlvs[1..]);
    }
  }

  lemma {:induction false} AddressFields(p: Parsed, tlvs: seq<Tlv>)
    ensures ApplyAll(p, tlvs).netmask == OrElse(LastAddress(tlvs, OPT_SUBNET_MASK), p.netmask)
    ensures ApplyAll(p, tlvs).router == OrElse(LastAddress(tlvs, OPT_ROUTER), p.router)
    ensures ApplyAll(p, tlvs).serverId == OrElse(LastAddress(tlvs, OPT_SERVER_ID), p.serverId)
    decreases |tlvs|
  {
    if tlvs != [] {
      AddressFields(Apply(p, tlvs[0]), tlvs[1..]);
    }
  }

  lemma {:induction false} TimeFields(p: Parsed, tlvs: seq<Tlv>)
    ensures ApplyAll(p, tlvs).leaseTime == OrElse(LastTime(tlvs, OPT_LEASE_TIME), p.leaseTime)
    ensures ApplyAll(p, tlvs).renewalTime == OrElse(LastTime(tlvs, OPT_RENEWAL_TIME), p.renewalTime)
    decreases |tlvs|
  {
    if tlvs != [] {
      TimeFields(Apply(p, tlvs[0]), tlvs[1..]);
    }
  }

  lemma {:induction false} OpenFields(p: Parsed, tlvs: seq<Tlv>)
    ensures ApplyAll(p, tlvs).dns
         == match LastOption(tlvs, OPT_DNS, 0) case Some(data) => Addresses(data) case None => p.dns
    ensures ApplyAll(p, tlvs).domain
         == match LastOption(tlvs, OPT_DOMAIN_NAME, 0) case Some(data) => DomainName(data) case None => p.domain
    ensures ApplyAll(p, tlvs).mtu
         == match LastOption(tlvs, OPT_INTERFACE_MTU, 2) case Some(data) => Some(Be16At(data, 0)) case None => p.mtu
    decreases |tlvs|
  {
    if tlvs != [] {
      OpenFields(Apply(p, tlvs[0]), tlvs[1..]);
    }
  }

  /**
   * Each field of an accepted message is decided by the last option of its code
   * that is long enough; DNS and domain have no minimum, so their last
   * occurrence always wins, even when it is empty.
   */
  lemma LastOccurrenceWins(buf: bytes)
    requires Meaning(buf).Ok?
    ensures var p, tlvs := Meaning(buf).value, Scan(buf[240..]).value;
            && p.xid == Be32At(buf, 4) && p.yiaddr == buf[16..20]
            && p.siaddr == buf[20..24] && p.chaddr == buf[28..34]
            && LastOption(tlvs, 53, 1).Some?
            && p.messageType == LastOption(tlvs, 53, 1).value[0] != 0
            && p.netmask == LastAddress(tlvs, 1)
            && p.router == LastAddress(tlvs, 3)
            && p.serverId == LastAddress(tlvs, 54)
            && p.leaseTime == LastTime(tlvs, 51)
            && p.renewalTime == LastTime(tlvs, 58)
            && p.dns == (match LastOption(tlvs, 6, 0) case Some(data) => Addresses(data) case None => [])
            && p.domain == (match LastOption(tlvs, 15, 0)
                            case Some(data) => DomainName(data) case None => None)
            && p.mtu == (match LastOption(tlvs, 26, 2)
                         case Some(data) => Some(Be16At(data, 0)) case None => None)
  {
    var start, tlvs := FixedFields(buf), Scan(buf[BOOTP_LEN + 4..]).value;
    FixedStay(start, tlvs);
    TypeField(start, tlvs);
    AddressFields(start, tlvs);
    TimeFields(start, tlvs);
    OpenFields(start, tlvs);
  }

  // ---------------------------------------------------------------- building

  const WANTED: bytes :=
    [OPT_SUBNET_MASK, OPT_ROUTER, OPT_DNS, OPT_DOMAIN_NAME, OPT_INTERFACE_MTU, OPT_LEASE_TIME, OPT_RENEWAL_TIME]

  function OptionalAddress(code: byte, ip: Option<Ip>): seq<Written> {
    if ip.Some? then [Opt(Tlv(code, ip.value))] else []
  }

  /** The options of an outgoing message, in order. */
  function Outgoing(mac: Mac, messageType: byte, requested: Option<Ip>, server: Option<Ip>): seq<Written> {
    [Opt(Tlv(OPT_MESSAGE_TYPE, [messageType])), Opt(Tlv(OPT_CLIENT_ID, [HTYPE_ETHERNET] + mac))]
    + OptionalAddress(OPT_REQUESTED_IP, requested)
    + OptionalAddress(OPT_SERVER_ID, server)
    + (if messageType == DISCOVER || messageType == REQUEST
       then [Opt(Tlv(OPT_PARAM_REQUEST, WANTED))] else [])
  }

  /** The BOOTP header; the broadcast flag is set when there is no address yet. */
  function Bootp(mac: Mac, xid: u32, ciaddr: Ip): (h: bytes)
    ensures |h| == BOOTP_LEN
  {
    [OP_REQUEST, HTYPE_ETHERNET, 6, 0] + Be32(xid) + [0, 0]
    + Be16(if ciaddr == UNSPECIFIED then FLAG_BROADCAST else 0)
    + ciaddr + Zeros(12) + mac + Zeros(202)
  }

  function Encode(
      mac: Mac, xid: u32, messageType: byte, ciaddr: Ip, requested: Option<Ip>, server: Option<Ip>): bytes
  {
    var m := Bootp(mac, xid, ciaddr) + MAGIC_COOKIE
             + Write(Outgoing(mac, messageType, requested, server)) + [OPT_END];
    m + Zeros(Max(|m|, 300) - |m|)
  }

  lemma {:induction false} WriteConcat(a: seq<Written>, b: seq<Written>)
    ensures Write(a + b) == Write(a) + Write(b)
    ensures Tlvs(a + b) == Tlvs(a) + Tlvs(b)
  {
    if a == [] {
      assert a + b == b;
    } else {
      assert (a + b)[1..] == a[1..] + b;
      WriteConcat(a[1..], b);
      Assoc(ItemBytes(a[0]), Write(a[1..]), Write(b));
      Assoc(ItemTlvs(a[0]), Tlvs(a[1..]), Tlvs(b));
    }
  }

  lemma WriteOne(tlv: Tlv)
    ensures Write([Opt(tlv)]) == OptionBytes(tlv.code, tlv.data)
    ensures Tlvs([Opt(tlv)]) == [tlv]
  {
    assert [Opt(tlv)][1..] == [];
  }

  lemma {:induction false} WriteAppend(items: seq<Written>, tlv: Tlv)
    ensures Write(items + [Opt(tlv)]) == Write(items) + OptionBytes(tlv.code, tlv.data)
  {
    WriteOne(tlv);
    WriteConcat(items, [Opt(tlv)]);
  }

  method PushOption(m: bytes, code: byte, data: bytes, ghost items: seq<Written>, ghost front: bytes)
    returns (grown: bytes)
    requires m == front + Write(items)
    ensures grown == front + Write(items + [Opt(Tlv(code, data))])
  {
    grown := m + [code, |data| % 0x100] + data;
    WriteAppend(items, Tlv(code, data));
    Assoc(m, [code, |data| % 0x100], data);
    Assoc(front, Write(items), OptionBytes(code, data));
  }

  method PushAddress(m: bytes, code: byte, ip: Option<Ip>, ghost items: seq<Written>, ghost front: bytes)
    returns (grown: bytes)
    requires m == front + Write(items)
    ensures grown == front + Write(items + OptionalAddress(code, ip))
  {
    grown := m;
    if ip.Some? {
      grown := PushOption(m, code, ip.value, items, front);
    } else {
      assert items + [] == items;
    }
  }

  method PushOptions(
      m: bytes, mac: Mac, messageType: byte, requested: Option<Ip>, server: Option<Ip>) returns (grown: bytes)
    ensures grown == m + Write(Outgoing(mac, messageType, requested, server))
  {
    assert m == m + Write([]);
    ghost var items: seq<Written> := [];
    grown := PushOption(m, OPT_MESSAGE_TYPE, [messageType], items, m);
    items := items + [Opt(Tlv(OPT_MESSAGE_TYPE, [messageType]))];
    grown := PushOption(grown, OPT_CLIENT_ID, [HTYPE_ETHERNET] + mac, items, m);
    items := items + [Opt(Tlv(OPT_CLIENT_ID, [HTYPE_ETHERNET] + mac))];
    assert items == [Opt(Tlv(OPT_MESSAGE_TYPE, [messageType])), Opt(Tlv(OPT_CLIENT_ID, [HTYPE_ETHERNET] + mac))];
    grown := PushAddress(grown, OPT_REQUESTED_IP, requested, items, m);
    items := items + OptionalAddress(OPT_REQUESTED_IP, requested);
    grown := PushAddress(grown, OPT_SERVER_ID, server, items, m);
    items := items + OptionalAddress(OPT_SERVER_ID, server);
    if messageType == DISCOVER || messageType == REQUEST {
      grown := PushOption(grown, OPT_PARAM_REQUEST, WANTED, items, m);
      items := items + [Opt(Tlv(OPT_PARAM_REQUEST, WANTED))];
    }
    assert items == Outgoing(mac, messageType, requested, server);
  }

  method BuildMessage(
      mac: Mac, xid: u32, messageType: byte, ciaddr: Ip, requested: Option<Ip>, server: Option<Ip>)
    returns (m: bytes)
    ensures m == Encode(mac, xid, messageType, ciaddr, requested, server)
  {
    m := BuildBootp(mac, xid, ciaddr);
    m := m + MAGIC_COOKIE;
    m := PushOptions(m, mac, messageType, requested, server);
    m := m + [OPT_END];
    m := m + Zeros(Max(|m|, 300) - |m|);
  }

  method BuildBootp(mac: Mac, xid: u32, ciaddr: Ip) returns (m: bytes)
    ensures m == Bootp(mac, xid, ciaddr)
  {
    m := [OP_REQUEST, HTYPE_ETHERNET, 6, 0];
    m := m + Be32(xid) + Be16(0);
    var flags: u16 := if ciaddr == UNSPECIFIED then FLAG_BROADCAST else 0;
    m := m + Be16(flags) + ciaddr;
    m := m + (Zeros(4) + Zeros(4) + Zeros(4));
    m := m + mac;
    m := m + Zeros(BOOTP_LEN - |m|);
    assert Zeros(4) + Zeros(4) + Zeros(4) == Zeros(12);
  }

  /** How a server reads a message: its length, fixed fields and option list. */
  ghost predicate ReadsAs(m: bytes, mac: Mac, xid: u32, ciaddr: Ip, tlvs: seq<Tlv>) {
    && |m| == 300
    && FixedRead(m, mac, xid, ciaddr)
    && m[BOOTP_LEN..BOOTP_LEN + 4] == MAGIC_COOKIE
    && Scan(m[BOOTP_LEN + 4..]) == Ok(tlvs)
  }

  ghost predicate FixedRead(m: bytes, mac: Mac, xid: u32, ciaddr: Ip)
    requires |m| >= BOOTP_LEN
  {
    && m[..4] == [1, 1, 6, 0] && Be32At(m, 4) == xid && Be16At(m, 8) == 0
    && (forall i :: 16 <= i < 28 || 34 <= i < 236 ==> m[i] == 0)
    && Be16At(m, 10) == (if ciaddr == UNSPECIFIED then FLAG_BROADCAST else 0)
    && m[12..16] == ciaddr && m[28..34] == mac
  }

  /**
   * Every built message is 300 bytes long, its fixed fields read back, and its
   * options scan back to the list that was written.
   */
  lemma EncodeReads(
      mac: Mac, xid: u32, messageType: byte, ciaddr: Ip, requested: Option<Ip>, server: Option<Ip>)
    ensures ReadsAs(Encode(mac, xid, messageType, ciaddr, requested, server),
                    mac, xid, ciaddr, Tlvs(Outgoing(mac, messageType, requested, server)))
  {
    var items := Outgoing(mac, messageType, requested, server);
    OutgoingLength(mac, messageType, requested, server);
    EncodeIs(mac, xid, messageType, ciaddr, requested, server);
    BodyReads(Encode(mac, xid, messageType, ciaddr, requested, server), mac, xid, ciaddr, items,
              [OPT_END] + Zeros(59 - |Write(items)|));
  }

  lemma EncodeIs(
      mac: Mac, xid: u32, messageType: byte, ciaddr: Ip, requested: Option<Ip>, server: Option<Ip>)
    requires |Write(Outgoing(mac, messageType, requested, server))| <= 59
    ensures var body := Write(Outgoing(mac, messageType, requested, server));
            Encode(mac, xid, messageType, ciaddr, requested, server)
            == Bootp(mac, xid, ciaddr) + (MAGIC_COOKIE + (body + ([OPT_END] + Zeros(59 - |body|))))
  {
    PaddedTo300(Bootp(mac, xid, ciaddr), Write(Outgoing(mac, messageType, requested, server)));
  }

  lemma {:induction false} BodyReads(
      m: bytes, mac: Mac, xid: u32, ciaddr: Ip, items: seq<Written>, tail: bytes)
    requires m == Bootp(mac, xid, ciaddr) + (MAGIC_COOKIE + (Write(items) + tail))
    requires AllWritable(items) && tail != [] && tail[0] == OPT_END
    requires |Write(items)| + |tail| == 300 - BOOTP_LEN - 4
    ensures ReadsAs(m, mac, xid, ciaddr, Tlvs(items))
  {
    BootpReads(mac, xid, ciaddr, MAGIC_COOKIE + (Write(items) + tail));
    CookieReads(Bootp(mac, xid, ciaddr), Write(items) + tail);
    ScanEnded(items, tail);
  }

  lemma CookieReads(head: bytes, rest: bytes)
    requires |head| == BOOTP_LEN
    ensures var m := head + (MAGIC_COOKIE + rest);
            m[BOOTP_LEN..BOOTP_LEN + 4] == MAGIC_COOKIE && m[BOOTP_LEN + 4..] == rest
  {
  }

  lemma PaddedTo300(head: bytes, body: bytes)
    requires |head| == BOOTP_LEN && |body| <= 59
    ensures var m := head + MAGIC_COOKIE + body + [OPT_END];
            m + Zeros(Max(|m|, 300) - |m|) == head + (MAGIC_COOKIE + (body + ([OPT_END] + Zeros(59 - |body|))))
  {
    EncodeShape(head, body, 59 - |body|);
  }

  lemma EncodeShape(head: bytes, body: bytes, pad: nat)
    ensures head + MAGIC_COOKIE + body + [OPT_END] + Zeros(pad)
         == head + (MAGIC_COOKIE + (body + ([OPT_END] + Zeros(pad))))
  {
  }

  lemma {:induction false} ScanEnded(items: seq<Written>, tail: bytes)
    requires AllWritable(items) && tail != [] && tail[0] == OPT_END
    ensures Scan(Write(items) + tail) == Ok(Tlvs(items))
  {
    ScanWritten(items, tail);
    assert Tlvs(items) + [] == Tlvs(items);
  }

  lemma BootpReads(mac: Mac, xid: u32, ciaddr: Ip, rest: bytes)
    ensures FixedRead(Bootp(mac, xid, ciaddr) + rest, mac, xid, ciaddr)
  {
    var m := Bootp(mac, xid, ciaddr) + rest;
    assert m[..4] == [1, 1, 6, 0];
    assert m[4..8] == Be32(xid);
    assert m[16..28] == Zeros(12) && m[34..236] == Zeros(202);
    assert forall i :: 16 <= i < 28 ==> m[i] == m[16..28][i - 16];
    assert forall i :: 34 <= i < 236 ==> m[i] == m[34..236][i - 34];
  }

  /** Byte count and writability of a stretch of the option list. */
  ghost predicate Spans(items: seq<Written>, most: nat) {
    AllWritable(items) && |Write(items)| <= most
  }

  lemma SpansOption(code: byte, data: bytes)
    requires Writable(Tlv(code, data))
    ensures Spans([Opt(Tlv(code, data))], 2 + |data|)
  {
    WriteOne(Tlv(code, data));
  }

  lemma SpansAddress(code: byte, ip: Option<Ip>)
    requires code != OPT_PAD && code != OPT_END
    ensures Spans(OptionalAddress(code, ip), 6)
  {
    if ip.Some? {
      SpansOption(code, ip.value);
    }
  }

  lemma SpansConcat(a: seq<Written>, n: nat, b: seq<Written>, m: nat)
    requires Spans(a, n) && Spans(b, m)
    ensures Spans(a + b, n + m)
  {
    WriteConcat(a, b);
  }

  lemma OutgoingLength(mac: Mac, messageType: byte, requested: Option<Ip>, server: Option<Ip>)
    ensures Spans(Outgoing(mac, messageType, requested, server), 33)
  {
    var kind := Opt(Tlv(OPT_MESSAGE_TYPE, [messageType]));
    var id := Opt(Tlv(OPT_CLIENT_ID, [HTYPE_ETHERNET] + mac));
    var wanted := if messageType == DISCOVER || messageType == REQUEST
                  then [Opt(Tlv(OPT_PARAM_REQUEST, WANTED))] else [];
    var second := OptionalAddress(OPT_REQUESTED_IP, requested);
    var third := OptionalAddress(OPT_SERVER_ID, server);
    SpansOption(OPT_MESSAGE_TYPE, [messageType]);
    SpansOption(OPT_CLIENT_ID, [HTYPE_ETHERNET] + mac);
    SpansConcat([kind], 3, [id], 9);
    assert [kind] + [id] == [kind, id];
    SpansAddress(OPT_REQUESTED_IP, requested);
    SpansConcat([kind, id], 12, second, 6);
    SpansAddress(OPT_SERVER_ID, server);
    SpansConcat([kind, id] + second, 18, third, 6);
    SpansOption(OPT_PARAM_REQUEST, WANTED);
    SpansConcat([kind, id] + second + third, 24, wanted, 9);
  }
}
