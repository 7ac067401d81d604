/** IPv4/UDP building and parsing (`src/netstack/ipv4.rs`). */
module Ipv4 {
  import opened Bytes
  import opened NetError
  import opened Ethernet
  import opened Checksum

  const PROTO_UDP: byte := 17
  const IPV4_HEADER_LEN: nat := 20
  const UDP_HEADER_LEN: nat := 8
  /** The largest payload whose lengths fit their 16-bit fields. */
  const MAX_PAYLOAD: nat := 65507

  datatype UdpDatagram = UdpDatagram(srcIp: Ip, dstIp: Ip, srcPort: u16, dstPort: u16, payload: bytes)

  /** A narrowing cast `n as u16`. */
  function AsU16(n: nat): u16 {
    n % 0x1_0000
  }

  // ---------------------------------------------------------------- building

  function IpHeader(d: UdpDatagram, ipId: u16, field: u16): (h: bytes)
    ensures |h| == IPV4_HEADER_LEN
  {
    [0x45, 0] + Be16(AsU16(28 + |d.payload|)) + Be16(ipId) + [0, 0, 64, PROTO_UDP]
    + Be16(field) + (d.srcIp + d.dstIp)
  }

  function Segment(d: UdpDatagram, field: u16): (s: bytes)
    ensures |s| == UDP_HEADER_LEN + |d.payload|
  {
    Be16(d.srcPort) + Be16(d.dstPort) + Be16(AsU16(UDP_HEADER_LEN + |d.payload|)) + Be16(field) + d.payload
  }

  /** The pseudo-header of RFC 768. */
  function Pseudo(d: UdpDatagram): (p: bytes)
    ensures |p| == 12
  {
    d.srcIp + d.dstIp + [0, PROTO_UDP] + Be16(AsU16(UDP_HEADER_LEN + |d.payload|))
  }

  function HeaderField(d: UdpDatagram, ipId: u16): u16 {
    PartsChecksum([IpHeader(d, ipId, 0)])
  }

  /** A computed zero would mean "no checksum", so its equivalent is sent. */
  function SegmentField(d: UdpDatagram): (c: u16)
    ensures c != 0
  {
    var c := PartsChecksum([Pseudo(d), Segment(d, 0)]);
    if c == 0 then 0xFFFF else c
  }

  function UdpPacket(d: UdpDatagram, ipId: u16): bytes {
    IpHeader(d, ipId, HeaderField(d, ipId)) + Segment(d, SegmentField(d))
  }

  /** Bytes `i` and `i + 1` overwritten in place. */
  function Patch16(p: bytes, i: nat, v: u16): (r: bytes)
    requires i + 2 <= |p|
    ensures |r| == |p|
  {
    p[..i] + Be16(v) + p[i + 2..]
  }

  lemma PatchHeader(d: UdpDatagram, ipId: u16, v: u16)
    ensures Patch16(IpHeader(d, ipId, 0), 10, v) == IpHeader(d, ipId, v)
  {
  }

  lemma PatchSegment(header: bytes, d: UdpDatagram, v: u16)
    requires |header| == IPV4_HEADER_LEN
    ensures Patch16(header + Segment(d, 0), IPV4_HEADER_LEN + 6, v) == header + Segment(d, v)
  {
    var s := Segment(d, 0);
    assert (header + s)[..26] == header + s[..6];
    assert (header + s)[28..] == s[8..];
    assert Segment(d, v) == s[..6] + Be16(v) + s[8..];
  }

  /** Both checksum fields are written as zero, then patched in place. */
  method BuildUdp(d: UdpDatagram, ipId: u16) returns (p: bytes)
    ensures p == UdpPacket(d, ipId)
  {
    var udpLen := UDP_HEADER_LEN + |d.payload|;
    var totalLen := IPV4_HEADER_LEN + udpLen;
    p := [0x45, 0] + Be16(AsU16(totalLen)) + Be16(ipId) + [0, 0, 64, PROTO_UDP];
    p := p + Be16(0) + (d.srcIp + d.dstIp);

    assert p[..IPV4_HEADER_LEN] == p;
    var ipChecksum := ComputeChecksum([p[..IPV4_HEADER_LEN]]);
    p := Patch16(p, 10, ipChecksum);
    PatchHeader(d, ipId, ipChecksum);
    ghost var header := p;

    p := p + (Be16(d.srcPort) + Be16(d.dstPort) + Be16(AsU16(udpLen)) + Be16(0) + d.payload);
    assert p == header + Segment(d, 0);

    var pseudo := PseudoBytes(d, udpLen);
    assert p[IPV4_HEADER_LEN..] == Segment(d, 0);
    var udpChecksum := ComputeChecksum([pseudo, p[IPV4_HEADER_LEN..]]);
    if udpChecksum == 0 {
      udpChecksum := 0xFFFF;
    }
    p := Patch16(p, IPV4_HEADER_LEN + 6, udpChecksum);
    PatchSegment(header, d, udpChecksum);
  }

  lemma LowBytes(n: nat)
    ensures Be16(AsU16(n)) == [n / 0x100 % 0x100, n % 0x100]
  {
    var q, r := n / 0x1_0000, n % 0x1_0000;
    DivModUnique(n, 0x100, 0x100 * q + r / 0x100, r % 0x100);
    DivModUnique(n / 0x100, 0x100, q, r / 0x100);
  }

  /** The pseudo-header as the source spells it, byte by byte. */
  function PseudoBytes(d: UdpDatagram, udpLen: nat): (p: bytes)
    ensures udpLen == UDP_HEADER_LEN + |d.payload| ==> p == Pseudo(d)
  {
    LowBytes(udpLen);
    d.srcIp + d.dstIp + [0, PROTO_UDP] + [udpLen / 0x100 % 0x100, udpLen % 0x100]
  }

  // ----------------------------------------------------------------- parsing

  function ParseUdp(buf: bytes): Result<UdpDatagram, Error> {
    if |buf| < IPV4_HEADER_LEN then Err(Truncated)
    else if buf[0] / 16 != 4 then Err(Malformed("not IPv4"))
    else
      var headerLen := buf[0] % 16 * 4;
      if headerLen < IPV4_HEADER_LEN || headerLen > |buf| then Err(Malformed("bad IPv4 header length"))
      else if buf[9] != PROTO_UDP then Err(Malformed("not UDP"))
      else if buf[6] / 32 % 2 != 0 || Be16At([buf[6] % 32, buf[7]], 0) != 0 then Err(Malformed("fragmented"))
      else
        var totalLen := Be16At(buf, 2);
        if totalLen < headerLen || totalLen > |buf| then Err(Truncated)
        else
          var udp := buf[headerLen..totalLen];
          if |udp| < UDP_HEADER_LEN then Err(Truncated)
          else
            var udpLen := Be16At(udp, 4);
            if udpLen < UDP_HEADER_LEN || udpLen > |udp| then Err(Truncated)
            else Ok(UdpDatagram(buf[12..16], buf[16..20], Be16At(udp, 0), Be16At(udp, 2), udp[8..udpLen]))
  }

  // -------------------------------------------------------------- round trip

  lemma HeaderReads(d: UdpDatagram, ipId: u16, field: u16, rest: bytes)
    ensures var buf := IpHeader(d, ipId, field) + rest;
            && buf[0] == 0x45 && buf[6] == 0 && buf[7] == 0 && buf[9] == PROTO_UDP
            && buf[1] == 0 && buf[8] == 64
            && Be16At(buf, 2) == AsU16(28 + |d.payload|) && Be16At(buf, 4) == ipId && Be16At(buf, 10) == field
            && buf[12..16] == d.srcIp && buf[16..20] == d.dstIp
            && buf[20..] == rest
  {
  }

  lemma SegmentReads(d: UdpDatagram, field: u16)
    ensures var udp := Segment(d, field);
            && Be16At(udp, 0) == d.srcPort && Be16At(udp, 2) == d.dstPort
            && Be16At(udp, 4) == AsU16(UDP_HEADER_LEN + |d.payload|) && Be16At(udp, 6) == field
            && udp[8..] == d.payload
  {
  }

  lemma ParseReads(buf: bytes, d: UdpDatagram, segment: bytes)
    requires |segment| == UDP_HEADER_LEN + |d.payload| && |d.payload| <= MAX_PAYLOAD
    requires |buf| >= 20 + |segment| && buf[20..20 + |segment|] == segment
    requires buf[0] == 0x45 && buf[6] == 0 && buf[7] == 0 && buf[9] == PROTO_UDP
    requires Be16At(buf, 2) == 20 + |segment|
    requires buf[12..16] == d.srcIp && buf[16..20] == d.dstIp
    requires Be16At(segment, 0) == d.srcPort && Be16At(segment, 2) == d.dstPort
    requires Be16At(segment, 4) == |segment| && segment[8..] == d.payload
    ensures ParseUdp(buf) == Ok(d)
  {
    assert segment[8..|segment|] == segment[8..];
  }

  lemma RoundTripFits(d: UdpDatagram, ipId: u16, headerField: u16, segmentField: u16, padding: bytes)
    requires |d.payload| <= MAX_PAYLOAD
    ensures ParseUdp(IpHeader(d, ipId, headerField) + Segment(d, segmentField) + padding) == Ok(d)
  {
    var header, segment := IpHeader(d, ipId, headerField), Segment(d, segmentField);
    HeaderReads(d, ipId, headerField, segment + padding);
    SegmentReads(d, segmentField);
    Assoc(header, segment, padding);
    MiddleSlice(header, segment, padding);
    ParseReads(header + (segment + padding), d, segment);
  }

  lemma MiddleSlice(a: bytes, b: bytes, c: bytes)
    ensures (a + (b + c))[|a|..|a| + |b|] == b
  {
  }

  lemma ParsedPayloadBound(buf: bytes)
    ensures var r := ParseUdp(buf); r.Ok? ==> |r.value.payload| <= MAX_PAYLOAD
  {
  }

  /**
   * A built packet parses back to its datagram, whatever padding follows it,
   * exactly when the payload fits the 16-bit length fields.
   */
  lemma UdpRoundTrip(d: UdpDatagram, ipId: u16, padding: bytes)
    ensures ParseUdp(UdpPacket(d, ipId) + padding) == Ok(d) <==> |d.payload| <= MAX_PAYLOAD
  {
    ParsedPayloadBound(UdpPacket(d, ipId) + padding);
    if |d.payload| <= MAX_PAYLOAD {
      RoundTripFits(d, ipId, HeaderField(d, ipId), SegmentField(d), padding);
    }
  }

  // --------------------------------------------------------------- checksums

  lemma {:induction false} WordSumPatch(a: bytes, field: u16, b: bytes)
    requires |a| % 2 == 0
    ensures WordSum(a + Be16(field) + b) == WordSum(a + Be16(0) + b) + field
  {
    forall v: u16
      ensures WordSum(a + Be16(v) + b) == WordSum(a) + v + WordSum(b)
    {
      WordSumConcat(a + Be16(v), b);
      WordSumConcat(a, Be16(v));
      assert Be16(v)[2..] == [];
    }
  }

  lemma OnePart(part: bytes)
    ensures Seamless([part], false) && Flatten([part]) == part
  {
    assert [part][1..] == [];
  }

  lemma TwoParts(first: bytes, second: bytes)
    requires second != []
    ensures Seamless([first, second], false) && Flatten([first, second]) == first + second
  {
    assert [first, second][1..] == [second];
    OnePart(second);
  }

  /**
   * How a receiver reads a packet: the fields of section 3.1 of RFC 791 and of
   * RFC 768 lie where these put them, and both checksums, computed from the
   * packet's own bytes, come out as zero.
   */
  ghost predicate ReceiverReads(p: bytes, d: UdpDatagram, ipId: u16) {
    && |p| == 28 + |d.payload|
    && p[0] == 0x45 && p[1] == 0 && Be16At(p, 2) == |p| && Be16At(p, 4) == ipId && Be16At(p, 6) == 0
    && p[8] == 64 && p[9] == 17 && p[12..16] == d.srcIp && p[16..20] == d.dstIp
    && Be16At(p, 20) == d.srcPort && Be16At(p, 22) == d.dstPort && Be16At(p, 24) == |p| - 20
    && p[28..] == d.payload
    && FlatChecksum(p[..20]) == 0
    && FlatChecksum(p[12..20] + [0, p[9]] + p[24..26] + p[20..]) == 0
  }

  /**
   * Every built packet reads as its datagram with checksums that verify, and the
   * UDP field never reads "no checksum". The sums stay inside the 32-bit
   * accumulator.
   */
  lemma ChecksumsVerify(d: UdpDatagram, ipId: u16)
    requires |d.payload| <= 65507
    ensures var p := UdpPacket(d, ipId);
            && ReceiverReads(p, d, ipId)
            && Be16At(p, 26) != 0
            && SplitSum([p[12..20] + [0, p[9]] + p[24..26], p[20..]]) < 0x1_0000_0000
  {
    var p := UdpPacket(d, ipId);
    HeaderVerifies(d, ipId);
    SegmentVerifies(d);
    PacketReads(d, ipId, HeaderField(d, ipId), SegmentField(d));
    assert p[..20] == IpHeader(d, ipId, HeaderField(d, ipId));
    assert p[20..] == Segment(d, SegmentField(d));
    PseudoReads(d, ipId, HeaderField(d, ipId), SegmentField(d));
  }

  lemma PacketReads(d: UdpDatagram, ipId: u16, headerField: u16, segmentField: u16)
    requires |d.payload| <= MAX_PAYLOAD
    ensures var p := IpHeader(d, ipId, headerField) + Segment(d, segmentField);
            && p[0] == 0x45 && p[1] == 0 && Be16At(p, 2) == |p| && Be16At(p, 4) == ipId && Be16At(p, 6) == 0
            && p[8] == 64 && p[9] == 17 && p[12..16] == d.srcIp && p[16..20] == d.dstIp
            && Be16At(p, 20) == d.srcPort && Be16At(p, 22) == d.dstPort && Be16At(p, 24) == |p| - 20
            && Be16At(p, 26) == segmentField && p[28..] == d.payload
  {
    var h, s := IpHeader(d, ipId, headerField), Segment(d, segmentField);
    HeaderReads(d, ipId, headerField, s);
    SegmentReads(d, segmentField);
    Behind(h, s, 0);
    Behind(h, s, 2);
    Behind(h, s, 4);
    Behind(h, s, 6);
    assert (h + s)[28..] == s[8..];
  }

  lemma Behind(h: bytes, s: bytes, k: nat)
    requires k + 2 <= |s|
    ensures Be16At(h + s, |h| + k) == Be16At(s, k)
  {
  }

  /** The pseudo-header of RFC 768 can be read off the packet. */
  lemma PseudoReads(d: UdpDatagram, ipId: u16, headerField: u16, segmentField: u16)
    ensures var p := IpHeader(d, ipId, headerField) + Segment(d, segmentField);
            p[12..20] + [0, p[9]] + p[24..26] == Pseudo(d)
  {
    var h, s := IpHeader(d, ipId, headerField), Segment(d, segmentField);
    var p := h + s;
    assert p[12..20] == d.srcIp + d.dstIp;
    assert p[9] == 17;
    assert p[24..26] == s[4..6] == Be16(AsU16(UDP_HEADER_LEN + |d.payload|));
  }

  // ------------------------------------------------------------- any packet

  /** The IPv4 header length and the lengths that a packet declares are consistent. */
  predicate LengthsFit(buf: bytes)
    requires |buf| >= 20
  {
    var header, total := 4 * (buf[0] as int % 16), Be16At(buf, 2);
    && 20 <= header && header + 8 <= total <= |buf|
    && 8 <= Be16At(buf, header + 4) <= total - header
  }

  /**
   * Which packets are taken: IPv4 with any options, carrying UDP, whose lengths
   * fit, and which is no fragment: of the flags and the fragment offset only the
   * two upper bits may be set. What is taken is what the fields say.
   */
  lemma ParseExactly(buf: bytes)
    ensures ParseUdp(buf).Ok? <==>
            |buf| >= 20 && buf[0] / 16 == 4 && buf[9] == 17 && Be16At(buf, 6) % 0x4000 == 0 && LengthsFit(buf)
    ensures ParseUdp(buf).Ok? ==>
            var h := 4 * (buf[0] as int % 16);
            ParseUdp(buf).value
            == UdpDatagram(buf[12..16], buf[16..20], Be16At(buf, h), Be16At(buf, h + 2),
                           buf[h + 8..h + Be16At(buf, h + 4)])
  {
    if |buf| >= 20 {
      FragmentBits(buf[6], buf[7]);
      var h, total := 4 * (buf[0] as int % 16), Be16At(buf, 2);
      if 20 <= h && h + 8 <= total <= |buf| {
        var udp := buf[h..total];
        assert Be16At(udp, 0) == Be16At(buf, h) && Be16At(udp, 2) == Be16At(buf, h + 2);
        assert Be16At(udp, 4) == Be16At(buf, h + 4);
        if 8 <= Be16At(udp, 4) <= |udp| {
          SliceOfSlice(buf, h, total, 8, Be16At(udp, 4));
        }
      }
    }
  }

  lemma SliceOfSlice(b: bytes, i: nat, j: nat, k: nat, m: nat)
    requires i <= j <= |b| && k <= m <= j - i
    ensures b[i..j][k..m] == b[i + k..i + m]
  {
    assert forall t :: 0 <= t < m - k ==> b[i..j][k..m][t] == b[i..j][k + t] == b[i + k + t];
  }

  lemma FragmentBits(high: byte, low: byte)
    ensures high / 32 % 2 == 0 && Be16At([high % 32, low], 0) == 0 <==> (0x100 * high as int + low as int) % 0x4000 == 0
  {
    var v := 0x100 * high as int + low as int;
    var q, r := high / 64, high % 64;
    var a, b := high / 32, high % 32;
    DivModUnique(high, 64, a / 2, 32 * (a % 2) + b);
    assert v == 0x4000 * q + (0x100 * r + low);
    DivModUnique(v, 0x4000, q, 0x100 * r + low);
  }

  /** A header with options, and anything in the fields that are not looked at. */
  function HeaderWith(
      tos: byte, total: u16, id: u16, dontFragment: bool, ttl: byte, field: u16, src: Ip, dst: Ip,
      options: bytes): bytes
    requires |options| <= 40 && |options| % 4 == 0
  {
    [0x45 + |options| / 4, tos] + Be16(total) + Be16(id) + [if dontFragment then 0x40 else 0, 0] + [ttl, 17]
    + Be16(field) + src + dst + options
  }

  /**
   * A datagram in any such packet is taken: whatever the options, the fields not
   * looked at, what the packet holds behind the datagram, and the padding.
   */
  lemma OptionsTolerated(
      d: UdpDatagram, tos: byte, id: u16, dontFragment: bool, ttl: byte, field: u16, options: bytes,
      segmentField: u16, behind: bytes, padding: bytes)
    requires |options| <= 40 && |options| % 4 == 0
    requires 28 + |options| + |d.payload| + |behind| < 0x1_0000
    ensures var total: u16 := 28 + |options| + |d.payload| + |behind|;
            ParseUdp(HeaderWith(tos, total, id, dontFragment, ttl, field, d.srcIp, d.dstIp, options)
                     + (Segment(d, segmentField) + (behind + padding)))
            == Ok(d)
  {
    var total: u16 := 28 + |options| + |d.payload| + |behind|;
    var h := HeaderWith(tos, total, id, dontFragment, ttl, field, d.srcIp, d.dstIp, options);
    var s := Segment(d, segmentField);
    var rest := s + (behind + padding);
    HeaderWithReads(tos, total, id, dontFragment, ttl, field, d.srcIp, d.dstIp, options, rest);
    SegmentBehind(h, d, segmentField, behind + padding);
    TakenBy(h + rest, |h|, total, d);
  }

  lemma SegmentBehind(h: bytes, d: UdpDatagram, segmentField: u16, more: bytes)
    requires |d.payload| < 0xFFF8
    ensures var buf, k := h + (Segment(d, segmentField) + more), |h|;
            && Be16At(buf, k) == d.srcPort && Be16At(buf, k + 2) == d.dstPort
            && Be16At(buf, k + 4) == 8 + |d.payload| && buf[k + 8..k + 8 + |d.payload|] == d.payload
  {
    var s := Segment(d, segmentField);
    SegmentReads(d, segmentField);
    FrontReads(s, more);
    Behind(h, s + more, 0);
    Behind(h, s + more, 2);
    Behind(h, s + more, 4);
    PayloadAt(h, s + more, 8, |d.payload|);
  }

  lemma FrontReads(s: bytes, more: bytes)
    requires |s| >= 8
    ensures forall k :: 0 <= k <= 4 ==> Be16At(s + more, k) == Be16At(s, k)
    ensures (s + more)[8..|s|] == s[8..]
  {
  }

  /** From the fields to the datagram. */
  lemma TakenBy(buf: bytes, h: nat, total: u16, d: UdpDatagram)
    requires 20 <= h && h + 8 + |d.payload| <= total <= |buf|
    requires buf[0] / 16 == 4 && 4 * (buf[0] as int % 16) == h && Be16At(buf, 2) == total
    requires Be16At(buf, 6) % 0x4000 == 0 && buf[9] == 17 && buf[12..16] == d.srcIp && buf[16..20] == d.dstIp
    requires Be16At(buf, h) == d.srcPort && Be16At(buf, h + 2) == d.dstPort
    requires Be16At(buf, h + 4) == 8 + |d.payload| && buf[h + 8..h + 8 + |d.payload|] == d.payload
    ensures ParseUdp(buf) == Ok(d)
  {
    ParseExactly(buf);
  }

  lemma PayloadAt(h: bytes, rest: bytes, k: nat, n: nat)
    requires k + n <= |rest|
    ensures (h + rest)[|h| + k..|h| + k + n] == rest[k..k + n]
  {
  }

  lemma HeaderWithReads(
      tos: byte, total: u16, id: u16, dontFragment: bool, ttl: byte, field: u16, src: Ip, dst: Ip, options: bytes,
      rest: bytes)
    requires |options| <= 40 && |options| % 4 == 0
    ensures var h := HeaderWith(tos, total, id, dontFragment, ttl, field, src, dst, options);
            var buf := h + rest;
            && |h| == 20 + |options| && buf[0] / 16 == 4 && 4 * (buf[0] as int % 16) == |h|
            && Be16At(buf, 2) == total && Be16At(buf, 6) % 0x4000 == 0 && buf[9] == 17
            && buf[12..16] == src && buf[16..20] == dst
  {
    var words := |options| / 4;
    DivModUnique(0x45 + words, 16, 4, 5 + words);
  }

  /** A zero field replaced by its own checksum, or by all ones standing in for zero. */
  lemma {:induction false} PatchVerifies(front: bytes, field: u16, rest: bytes)
    requires |front| % 2 == 0
    requires var c := FlatChecksum(front + Be16(0) + rest); field == c || (field == 0xFFFF && c == 0)
    ensures FlatChecksum(front + Be16(field) + rest) == 0
  {
    WordSumPatch(front, field, rest);
    FoldCancels(WordSum(front + Be16(0) + rest), field);
  }

  /** Where the field lies in a header. */
  lemma HeaderSplits(d: UdpDatagram, ipId: u16, field: u16)
    ensures IpHeader(d, ipId, field) == IpHeader(d, ipId, 0)[..10] + Be16(field) + (d.srcIp + d.dstIp)
  {
  }

  lemma HeaderVerifies(d: UdpDatagram, ipId: u16)
    ensures var h := IpHeader(d, ipId, HeaderField(d, ipId));
            FlatChecksum(h) == 0 == PartsChecksum([h])
  {
    var blank, field := IpHeader(d, ipId, 0), HeaderField(d, ipId);
    var h := IpHeader(d, ipId, field);
    OnePart(blank);
    NoOverflow([blank]);
    HeaderSplits(d, ipId, 0);
    HeaderSplits(d, ipId, field);
    PatchVerifies(blank[..10], field, d.srcIp + d.dstIp);
    OnePart(h);
    NoOverflow([h]);
  }

  lemma SegmentVerifies(d: UdpDatagram)
    requires |d.payload| <= MAX_PAYLOAD
    ensures var s := Segment(d, SegmentField(d));
            && FlatChecksum(Pseudo(d) + s) == 0 == PartsChecksum([Pseudo(d), s])
            && Be16At(s, 6) == SegmentField(d)
            && SplitSum([Pseudo(d), s]) < 0x1_0000_0000
  {
    var blank, field := Segment(d, 0), SegmentField(d);
    var s := Segment(d, field);
    TwoParts(Pseudo(d), blank);
    NoOverflow([Pseudo(d), blank]);
    SegmentSplits(d, 0);
    SegmentSplits(d, field);
    PatchVerifies(Pseudo(d) + blank[..6], field, d.payload);
    SegmentReads(d, field);
    TwoParts(Pseudo(d), s);
    NoOverflow([Pseudo(d), s]);
  }

  /** Where the field lies behind the pseudo-header. */
  lemma SegmentSplits(d: UdpDatagram, field: u16)
    ensures Pseudo(d) + Segment(d, field) == Pseudo(d) + Segment(d, 0)[..6] + Be16(field) + d.payload
  {
    assert Segment(d, field) == Segment(d, 0)[..6] + Be16(field) + d.payload;
  }
}
