/** Errors of the packet parsers (`src/netstack/error.rs`). */
module NetError {
  datatype Error = Truncated | Malformed(what: string)
}

/** Ethernet framing (`src/netstack/ethernet.rs`). */
module Ethernet {
  import opened Bytes
  import opened NetError

  type Mac = b: bytes | |b| == 6 witness [0, 0, 0, 0, 0, 0]
  type Ip = b: bytes | |b| == 4 witness [0, 0, 0, 0]

  const BROADCAST_MAC: Mac := [0xFF, 0xFF, 0xFF, 0xFF, 0xFF, 0xFF]
  const ZERO_MAC: Mac := [0, 0, 0, 0, 0, 0]
  const UNSPECIFIED: Ip := [0, 0, 0, 0]
  const BROADCAST_IP: Ip := [0xFF, 0xFF, 0xFF, 0xFF]

  const HEADER_LEN: nat := 14
  const MIN_FRAME_LEN: nat := 60
  const ETHERTYPE_IPV4: u16 := 0x0800
  const ETHERTYPE_ARP: u16 := 0x0806

  /** The 802.3 group bit, which broadcast has too. */
  predicate IsMulticast(mac: Mac) {
    mac[0] % 2 != 0
  }

  datatype EthFrame = EthFrame(dst: Mac, src: Mac, ethertype: u16, payload: bytes)

  function Parse(buf: bytes): Result<EthFrame, Error> {
    if |buf| < HEADER_LEN then Err(Truncated)
    else Ok(EthFrame(buf[0..6], buf[6..12], Be16At(buf, 12), buf[HEADER_LEN..]))
  }

  /** Header, payload, and zeros up to the shortest frame allowed. */
  function Build(dst: Mac, src: Mac, ethertype: u16, payload: bytes): (f: bytes)
    ensures |f| == Max(HEADER_LEN + |payload|, MIN_FRAME_LEN)
  {
    var f := dst + src + Be16(ethertype) + payload;
    f + Zeros(Max(|f|, MIN_FRAME_LEN) - |f|)
  }

  /**
   * The order on the wire: destination, source and type, then the payload, filled
   * up with zeros to 60 bytes. Parsing gives these back, the payload with its padding.
   */
  lemma ParseBuild(dst: Mac, src: Mac, ethertype: u16, payload: bytes)
    ensures var pad := Zeros(if |payload| < 46 then 46 - |payload| else 0);
            && Build(dst, src, ethertype, payload)
               == dst + src + [ethertype / 0x100, ethertype % 0x100] + (payload + pad)
            && Parse(Build(dst, src, ethertype, payload)) == Ok(EthFrame(dst, src, ethertype, payload + pad))
  {
    var f := Build(dst, src, ethertype, payload);
    var pad := Zeros(if |payload| < 46 then 46 - |payload| else 0);
    Assoc(dst + src + Be16(ethertype), payload, pad);
    assert f[0..6] == dst;
    assert f[6..12] == src;
    assert f[12..14] == Be16(ethertype);
    assert f[HEADER_LEN..] == payload + pad;
  }

  /** A frame is taken exactly if it has a whole header, and is read in that order. */
  lemma ParseFrame(buf: bytes)
    ensures Parse(buf).Ok? <==> |buf| >= 14
    ensures |buf| >= 14 ==>
              Parse(buf).value == EthFrame(buf[..6], buf[6..12], 0x100 * buf[12] as int + buf[13], buf[14..])
  {
  }
}
