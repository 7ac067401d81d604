/** RNDIS constants, message encoders and decoders (`src/rndis/wire.rs`). */
module RndisWire {
  import opened Bytes

  datatype Error =
    | Truncated
    | Malformed(what: string)
    | UnexpectedMessage(kind: u32)
    | Status(code: u32)
    | NoResponse
    | Transport(why: string)

  const MSG_PACKET: u32 := 0x0000_0001
  const MSG_INIT: u32 := 0x0000_0002
  const MSG_INIT_C: u32 := 0x8000_0002
  const MSG_QUERY: u32 := 0x0000_0004
  const MSG_QUERY_C: u32 := 0x8000_0004
  const MSG_SET: u32 := 0x0000_0005
  const MSG_SET_C: u32 := 0x8000_0005
  const MSG_INDICATE: u32 := 0x0000_0007
  const MSG_KEEPALIVE: u32 := 0x0000_0008
  const MSG_KEEPALIVE_C: u32 := 0x8000_0008

  const STATUS_SUCCESS: u32 := 0
  const STATUS_MEDIA_CONNECT: u32 := 0x4001_000B
  const STATUS_MEDIA_DISCONNECT: u32 := 0x4001_000C

  const OID_GEN_CURRENT_PACKET_FILTER: u32 := 0x0001_010E
  const OID_802_3_PERMANENT_ADDRESS: u32 := 0x0101_0101
  const OID_802_3_CURRENT_ADDRESS: u32 := 0x0101_0102
  const DEFAULT_PACKET_FILTER: u32 := 0x0000_002F

  /** Length of the PACKET_MSG header. */
  const DATA_HEADER_LEN: nat := 44
  /** Offsets inside messages count from the end of the length word. */
  const OFFSET_BASE: nat := 8

  function U32At(buf: bytes, offset: nat): Result<u32, Error> {
    if offset + 4 <= |buf| then Ok(Le32At(buf, offset)) else Err(Truncated)
  }

  /** A narrowing cast `n as u32`. */
  function AsU32(n: nat): u32 {
    n % 0x1_0000_0000
  }

  /** Word `i` of a header reads back, whatever follows the header. */
  lemma {:induction false} WordAt(ws: seq<u32>, rest: bytes, i: nat)
    requires i < |ws|
    ensures U32At(LeWords(ws) + rest, 4 * i) == Ok(ws[i])
  {
    LeWordsAt(ws, i);
    assert (LeWords(ws) + rest)[4 * i..4 * i + 4] == LeWords(ws)[4 * i..4 * i + 4];
  }

  // ---------------------------------------------------------------- encoders

  function EncodeInit(id: u32, maxTransferSize: u32): bytes {
    LeWords([MSG_INIT, 24, id, 1, 0, maxTransferSize])
  }

  function EncodeQuery(id: u32, oid: u32): bytes {
    LeWords([MSG_QUERY, 28, id, oid, 0, 0, 0])
  }

  function EncodeSet(id: u32, oid: u32, data: bytes): bytes {
    LeWords([MSG_SET, AsU32(28 + |data|), id, oid, AsU32(|data|), 28 - OFFSET_BASE, 0]) + data
  }

  function EncodeKeepaliveComplete(id: u32): bytes {
    LeWords([MSG_KEEPALIVE_C, 16, id, STATUS_SUCCESS])
  }

  // ---------------------------------------------------------------- decoders

  datatype InitComplete = InitComplete(
    requestId: u32,
    status: u32,
    majorVersion: u32,
    minorVersion: u32,
    medium: u32,
    maxPacketsPerTransfer: u32,
    maxTransferSize: u32,
    packetAlignment: u32)

  function PowerOfTwo(e: nat): nat {
    if e == 0 then 1 else 2 * PowerOfTwo(e - 1)
  }

  /** The alignment exponent is expanded, and ignored when it is 8 or more. */
  function ExpandAlignment(exponent: u32): (a: u32)
    ensures a in {1, 2, 4, 8, 16, 32, 64, 128}
  {
    if exponent < 8 then
      assert PowerOfTwo(exponent) in {1, 2, 4, 8, 16, 32, 64, 128} by {
        assert PowerOfTwo(0) == 1;
        assert PowerOfTwo(1) == 2;
        assert PowerOfTwo(2) == 4;
        assert PowerOfTwo(3) == 8;
        assert PowerOfTwo(4) == 16;
        assert PowerOfTwo(5) == 32;
        assert PowerOfTwo(6) == 64;
        assert PowerOfTwo(7) == 128;
      }
      PowerOfTwo(exponent)
    else
      1
  }

  lemma AlignmentTable(exponent: u32)
    ensures ExpandAlignment(exponent) == if exponent < 8 then [1, 2, 4, 8, 16, 32, 64, 128][exponent] else 1
  {
    assert PowerOfTwo(0) == 1;
    assert PowerOfTwo(1) == 2;
    assert PowerOfTwo(2) == 4;
    assert PowerOfTwo(3) == 8;
    assert PowerOfTwo(4) == 16;
    assert PowerOfTwo(5) == 32;
    assert PowerOfTwo(6) == 64;
    assert PowerOfTwo(7) == 128;
  }

  function DecodeInitComplete(buf: bytes): Result<InitComplete, Error> {
    var kind :- U32At(buf, 0);
    if kind != MSG_INIT_C then Err(UnexpectedMessage(kind)) else
    var exponent :- U32At(buf, 40);
    var id :- U32At(buf, 8);
    var status :- U32At(buf, 12);
    var major :- U32At(buf, 16);
    var minor :- U32At(buf, 20);
    var medium :- U32At(buf, 28);
    var packets :- U32At(buf, 32);
    var size :- U32At(buf, 36);
    Ok(InitComplete(id, status, major, minor, medium, packets, size, ExpandAlignment(exponent)))
  }

  /** Request id, status and information buffer of a query completion. */
  function DecodeQueryComplete(buf: bytes): Result<(u32, u32, bytes), Error> {
    var kind :- U32At(buf, 0);
    if kind != MSG_QUERY_C then Err(UnexpectedMessage(kind)) else
    var id :- U32At(buf, 8);
    var status :- U32At(buf, 12);
    var len :- U32At(buf, 16);
    var offset :- U32At(buf, 20);
    if status != STATUS_SUCCESS then Ok((id, status, [])) else
    var start := OFFSET_BASE + offset;
    if start + len <= |buf| then Ok((id, status, buf[start..start + len])) else Err(Truncated)
  }

  /** The two words that every completion has. */
  function DecodeCompletion(buf: bytes): Result<(u32, u32), Error> {
    var id :- U32At(buf, 8);
    var status :- U32At(buf, 12);
    Ok((id, status))
  }

  // ------------------------------------------------------------------- layout

  /** A device's INITIALIZE completion, in wire order, decodes field by field. */
  lemma {:induction false} InitCompleteReads(ws: seq<u32>, rest: bytes)
    requires |ws| >= 11 && ws[0] == MSG_INIT_C
    ensures DecodeInitComplete(LeWords(ws) + rest)
         == Ok(InitComplete(ws[2], ws[3], ws[4], ws[5], ws[7], ws[8], ws[9], ExpandAlignment(ws[10])))
  {
    WordAt(ws, rest, 0);
    WordAt(ws, rest, 2);
    WordAt(ws, rest, 3);
    WordAt(ws, rest, 4);
    WordAt(ws, rest, 5);
    WordAt(ws, rest, 7);
    WordAt(ws, rest, 8);
    WordAt(ws, rest, 9);
    WordAt(ws, rest, 10);
  }

  /** A successful QUERY completion yields exactly the bytes it points at. */
  lemma QueryCompleteReads(id: u32, len: u32, gap: bytes, info: bytes, rest: bytes)
    requires 16 + |gap| < 0x1_0000_0000 && |info| < 0x1_0000_0000
    ensures var head := LeWords([MSG_QUERY_C, len, id, STATUS_SUCCESS, |info|, 16 + |gap|]);
            DecodeQueryComplete(head + (gap + info + rest)) == Ok((id, STATUS_SUCCESS, info))
  {
    var ws: seq<u32> := [MSG_QUERY_C, len, id, STATUS_SUCCESS, |info|, 16 + |gap|];
    var tail := gap + info + rest;
    WordAt(ws, tail, 0);
    WordAt(ws, tail, 2);
    WordAt(ws, tail, 3);
    WordAt(ws, tail, 4);
    WordAt(ws, tail, 5);
    assert (LeWords(ws) + tail)[24 + |gap|..24 + |gap| + |info|] == info;
  }
}
