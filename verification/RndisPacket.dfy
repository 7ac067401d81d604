/** PACKET_MSG framing of Ethernet frames in bulk transfers (`src/rndis/packet.rs`). */
module RndisPacket {
  import opened Bytes
  import opened RndisWire

  // ----------------------------------------------------------------- writing

  /** The least multiple of `a` that is at least `n`, by counting up. */
  function RoundUp(n: nat, a: nat): (r: nat)
    requires a > 0
    ensures n <= r < n + a
  {
    if n == 0 then 0 else if n <= a then a else a + RoundUp(n - a, a)
  }

  /** The remainder form in which the source's library computes it. */
  lemma {:induction false} RoundUpByRemainder(n: nat, a: nat)
    requires a > 0
    ensures RoundUp(n, a) == if n % a == 0 then n else n + (a - n % a)
  {
    if n < a {
      DivModUnique(n, a, 0, n);
    } else if n == a {
      DivModUnique(n, a, 1, 0);
    } else {
      RoundUpByRemainder(n - a, a);
      ModMinus(n, a);
    }
  }

  /** The boundary that messages are padded to; a zero alignment counts as one. */
  function Boundary(alignment: nat): (a: nat)
    ensures a > 0
  {
    Max(alignment, 1)
  }

  function MsgLen(frameLen: nat, alignment: nat): (n: nat)
    ensures DATA_HEADER_LEN + frameLen <= n < DATA_HEADER_LEN + frameLen + Boundary(alignment)
  {
    RoundUp(DATA_HEADER_LEN + frameLen, Boundary(alignment))
  }

  /** The eleven header words; both lengths are narrowed to 32 bits. */
  function HeaderWords(frameLen: nat, alignment: nat): (ws: seq<u32>)
    ensures |ws| == 11
  {
    [MSG_PACKET, AsU32(MsgLen(frameLen, alignment)), DATA_HEADER_LEN - OFFSET_BASE, AsU32(frameLen),
     0, 0, 0, 0, 0, 0, 0]
  }

  function Message(frame: bytes, alignment: nat): (m: bytes)
    ensures |m| == MsgLen(|frame|, alignment)
  {
    LeWords(HeaderWords(|frame|, alignment)) + frame
    + Zeros(MsgLen(|frame|, alignment) - DATA_HEADER_LEN - |frame|)
  }

  /** Back-to-back messages, one per frame. */
  function Messages(frames: seq<bytes>, alignment: nat): bytes {
    if frames == [] then [] else Message(frames[0], alignment) + Messages(frames[1..], alignment)
  }

  method NextMultiple(n: nat, a: nat) returns (r: nat)
    requires a > 0
    ensures r == RoundUp(n, a)
  {
    RoundUpByRemainder(n, a);
    r := if n % a == 0 then n else n + (a - n % a);
  }

  method Append(out: bytes, frame: bytes, alignment: nat) returns (grown: bytes)
    ensures grown == out + Message(frame, alignment)
  {
    var body := DATA_HEADER_LEN + |frame|;
    var msgLen := NextMultiple(body, Max(alignment, 1));
    var fields: seq<u32> :=
      [MSG_PACKET, AsU32(msgLen), DATA_HEADER_LEN - OFFSET_BASE, AsU32(|frame|), 0, 0, 0, 0, 0, 0, 0];
    assert fields == HeaderWords(|frame|, alignment);
    grown := PutWords(out, fields);
    ghost var header, pad := LeWords(fields), Zeros(msgLen - body);
    grown := grown + frame;
    grown := grown + Zeros(msgLen - body);
    Assoc(out, header, frame);
    Assoc(out, header + frame, pad);
  }

  method PutWords(out: bytes, fields: seq<u32>) returns (grown: bytes)
    ensures grown == out + LeWords(fields)
  {
    grown := out;
    for i := 0 to |fields|
      invariant grown == out + LeWords(fields[..i])
    {
      LeWordsNext(fields, i);
      Assoc(out, LeWords(fields[..i]), Le32(fields[i]));
      grown := grown + Le32(fields[i]);
    }
    assert fields[..|fields|] == fields;
  }

  // ----------------------------------------------------------------- reading

  /** What the frame iterator yields. */
  datatype Item = Frame(frame: bytes) | Bad(error: Error)

  /** Where the frame lies in the front message, and how far to advance. */
  datatype Cut = Cut(start: nat, end: nat, next: nat)

  /**
   * The bounds checks on the message at the front of `buf`. The source's checked
   * additions cannot overflow a 64-bit `usize`, since both operands were read
   * as 32-bit words.
   */
  function NextFrame(buf: bytes): (r: Result<Cut, Error>)
    ensures r.Ok? ==> r.value.start <= r.value.end <= r.value.next <= |buf|
    ensures r.Ok? ==> DATA_HEADER_LEN <= r.value.next
  {
    var kind :- U32At(buf, 0);
    if kind != MSG_PACKET then Err(UnexpectedMessage(kind)) else
    var msgLen :- U32At(buf, 4);
    var dataOffset :- U32At(buf, 8);
    var dataLen :- U32At(buf, 12);
    if msgLen < DATA_HEADER_LEN || msgLen > |buf| then
      Err(Malformed("packet length outside transfer"))
    else
      var end := OFFSET_BASE + dataOffset + dataLen;
      if end > msgLen then
        Err(Malformed("packet data outside message"))
      else
        Ok(Cut(OFFSET_BASE + dataOffset, end, msgLen))
  }

  /** Everything the iterator yields for one transfer. */
  function Decode(buf: bytes): seq<Item>
    decreases |buf|
  {
    if |buf| < DATA_HEADER_LEN then [] else
    match NextFrame(buf)
    case Err(e) => [Bad(e)]
    case Ok(cut) => [Frame(buf[cut.start..cut.end])] + Decode(buf[cut.next..])
  }

  class Frames {
    var buf: bytes

    constructor (transfer: bytes)
      ensures buf == transfer
    {
      buf := transfer;
    }

    /** One call yields the head of `Decode` and leaves exactly its tail. */
    method Next() returns (item: Option<Item>)
      modifies this
      ensures item.None? ==> Decode(old(buf)) == [] && buf == []
      ensures item.Some? ==> Decode(old(buf)) == [item.value] + Decode(buf)
      ensures item.Some? ==> |buf| < |old(buf)|
    {
      if |buf| < DATA_HEADER_LEN {
        buf := [];
        return None;
      }
      match NextFrame(buf)
      case Err(e) =>
        buf := [];
        item := Some(Bad(e));
      case Ok(cut) =>
        item := Some(Frame(buf[cut.start..cut.end]));
        buf := buf[cut.next..];
    }
  }

  /** A frame list as a clean run of iterator items. */
  function Oks(frames: seq<bytes>): (items: seq<Item>)
    ensures |items| == |frames|
    ensures forall i :: 0 <= i < |frames| ==> items[i] == Frame(frames[i])
  {
    seq(|frames|, i requires 0 <= i < |frames| => Frame(frames[i]))
  }

  // -------------------------------------------------------- framing, inverted

  /** The 32-bit length word can hold the message's length. */
  predicate Encodable(frame: bytes, alignment: nat) {
    MsgLen(|frame|, alignment) < 0x1_0000_0000
  }

  predicate AllEncodable(frames: seq<bytes>, alignment: nat) {
    forall f :: f in frames ==> Encodable(f, alignment)
  }

  lemma HeaderReads(frame: bytes, alignment: nat, rest: bytes)
    ensures var buf := Message(frame, alignment) + rest;
            && U32At(buf, 0) == Ok(MSG_PACKET)
            && U32At(buf, 4) == Ok(AsU32(MsgLen(|frame|, alignment)))
            && U32At(buf, 8) == Ok(36)
            && U32At(buf, 12) == Ok(AsU32(|frame|))
  {
    var ws := HeaderWords(|frame|, alignment);
    var tail := frame + Zeros(MsgLen(|frame|, alignment) - DATA_HEADER_LEN - |frame|) + rest;
    assert Message(frame, alignment) + rest == LeWords(ws) + tail;
    WordAt(ws, tail, 0);
    WordAt(ws, tail, 1);
    WordAt(ws, tail, 2);
    WordAt(ws, tail, 3);
  }

  /** The four words that the decoder looks at. */
  predicate Header(buf: bytes, kind: u32, msgLen: u32, offset: u32, dataLen: u32) {
    && |buf| >= 44 && kind == Le32At(buf, 0) && msgLen == Le32At(buf, 4)
    && offset == Le32At(buf, 8) && dataLen == Le32At(buf, 12)
  }

  lemma NextByHeader(buf: bytes, kind: u32, msgLen: u32, offset: u32, dataLen: u32)
    requires Header(buf, kind, msgLen, offset, dataLen)
    ensures NextFrame(buf)
         == if kind != 1 then Err(UnexpectedMessage(kind))
            else if msgLen < 44 || |buf| < msgLen then Err(Malformed("packet length outside transfer"))
            else if 8 + offset + dataLen > msgLen then Err(Malformed("packet data outside message"))
            else Ok(Cut(8 + offset, 8 + offset + dataLen, msgLen))
  {
  }

  /**
   * Every step of the decoder, by the four words at the front: bytes 0, 4, 8 and
   * 12 hold the type, the message length, the data offset counted from byte 8,
   * and the data length. It says which headers are refused, and why.
   */
  lemma {:induction false} DecodeByHeader(buf: bytes, kind: u32, msgLen: u32, offset: u32, dataLen: u32)
    requires Header(buf, kind, msgLen, offset, dataLen)
    ensures kind != 1 ==> Decode(buf) == [Bad(UnexpectedMessage(kind))]
    ensures kind == 1 && (msgLen < 44 || |buf| < msgLen) ==>
              Decode(buf) == [Bad(Malformed("packet length outside transfer"))]
    ensures kind == 1 && 44 <= msgLen <= |buf| && msgLen < 8 + offset + dataLen ==>
              Decode(buf) == [Bad(Malformed("packet data outside message"))]
    ensures kind == 1 && 44 <= msgLen <= |buf| && 8 + offset + dataLen <= msgLen ==>
              Decode(buf) == [Frame(buf[8 + offset..8 + offset + dataLen])] + Decode(buf[msgLen..])
  {
    NextByHeader(buf, kind, msgLen, offset, dataLen);
    DecodeByCut(buf, NextFrame(buf));
  }

  lemma {:induction false} DecodeByCut(buf: bytes, r: Result<Cut, Error>)
    requires |buf| >= 44 && r == NextFrame(buf)
    ensures r.Err? ==> Decode(buf) == [Bad(r.error)]
    ensures r.Ok? ==> Decode(buf) == [Frame(buf[r.value.start..r.value.end])] + Decode(buf[r.value.next..])
  {
  }

  /**
   * A packet message of section 2.2.14 of [MS-RNDIS], as any device may send it:
   * seven words we do not look at, per-packet information in front of the frame,
   * and padding behind it.
   */
  function WireMessage(others: seq<u32>, info: bytes, frame: bytes, pad: bytes): bytes
    requires |others| == 7
    requires 44 + |info| + |frame| + |pad| < 0x1_0000_0000
  {
    LeWords([1, 44 + |info| + |frame| + |pad|, 36 + |info|, |frame|] + others) + (info + frame + pad)
  }

  /** Every such message yields its frame, whatever else it holds and whatever follows. */
  lemma {:induction false} DecodeWire(others: seq<u32>, info: bytes, frame: bytes, pad: bytes, rest: bytes)
    requires |others| == 7
    requires 44 + |info| + |frame| + |pad| < 0x1_0000_0000
    ensures Decode(WireMessage(others, info, frame, pad) + rest) == [Frame(frame)] + Decode(rest)
  {
    var n := 44 + |info| + |frame| + |pad|;
    var ws := [1, n, 36 + |info|, |frame|] + others;
    var body := info + frame + pad;
    var buf := LeWords(ws) + body + rest;
    Assoc(LeWords(ws), body, rest);
    WireHeader(ws, body + rest);
    WireParts(LeWords(ws), info, frame, pad, rest);
    NextByHeader(buf, 1, n, 36 + |info|, |frame|);
    DecodeCut(buf, Cut(44 + |info|, 44 + |info| + |frame|, n), frame, rest);
  }

  lemma {:induction false} WireHeader(ws: seq<u32>, rest: bytes)
    requires |ws| == 11
    ensures Header(LeWords(ws) + rest, ws[0], ws[1], ws[2], ws[3])
  {
    WordAt(ws, rest, 0);
    WordAt(ws, rest, 1);
    WordAt(ws, rest, 2);
    WordAt(ws, rest, 3);
  }

  lemma WireParts(header: bytes, info: bytes, frame: bytes, pad: bytes, rest: bytes)
    requires |header| == 44
    ensures var buf := header + (info + frame + pad) + rest;
            var start := 44 + |info|;
            buf[start..start + |frame|] == frame && buf[start + |frame| + |pad|..] == rest
  {
    var buf := header + (info + frame + pad) + rest;
    assert buf == header + info + frame + (pad + rest);
  }

  /** One step of the decoder, given where it cuts. */
  lemma {:induction false} DecodeCut(buf: bytes, cut: Cut, frame: bytes, rest: bytes)
    requires |buf| >= DATA_HEADER_LEN && NextFrame(buf) == Ok(cut)
    requires buf[cut.start..cut.end] == frame && buf[cut.next..] == rest
    ensures Decode(buf) == [Frame(frame)] + Decode(rest)
  {
  }

  /** What we send is the plainest of these: no further words, no information, zero padding. */
  lemma MessageIsWire(frame: bytes, alignment: nat)
    requires Encodable(frame, alignment)
    ensures var pad := |Message(frame, alignment)| - 44 - |frame|;
            pad >= 0
            && Message(frame, alignment) == WireMessage([0, 0, 0, 0, 0, 0, 0], [], frame, Zeros(pad))
  {
    var pad := Zeros(MsgLen(|frame|, alignment) - DATA_HEADER_LEN - |frame|);
    var ws := HeaderWords(|frame|, alignment);
    assert ws == [1, 44 + 0 + |frame| + |pad|, 36 + 0, |frame|] + [0, 0, 0, 0, 0, 0, 0];
    assert [] + frame + pad == frame + pad;
    Assoc(LeWords(ws), frame, pad);
  }

  /** The front message yields its frame and leaves what follows it. */
  lemma {:induction false} MessageReads(frame: bytes, alignment: nat, rest: bytes)
    requires Encodable(frame, alignment)
    ensures Decode(Message(frame, alignment) + rest) == [Frame(frame)] + Decode(rest)
  {
    MessageIsWire(frame, alignment);
    DecodeWire([0, 0, 0, 0, 0, 0, 0], [], frame, Zeros(|Message(frame, alignment)| - 44 - |frame|), rest);
  }

  lemma OksCons(frame: bytes, frames: seq<bytes>)
    ensures Oks([frame] + frames) == [Frame(frame)] + Oks(frames)
  {
  }

  lemma {:induction false} DecodeMessages(frames: seq<bytes>, alignment: nat, trailer: bytes)
    requires AllEncodable(frames, alignment)
    requires |trailer| < DATA_HEADER_LEN
    ensures Decode(Messages(frames, alignment) + trailer) == Oks(frames)
  {
    if frames == [] {
      assert Messages(frames, alignment) + trailer == trailer;
    } else {
      var later := Messages(frames[1..], alignment);
      Assoc(Message(frames[0], alignment), later, trailer);
      MessageReads(frames[0], alignment, later + trailer);
      DecodeMessages(frames[1..], alignment, trailer);
      OksCons(frames[0], frames[1..]);
      assert frames == [frames[0]] + frames[1..];
    }
  }

  /** The items contain an error, or a frame that is not the one sent in its place. */
  ghost predicate Diverges(items: seq<Item>, frames: seq<bytes>) {
    || (exists i :: 0 <= i < |items| && items[i].Bad?)
    || (exists i :: 0 <= i < |items| && i < |frames| && items[i] != Frame(frames[i]))
  }

  lemma PaddingIsZero(frame: bytes, alignment: nat, rest: bytes, k: nat)
    requires DATA_HEADER_LEN + |frame| <= k && k + 4 <= MsgLen(|frame|, alignment)
    ensures U32At((Message(frame, alignment) + rest)[k..], 0) == Ok(0)
  {
    var word := (Message(frame, alignment) + rest)[k..][0..4];
    assert word == Zeros(4);
    LeValueOf4(word);
  }

  /** A length that wraps to a wrong frame, or leads into the padding. */
  lemma {:induction false} OverlongDiverges(frame: bytes, alignment: nat, rest: bytes, others: seq<bytes>)
    requires !Encodable(frame, alignment)
    ensures Diverges(Decode(Message(frame, alignment) + rest), [frame] + others)
  {
    var buf := Message(frame, alignment) + rest;
    var items := Decode(buf);
    match NextFrame(buf)
    case Err(e) =>
      assert items[0].Bad?;
    case Ok(cut) =>
      OverlongCut(frame, alignment, rest, cut);
      DecodeCut(buf, cut, buf[cut.start..cut.end], buf[cut.next..]);
      if |frame| >= 0x1_0000_0000 {
        assert items[0] != Frame(([frame] + others)[0]);
      } else {
        PaddingIsZero(frame, alignment, rest, cut.next);
        assert Decode(buf[cut.next..])[0].Bad?;
        assert items[1].Bad?;
      }
  }

  lemma OverlongCut(frame: bytes, alignment: nat, rest: bytes, cut: Cut)
    requires !Encodable(frame, alignment)
    requires NextFrame(Message(frame, alignment) + rest) == Ok(cut)
    ensures |frame| >= 0x1_0000_0000 ==> cut.end - cut.start < |frame|
    ensures |frame| < 0x1_0000_0000 ==>
              DATA_HEADER_LEN + |frame| <= cut.next && cut.next + DATA_HEADER_LEN <= MsgLen(|frame|, alignment)
  {
    HeaderReads(frame, alignment, rest);
  }

  lemma {:induction false} DecodeDiverges(frames: seq<bytes>, alignment: nat, trailer: bytes)
    requires !AllEncodable(frames, alignment)
    ensures Diverges(Decode(Messages(frames, alignment) + trailer), frames)
  {
    var rest := Messages(frames[1..], alignment) + trailer;
    Assoc(Message(frames[0], alignment), Messages(frames[1..], alignment), trailer);
    assert frames == [frames[0]] + frames[1..];
    if !Encodable(frames[0], alignment) {
      OverlongDiverges(frames[0], alignment, rest, frames[1..]);
    } else {
      MessageReads(frames[0], alignment, rest);
      DecodeDiverges(frames[1..], alignment, trailer);
      DivergesLater(Decode(rest), frames[1..], frames[0]);
    }
  }

  lemma DivergesLater(items: seq<Item>, frames: seq<bytes>, frame: bytes)
    requires Diverges(items, frames)
    ensures Diverges([Frame(frame)] + items, [frame] + frames)
  {
    var more, all := [Frame(frame)] + items, [frame] + frames;
    if i :| 0 <= i < |items| && items[i].Bad? {
      assert more[i + 1].Bad?;
    } else {
      var i :| 0 <= i < |items| && i < |frames| && items[i] != Frame(frames[i]);
      assert more[i + 1] != Frame(all[i + 1]);
    }
  }

  /**
   * Framing is undone by the decoder, for every frame list, alignment and short
   * trailer, exactly when every message length fits its 32-bit length word.
   */
  lemma {:induction false} FramingInverse(frames: seq<bytes>, alignment: nat, trailer: bytes)
    requires |trailer| < DATA_HEADER_LEN
    ensures Decode(Messages(frames, alignment) + trailer) == Oks(frames)
       <==> AllEncodable(frames, alignment)
  {
    if AllEncodable(frames, alignment) {
      DecodeMessages(frames, alignment, trailer);
    } else {
      DecodeDiverges(frames, alignment, trailer);
    }
  }

  // ------------------------------------------------------------- boundaries

  lemma {:induction false} RoundUpIsMultiple(n: nat, a: nat)
    requires a > 0
    ensures MultipleOf(RoundUp(n, a), a)
  {
    if n > a {
      RoundUpIsMultiple(n - a, a);
    }
  }

  lemma {:induction false} MessagesAreMultiple(frames: seq<bytes>, alignment: nat)
    ensures MultipleOf(|Messages(frames, alignment)|, Boundary(alignment))
  {
    if frames != [] {
      MessagesAreMultiple(frames[1..], alignment);
      RoundUpIsMultiple(DATA_HEADER_LEN + |frames[0]|, Boundary(alignment));
      MultipleSum(MsgLen(|frames[0]|, alignment), |Messages(frames[1..], alignment)|, Boundary(alignment));
    }
  }

  /**
   * Whatever messages precede it, the next one starts at a multiple of the
   * alignment, and none is longer than that takes.
   */
  lemma {:induction false} MessagesStartAligned(frames: seq<bytes>, frame: bytes, alignment: nat)
    ensures alignment > 0 ==> |Messages(frames, alignment)| % alignment == 0
    ensures 44 + |frame| <= |Message(frame, alignment)|
    ensures |Message(frame, alignment)| < 44 + |frame| + (if alignment == 0 then 1 else alignment)
  {
    MessagesAreMultiple(frames, alignment);
    MultipleOfIsMod(|Messages(frames, alignment)|, Boundary(alignment));
  }

  lemma {:induction false} MessagesAppend(frames: seq<bytes>, frame: bytes, alignment: nat)
    ensures Messages(frames + [frame], alignment) == Messages(frames, alignment) + Message(frame, alignment)
  {
    if frames == [] {
      assert frames + [frame] == [frame];
      assert [frame][1..] == [];
    } else {
      assert (frames + [frame])[1..] == frames[1..] + [frame];
      MessagesAppend(frames[1..], frame, alignment);
    }
  }

  // ------------------------------------------------- the decoder on any input

  /** Where the decoder cuts a transfer, when `base` bytes of it came before `buf`. */
  function Cuts(buf: bytes, base: nat): seq<Cut>
    decreases |buf|
  {
    if |buf| < DATA_HEADER_LEN || NextFrame(buf).Err? then [] else
    var cut := NextFrame(buf).value;
    [Cut(base + cut.start, base + cut.end, base + cut.next)] + Cuts(buf[cut.next..], base + cut.next)
  }

  /** Items read off one cut after another, possibly ending in an error. */
  ghost predicate Chain(buf: bytes, base: nat, cuts: seq<Cut>, items: seq<Item>)
    decreases |cuts|
  {
    if cuts == [] then
      items == [] || (|items| == 1 && items[0].Bad? && DATA_HEADER_LEN <= |buf|)
    else
      && base <= cuts[0].start <= cuts[0].end <= cuts[0].next <= base + |buf|
      && base + DATA_HEADER_LEN <= cuts[0].next
      && items != [] && items[0] == Frame(buf[cuts[0].start - base..cuts[0].end - base])
      && Chain(buf[cuts[0].next - base..], cuts[0].next, cuts[1..], items[1..])
  }

  lemma CutsStep(buf: bytes, base: nat, cut: Cut)
    requires |buf| >= DATA_HEADER_LEN && NextFrame(buf) == Ok(cut)
    ensures Cuts(buf, base)
         == [Cut(base + cut.start, base + cut.end, base + cut.next)] + Cuts(buf[cut.next..], base + cut.next)
  {
  }

  lemma ChainStep(buf: bytes, base: nat, cut: Cut, cuts: seq<Cut>, items: seq<Item>)
    requires cut.start <= cut.end <= cut.next <= |buf| && DATA_HEADER_LEN <= cut.next
    requires Chain(buf[cut.next..], base + cut.next, cuts, items)
    ensures Chain(buf, base, [Cut(base + cut.start, base + cut.end, base + cut.next)] + cuts,
                  [Frame(buf[cut.start..cut.end])] + items)
  {
    assert ([Cut(base + cut.start, base + cut.end, base + cut.next)] + cuts)[1..] == cuts;
    assert ([Frame(buf[cut.start..cut.end])] + items)[1..] == items;
  }

  lemma {:induction false} DecodeIsChain(buf: bytes, base: nat) returns (cuts: seq<Cut>, items: seq<Item>)
    ensures cuts == Cuts(buf, base) && items == Decode(buf) && Chain(buf, base, cuts, items)
    decreases |buf|
  {
    cuts, items := [], [];
    if |buf| >= DATA_HEADER_LEN {
      match NextFrame(buf)
      case Err(e) =>
        items := [Bad(e)];
      case Ok(cut) =>
        DecodeCut(buf, cut, buf[cut.start..cut.end], buf[cut.next..]);
        CutsStep(buf, base, cut);
        cuts, items := DecodeIsChain(buf[cut.next..], base + cut.next);
        ChainStep(buf, base, cut, cuts, items);
        cuts := [Cut(base + cut.start, base + cut.end, base + cut.next)] + cuts;
        items := [Frame(buf[cut.start..cut.end])] + items;
    }
  }

  /** Each cut holds the frame yielded in its place. */
  ghost predicate Holds(transfer: bytes, cuts: seq<Cut>, items: seq<Item>) {
    && |cuts| <= |items|
    && forall i :: 0 <= i < |cuts| ==>
         && cuts[i].start <= cuts[i].end <= |transfer|
         && items[i] == Frame(transfer[cuts[i].start..cuts[i].end])
  }

  /** The cut ranges neither overlap nor go backwards. */
  ghost predicate Increasing(cuts: seq<Cut>) {
    forall i, j :: 0 <= i < j < |cuts| ==> cuts[i].end <= cuts[j].start
  }

  lemma HoldsCons(transfer: bytes, cut: Cut, cuts: seq<Cut>, items: seq<Item>)
    requires Holds(transfer, cuts, items)
    requires cut.start <= cut.end <= |transfer|
    ensures Holds(transfer, [cut] + cuts, [Frame(transfer[cut.start..cut.end])] + items)
  {
  }

  ghost predicate StartFrom(cuts: seq<Cut>, base: nat) {
    forall i :: 0 <= i < |cuts| ==> base <= cuts[i].start
  }

  lemma IncreasingCons(cut: Cut, cuts: seq<Cut>, base: nat)
    requires Increasing(cuts) && StartFrom(cuts, cut.next) && cut.end <= cut.next && base <= cut.start <= cut.end
    ensures Increasing([cut] + cuts) && StartFrom([cut] + cuts, base)
  {
  }

  /** At most one item per header length, the last of them perhaps an error. */
  ghost predicate Counted(cuts: seq<Cut>, items: seq<Item>, room: nat) {
    && |cuts| <= |items| <= |cuts| + 1
    && (|items| > |cuts| ==> items[|cuts|].Bad?)
    && 44 * |items| <= room
  }

  lemma {:induction false} ChainIsOrdered(transfer: bytes, base: nat, cuts: seq<Cut>, items: seq<Item>)
    requires base <= |transfer| && Chain(transfer[base..], base, cuts, items)
    ensures Holds(transfer, cuts, items)
    ensures Increasing(cuts) && StartFrom(cuts, base)
    ensures Counted(cuts, items, |transfer| - base)
    decreases |cuts|
  {
    if cuts != [] {
      var cut, cuts', items' := cuts[0], cuts[1..], items[1..];
      SliceOfDrop(transfer, base, cut.start, cut.end);
      SliceOfDrop(transfer, base, cut.next, |transfer|);
      ChainIsOrdered(transfer, cut.next, cuts', items');
      var frame := Frame(transfer[cut.start..cut.end]);
      HoldsCons(transfer, cut, cuts', items');
      IncreasingCons(cut, cuts', base);
      CountedCons(cut, cuts', frame, items', |transfer| - cut.next);
      assert cuts == [cut] + cuts' && items == [frame] + items';
    }
  }

  lemma CountedCons(cut: Cut, cuts: seq<Cut>, frame: Item, items: seq<Item>, room: nat)
    requires Counted(cuts, items, room)
    ensures Counted([cut] + cuts, [frame] + items, room + DATA_HEADER_LEN)
    ensures forall more :: more >= room + DATA_HEADER_LEN ==> Counted([cut] + cuts, [frame] + items, more)
  {
  }

  /**
   * On arbitrary bytes the decoder yields at most one item per 44 bytes, all of
   * them frames except possibly the last, and the frames are slices of the
   * transfer that neither overlap nor go backwards.
   */
  lemma {:induction false} DecodeAnything(transfer: bytes)
    ensures var items, cuts := Decode(transfer), Cuts(transfer, 0);
            && 44 * |items| <= |transfer|
            && (forall i :: 0 <= i < |items| - 1 ==> items[i].Frame?)
            && |cuts| == (if items != [] && items[|items| - 1].Bad? then |items| - 1 else |items|)
            && Holds(transfer, cuts, items)
            && Increasing(cuts)
  {
    assert transfer[0..] == transfer;
    var cuts, items := DecodeIsChain(transfer, 0);
    ChainIsOrdered(transfer, 0, cuts, items);
  }
}
