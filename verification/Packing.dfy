/**
 * How the transmit thread packs frames into transfers (`src/link.rs`), as a
 * function of what it heard on its channel: which frames share a transfer, and
 * that no other split of a burst needs fewer.
 */
module Packing {
  import opened Bytes
  import opened RndisWire
  import opened RndisPacket

  datatype TxLimits = TxLimits(maxTransferSize: nat, maxPackets: nat, alignment: nat)

  /** A frame the device can take in a transfer of its own. */
  predicate FitsAlone(frame: bytes, limits: TxLimits) {
    limits.maxPackets >= 1 && DATA_HEADER_LEN + |frame| <= limits.maxTransferSize
  }

  /** The size check for one more frame behind those of an open transfer. */
  predicate Admits(open: seq<bytes>, frame: bytes, limits: TxLimits) {
    && |open| < limits.maxPackets
    && |Messages(open, limits.alignment)| + DATA_HEADER_LEN + |frame| <= limits.maxTransferSize
  }

  // --------------------------------------------------------------- the packing

  /** The frames of the transfers closed so far, and of the open one. */
  datatype Bin = Bin(closed: seq<seq<bytes>>, open: seq<bytes>)

  function Shut(bin: Bin): Bin {
    if bin.open == [] then bin else Bin(bin.closed + [bin.open], [])
  }

  /** A frame that does not fit closes the transfer; one over the limit is dropped. */
  function Put(bin: Bin, frame: bytes, limits: TxLimits): Bin {
    if Admits(bin.open, frame, limits) then bin.(open := bin.open + [frame])
    else if FitsAlone(frame, limits) then Shut(bin).(open := [frame])
    else Shut(bin)
  }

  /** A new transfer begun with the frame, if it can take it. */
  function Started(bin: Bin, frame: bytes, limits: TxLimits): Bin {
    Shut(bin).(open := if FitsAlone(frame, limits) then [frame] else [])
  }

  lemma StartedIs(bin: Bin, frame: bytes, limits: TxLimits)
    ensures Shut(bin).open == []
    ensures FitsAlone(frame, limits) ==> Started(bin, frame, limits) == Bin(Shut(bin).closed, [frame])
    ensures !FitsAlone(frame, limits) ==> Started(bin, frame, limits) == Shut(bin)
  {
  }

  lemma PutCases(bin: Bin, frame: bytes, limits: TxLimits)
    ensures Put(bin, frame, limits)
         == if Admits(bin.open, frame, limits) then Bin(bin.closed, bin.open + [frame]) else Started(bin, frame, limits)
  {
  }

  /** What the channel says: a frame after a wait, one already there, or none there. */
  datatype Heard = Began(frame: bytes) | Next(frame: bytes) | Empty

  function Heed(bin: Bin, heard: Heard, limits: TxLimits): Bin {
    match heard
    case Began(frame) => Put(bin, frame, limits)
    case Next(frame) => Put(bin, frame, limits)
    case Empty => Shut(bin)
  }

  /** Everything heard, the latest last. */
  datatype Log = Nothing | Log(before: Log, heard: Heard)

  function BinAfter(log: Log, limits: TxLimits): Bin {
    match log
    case Nothing => Bin([], [])
    case Log(before, heard) => Heed(BinAfter(before, limits), heard, limits)
  }

  /** A burst ends when the channel is found empty or a frame is over the limit. */
  predicate Rests(heard: Heard, limits: TxLimits) {
    heard.Empty? || !FitsAlone(heard.frame, limits)
  }

  /** Nothing was heard yet, or a burst has just ended. */
  predicate AtRest(log: Log, limits: TxLimits) {
    log.Nothing? || Rests(log.heard, limits)
  }

  /** The thread waits for a frame only when the burst before it has ended. */
  predicate Drained(log: Log, limits: TxLimits) {
    log.Nothing? || (Drained(log.before, limits) && (log.heard.Began? ==> AtRest(log.before, limits)))
  }

  // -------------------------------------------------------- nothing is lost

  /** The frames that are not dropped for being over the device's limit. */
  function Accepted(frames: seq<bytes>, limits: TxLimits): seq<bytes> {
    if frames == [] then []
    else
      var n := |frames| - 1;
      Accepted(frames[..n], limits) + if FitsAlone(frames[n], limits) then [frames[n]] else []
  }

  lemma {:induction false} AcceptedPrefix(frames: seq<bytes>, more: seq<bytes>, limits: TxLimits)
    ensures Accepted(frames, limits) <= Accepted(frames + more, limits)
    decreases |more|
  {
    if more == [] {
      assert frames + more == frames;
    } else {
      var n := |more| - 1;
      AcceptedPrefix(frames, more[..n], limits);
      assert (frames + more)[..|frames| + n] == frames + more[..n];
    }
  }

  lemma {:induction false} AcceptedOne(frames: seq<bytes>, frame: bytes, limits: TxLimits)
    ensures Accepted(frames + [frame], limits)
         == Accepted(frames, limits) + if FitsAlone(frame, limits) then [frame] else []
  {
    assert (frames + [frame])[..|frames|] == frames;
  }

  function FramesOf(log: Log): seq<bytes> {
    match log
    case Nothing => []
    case Log(before, heard) => FramesOf(before) + if heard.Empty? then [] else [heard.frame]
  }

  function Contents(bin: Bin): seq<bytes> {
    Flatten(bin.closed) + bin.open
  }

  /** At most the open transfer was closed. */
  predicate Stays(bin: Bin, bin': Bin) {
    bin' == bin || bin' == Shut(bin)
  }

  lemma ShutKeeps(bin: Bin)
    ensures Contents(Shut(bin)) == Contents(bin) && Shut(bin).open == []
  {
    if bin.open != [] {
      FlattenAppend(bin.closed, bin.open);
      assert Contents(Shut(bin)) == Flatten(bin.closed + [bin.open]);
    }
  }

  lemma AdmitsAlone(open: seq<bytes>, frame: bytes, limits: TxLimits)
    requires Admits(open, frame, limits)
    ensures FitsAlone(frame, limits)
  {
  }

  lemma PutKeeps(bin: Bin, frame: bytes, limits: TxLimits)
    ensures Contents(Put(bin, frame, limits)) == Contents(bin) + if FitsAlone(frame, limits) then [frame] else []
  {
    if Admits(bin.open, frame, limits) {
      AdmitsAlone(bin.open, frame, limits);
      Assoc(Flatten(bin.closed), bin.open, [frame]);
    } else {
      ShutKeeps(bin);
      var shut := Shut(bin);
      assert Flatten(shut.closed) + [] == Flatten(shut.closed);
      assert Contents(bin) + [] == Contents(bin);
    }
  }

  /** The accepted frames among those heard. */
  function AcceptedOf(log: Log, limits: TxLimits): seq<bytes> {
    match log
    case Nothing => []
    case Log(before, heard) =>
      AcceptedOf(before, limits) + if Rests(heard, limits) then [] else [heard.frame]
  }

  lemma {:induction false} AcceptedOfFrames(log: Log, limits: TxLimits)
    ensures AcceptedOf(log, limits) == Accepted(FramesOf(log), limits)
  {
    if log.Log? {
      AcceptedOfFrames(log.before, limits);
      if log.heard.Empty? {
        assert FramesOf(log.before) + [] == FramesOf(log.before);
      } else {
        AcceptedOne(FramesOf(log.before), log.heard.frame, limits);
      }
    }
  }

  /** `frames` is what was accepted at this point of the log or at an earlier one. */
  predicate Behind(frames: seq<bytes>, log: Log, limits: TxLimits) {
    frames == AcceptedOf(log, limits) || (log.Log? && Behind(frames, log.before, limits))
  }

  lemma {:induction false} BehindNext(frames: seq<bytes>, log: Log, heard: Heard, limits: TxLimits)
    requires Behind(frames, log, limits)
    ensures Behind(frames, Log(log, heard), limits)
  {
  }

  lemma {:induction false} BehindIsPrefix(frames: seq<bytes>, log: Log, limits: TxLimits)
    requires Behind(frames, log, limits)
    ensures frames <= AcceptedOf(log, limits)
  {
    if frames != AcceptedOf(log, limits) {
      BehindIsPrefix(frames, log.before, limits);
    }
  }

  /** Every frame within the limit is packed once, in order, and no other. */
  lemma {:induction false} BinContents(log: Log, limits: TxLimits)
    ensures Contents(BinAfter(log, limits)) == AcceptedOf(log, limits)
  {
    if log.Log? {
      var bin := BinAfter(log.before, limits);
      BinContents(log.before, limits);
      if log.heard.Empty? {
        ShutKeeps(bin);
      } else {
        PutKeeps(bin, log.heard.frame, limits);
      }
    }
  }

  /** A frame put where the log has it. */
  lemma {:induction false} PutIsNext(bin: Bin, bin': Bin, log: Log, heard: Heard, limits: TxLimits)
    requires bin == BinAfter(log, limits) && !heard.Empty? && bin' == Put(bin, heard.frame, limits)
    ensures bin' == BinAfter(Log(log, heard), limits)
    ensures Behind(Contents(bin'), Log(log, heard), limits)
  {
    BinContents(Log(log, heard), limits);
  }

  /** A frame that was lost leaves the contents at what they were before it. */
  lemma {:induction false} StaysBehind(bin: Bin, bin': Bin, log: Log, heard: Heard, limits: TxLimits)
    requires bin == BinAfter(log, limits) && Stays(bin, bin')
    ensures Behind(Contents(bin'), Log(log, heard), limits)
  {
    ShutKeeps(bin);
    BinContents(log, limits);
    BehindNext(Contents(bin'), log, heard, limits);
  }

  // ------------------------------------------------------- fewest transfers

  lemma {:induction false} MessagesConcat(a: seq<bytes>, b: seq<bytes>, alignment: nat)
    ensures |Messages(a + b, alignment)| == |Messages(a, alignment)| + |Messages(b, alignment)|
    decreases |b|
  {
    if b == [] {
      assert a + b == a;
    } else {
      var front, last := b[..|b| - 1], b[|b| - 1];
      assert b == front + [last];
      Assoc(a, front, [last]);
      MessagesConcat(a, front, alignment);
      MessagesAppend(a + front, last, alignment);
      MessagesAppend(front, last, alignment);
    }
  }

  /** Frames that pass the size check one after another. */
  predicate Packable(part: seq<bytes>, limits: TxLimits) {
    part != [] && Admits(part[..|part| - 1], part[|part| - 1], limits)
  }

  ghost predicate AllPackable(parts: seq<seq<bytes>>, limits: TxLimits) {
    forall i :: 0 <= i < |parts| ==> Packable(parts[i], limits)
  }

  /** A way to send `frames` in order, each transfer passing the size check. */
  ghost predicate Splits(parts: seq<seq<bytes>>, frames: seq<bytes>, limits: TxLimits) {
    AllPackable(parts, limits) && Flatten(parts) == frames
  }

  /** Fewer frames before it leave at least as much room. */
  lemma AdmitsSuffix(pre: seq<bytes>, open: seq<bytes>, frame: bytes, limits: TxLimits)
    requires Admits(pre + open, frame, limits)
    ensures Admits(open, frame, limits)
  {
    MessagesConcat(pre, open, limits.alignment);
  }

  /** The check passed at the last frame was passed at every frame. */
  lemma PackableAt(part: seq<bytes>, k: nat, limits: TxLimits)
    requires Packable(part, limits) && k < |part|
    ensures Admits(part[..k], part[k], limits)
  {
    if k < |part| - 1 {
      MessagesBefore(part[..|part| - 1], k, limits.alignment);
      assert part[..|part| - 1][..k] == part[..k];
    }
  }

  lemma {:induction false} MessagesBefore(frames: seq<bytes>, k: nat, alignment: nat)
    requires k < |frames|
    ensures |Messages(frames[..k], alignment)| + MsgLen(|frames[k]|, alignment) <= |Messages(frames, alignment)|
  {
    var rest := frames[k..];
    assert frames == frames[..k] + rest;
    MessagesConcat(frames[..k], rest, alignment);
  }

  function One(open: seq<bytes>): nat {
    if open == [] then 0 else 1
  }

  /** How many transfers the open one and the frames to come will make. */
  function Count(open: seq<bytes>, frames: seq<bytes>, limits: TxLimits): nat
    decreases |frames|
  {
    if frames == [] then One(open)
    else if Admits(open, frames[0], limits) then Count(open + [frames[0]], frames[1..], limits)
    else One(open) + Count(if FitsAlone(frames[0], limits) then [frames[0]] else [], frames[1..], limits)
  }

  /** An emptier open transfer never costs more, and saves at most one. */
  lemma {:induction false} CountSuffix(pre: seq<bytes>, open: seq<bytes>, frames: seq<bytes>, limits: TxLimits)
    ensures Count(open, frames, limits) <= Count(pre + open, frames, limits) <= 1 + Count(open, frames, limits)
    decreases |frames|
  {
    if frames != [] {
      var f, rest := frames[0], frames[1..];
      if Admits(pre + open, f, limits) {
        AdmitsSuffix(pre, open, f, limits);
        Assoc(pre, open, [f]);
        CountSuffix(pre, open + [f], rest, limits);
      } else if Admits(open, f, limits) {
        AdmitsAlone(open, f, limits);
        CountSuffix(open, [f], rest, limits);
      }
    }
  }

  /**
   * Packing as it comes stays ahead of any other split: `alt` sends `pre` and
   * then `frames`, its first transfer holds all of `pre`, and the open transfer
   * holds the end of it.
   */
  lemma {:induction false} StaysAhead(
      alt: seq<seq<bytes>>, pre: seq<bytes>, open: seq<bytes>, skipped: seq<bytes>, frames: seq<bytes>,
      limits: TxLimits)
    requires Splits(alt, pre + frames, limits)
    requires alt != [] ==> pre <= alt[0]
    requires pre == skipped + open
    ensures Count(open, frames, limits) <= |alt|
    decreases |frames|, |alt|
  {
    if frames == [] || alt == [] {
      assert alt == [] ==> pre == [] && frames == [];
    } else if |pre| < |alt[0]| {
      var f := frames[0];
      AheadStep(alt, pre, frames, limits);
      AdmitsSuffix(skipped, open, f, limits);
      Assoc(skipped, open, [f]);
      assert pre + frames == pre + [f] + frames[1..];
      StaysAhead(alt, pre + [f], open + [f], skipped, frames[1..], limits);
    } else {
      assert alt[0] == pre;
      assert Flatten(alt[1..]) == frames by {
        assert pre + Flatten(alt[1..]) == pre + frames;
        SameRest(pre, Flatten(alt[1..]), frames);
      }
      assert [] + frames == frames;
      StaysAhead(alt[1..], [], [], [], frames, limits);
      assert open + [] == open;
      CountSuffix(open, [], frames, limits);
    }
  }

  lemma SameRest(pre: seq<bytes>, a: seq<bytes>, b: seq<bytes>)
    requires pre + a == pre + b
    ensures a == b
  {
    assert (pre + a)[|pre|..] == a && (pre + b)[|pre|..] == b;
  }

  /** The other split goes on with the same frame, so there is room for it. */
  lemma AheadStep(alt: seq<seq<bytes>>, pre: seq<bytes>, frames: seq<bytes>, limits: TxLimits)
    requires Splits(alt, pre + frames, limits)
    requires alt != [] && frames != [] && pre <= alt[0] && |pre| < |alt[0]|
    ensures Admits(pre, frames[0], limits)
    ensures pre + [frames[0]] <= alt[0]
  {
    var k := |pre|;
    assert alt[0] <= pre + frames;
    assert alt[0][k] == (pre + frames)[k] == frames[0];
    assert alt[0][..k] == pre;
    PackableAt(alt[0], k, limits);
  }

  // ----------------------------------------------------------- over whole runs

  function PutAll(bin: Bin, frames: seq<bytes>, limits: TxLimits): Bin
    decreases |frames|
  {
    if frames == [] then bin else PutAll(Put(bin, frames[0], limits), frames[1..], limits)
  }

  lemma {:induction false} PutAllOne(bin: Bin, frames: seq<bytes>, frame: bytes, limits: TxLimits)
    ensures PutAll(bin, frames + [frame], limits) == Put(PutAll(bin, frames, limits), frame, limits)
    decreases |frames|
  {
    if frames == [] {
      assert frames + [frame] == [frame];
      assert [frame][1..] == [];
    } else {
      assert (frames + [frame])[1..] == frames[1..] + [frame];
      PutAllOne(Put(bin, frames[0], limits), frames[1..], frame, limits);
    }
  }

  lemma {:induction false} PutAllCounts(bin: Bin, frames: seq<bytes>, limits: TxLimits)
    ensures |Shut(PutAll(bin, frames, limits)).closed| == |bin.closed| + Count(bin.open, frames, limits)
    decreases |frames|
  {
    if frames != [] {
      PutAllCounts(Put(bin, frames[0], limits), frames[1..], limits);
    }
  }

  /** The bursts that ended, each without its over-limit frame, and the one under way. */
  datatype Bursts = Bursts(past: seq<seq<bytes>>, current: seq<bytes>)

  function BurstsOf(log: Log, limits: TxLimits): Bursts {
    match log
    case Nothing => Bursts([], [])
    case Log(before, heard) =>
      var b := BurstsOf(before, limits);
      if Rests(heard, limits) then Bursts(b.past + [b.current], [])
      else b.(current := b.current + [heard.frame])
  }

  /** The transfers of whole bursts, one after another. */
  function PackBursts(bursts: seq<seq<bytes>>, limits: TxLimits): seq<seq<bytes>> {
    if bursts == [] then []
    else
      var n := |bursts| - 1;
      Shut(PutAll(Bin(PackBursts(bursts[..n], limits), []), bursts[n], limits)).closed
  }

  lemma {:induction false} PackedByBursts(log: Log, limits: TxLimits)
    ensures var b := BurstsOf(log, limits);
            BinAfter(log, limits) == PutAll(Bin(PackBursts(b.past, limits), []), b.current, limits)
  {
    if log.Log? {
      var b := BurstsOf(log.before, limits);
      PackedByBursts(log.before, limits);
      if Rests(log.heard, limits) {
        assert (b.past + [b.current])[..|b.past|] == b.past;
        if !log.heard.Empty? {
          OverLimit(BinAfter(log.before, limits), log.heard.frame, limits);
        }
      } else {
        PutAllOne(Bin(PackBursts(b.past, limits), []), b.current, log.heard.frame, limits);
      }
    }
  }

  lemma OverLimit(bin: Bin, frame: bytes, limits: TxLimits)
    requires !FitsAlone(frame, limits)
    ensures Put(bin, frame, limits) == Shut(bin)
  {
  }

  function TotalLength<T>(parts: seq<seq<T>>): nat {
    if parts == [] then 0 else TotalLength(parts[..|parts| - 1]) + |parts[|parts| - 1]|
  }

  lemma {:induction false} TotalLengthAppend<T>(parts: seq<seq<T>>, part: seq<T>)
    ensures TotalLength(parts + [part]) == TotalLength(parts) + |part|
  {
    assert (parts + [part])[..|parts|] == parts;
  }

  ghost predicate AllSplit(alts: seq<seq<seq<bytes>>>, bursts: seq<seq<bytes>>, limits: TxLimits) {
    |alts| == |bursts| && forall i :: 0 <= i < |alts| ==> Splits(alts[i], bursts[i], limits)
  }

  lemma {:induction false} FewestForBursts(bursts: seq<seq<bytes>>, alts: seq<seq<seq<bytes>>>, limits: TxLimits)
    requires AllSplit(alts, bursts, limits)
    ensures |PackBursts(bursts, limits)| <= TotalLength(alts)
  {
    if bursts != [] {
      var n := |bursts| - 1;
      FewestForBursts(bursts[..n], alts[..n], limits);
      PutAllCounts(Bin(PackBursts(bursts[..n], limits), []), bursts[n], limits);
      assert [] + bursts[n] == bursts[n];
      StaysAhead(alts[n], [], [], [], bursts[n], limits);
    }
  }

  /** Frames whose messages the device takes in one transfer, by the limits it advertises. */
  predicate Takes(limits: TxLimits, part: seq<bytes>) {
    1 <= |part| <= limits.maxPackets && |Messages(part, limits.alignment)| <= limits.maxTransferSize
  }

  /** The same, but for the padding of the last message, which need not be within the size. */
  predicate NearlyTakes(limits: TxLimits, part: seq<bytes>) {
    && 1 <= |part| <= limits.maxPackets
    && var n := |part| - 1;
       |Messages(part[..n], limits.alignment)| + 44 + |part[n]| <= limits.maxTransferSize
  }

  lemma TakenIsPackable(limits: TxLimits, part: seq<bytes>)
    requires Takes(limits, part) || NearlyTakes(limits, part)
    ensures Packable(part, limits)
  {
    var front, last := part[..|part| - 1], part[|part| - 1];
    assert part == front + [last];
    MessagesAppend(front, last, limits.alignment);
  }

  /** Each burst sent in order, in transfers the device takes. */
  ghost predicate AllSent(alts: seq<seq<seq<bytes>>>, bursts: seq<seq<bytes>>, limits: TxLimits) {
    && |alts| == |bursts|
    && forall i :: 0 <= i < |alts| ==> Flatten(alts[i]) == bursts[i] && AllTaken(alts[i], limits)
  }

  ghost predicate AllTaken(parts: seq<seq<bytes>>, limits: TxLimits) {
    forall i :: 0 <= i < |parts| ==> Takes(limits, parts[i]) || NearlyTakes(limits, parts[i])
  }

  lemma AllTakenPackable(parts: seq<seq<bytes>>, limits: TxLimits)
    requires AllTaken(parts, limits)
    ensures AllPackable(parts, limits)
  {
    forall i | 0 <= i < |parts|
      ensures Packable(parts[i], limits)
    {
      TakenIsPackable(limits, parts[i]);
    }
  }

  /**
   * However the frames came in, no way to send each burst in order in transfers
   * the device takes, by its limits alone, needs fewer than the ones closed.
   */
  lemma {:induction false} FewestTransfers(log: Log, alts: seq<seq<seq<bytes>>>, limits: TxLimits)
    requires BurstsOf(log, limits).current == []
    requires AllSent(alts, BurstsOf(log, limits).past, limits)
    ensures |BinAfter(log, limits).closed| <= TotalLength(alts)
  {
    PackedByBursts(log, limits);
    var past := BurstsOf(log, limits).past;
    forall i | 0 <= i < |alts|
      ensures Splits(alts[i], past[i], limits)
    {
      AllTakenPackable(alts[i], limits);
    }
    FewestForBursts(past, alts, limits);
  }

  /** A frame is dropped only if the device could not take it in any transfer. */
  lemma DroppedIsTooLong(frame: bytes, limits: TxLimits)
    requires !FitsAlone(frame, limits)
    ensures !Takes(limits, [frame]) && (limits.maxPackets == 0 || 44 + |frame| > limits.maxTransferSize)
  {
    assert [frame][1..] == [];
    assert Messages([frame], limits.alignment)
        == Message(frame, limits.alignment) + Messages([frame][1..], limits.alignment);
  }

  ghost predicate Sound(bin: Bin, limits: TxLimits) {
    AllPackable(bin.closed, limits) && (bin.open != [] ==> Packable(bin.open, limits))
  }

  lemma HeedSound(bin: Bin, heard: Heard, limits: TxLimits)
    requires Sound(bin, limits)
    ensures Sound(Heed(bin, heard, limits), limits)
  {
    if !heard.Empty? {
      var f := heard.frame;
      assert (bin.open + [f])[..|bin.open|] == bin.open;
      var alone: seq<bytes> := [f];
      assert alone[..0] == [];
      assert Messages(alone[..0], limits.alignment) == [];
    }
  }

  /** Each transfer closed is within the limits, so the split made is one of those compared. */
  lemma {:induction false} ClosedAreTaken(log: Log, limits: TxLimits)
    ensures var closed := BinAfter(log, limits).closed;
            forall i :: 0 <= i < |closed| ==> NearlyTakes(limits, closed[i])
  {
    AlwaysSound(log, limits);
  }

  lemma {:induction false} AlwaysSound(log: Log, limits: TxLimits)
    ensures Sound(BinAfter(log, limits), limits)
  {
    if log.Log? {
      AlwaysSound(log.before, limits);
      HeedSound(BinAfter(log.before, limits), log.heard, limits);
    }
  }
}
