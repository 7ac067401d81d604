/** The transmit thread: batching frames into bulk transfers (`src/link.rs`). */
module LinkTx {
  import opened Bytes
  import opened RndisWire
  import opened RndisPacket
  import opened Packing
  import opened Usb

  const TX_DEPTH: nat := 8

  datatype Recv = Got(frame: bytes) | TimedOut | Disconnected

  /**
   * The channel of outbound frames. `queue` holds all frames still to come, also
   * those not yet sent, so a receive may find nothing although more follow.
   */
  class FrameQueue {
    var queue: seq<bytes>
    /** What the receives so far have told, and all frames of the channel. */
    ghost var log: Log
    ghost const total: seq<bytes>
    /** How often a wait for a frame timed out. */
    ghost var idles: nat

    ghost predicate Valid()
      reads this
    {
      total == FramesOf(log) + queue
    }

    constructor (queue: seq<bytes>)
      ensures Valid() && log.Nothing? && this.queue == total == queue
    {
      this.queue := queue;
      log, total, idles := Nothing, queue, 0;
    }

    method RecvTimeout() returns (r: Recv)
      requires Valid()
      modifies this
      ensures Valid()
      ensures r.Got? ==> old(queue) == [r.frame] + queue && log == Log(old(log), Began(r.frame))
      ensures !r.Got? ==> queue == old(queue) && log == old(log)
      ensures r.Disconnected? ==> queue == []
      ensures idles == old(idles) + if r.TimedOut? then 1 else 0
    {
      var arrives: bool, closed: bool := *, *;
      if queue != [] && arrives {
        r := Got(queue[0]);
        Hear(Began(queue[0]));
      } else if queue == [] && closed {
        r := Recv.Disconnected;
      } else {
        r := TimedOut;
        idles := idles + 1;
      }
    }

    method TryRecv() returns (r: Option<bytes>)
      requires Valid()
      modifies this
      ensures Valid()
      ensures r.Some? ==> old(queue) == [r.value] + queue && log == Log(old(log), Next(r.value))
      ensures r.None? ==> queue == old(queue) && log == Log(old(log), Empty)
      ensures idles == old(idles)
    {
      var arrives: bool := *;
      if queue != [] && arrives {
        r := Some(queue[0]);
        Hear(Next(queue[0]));
      } else {
        Hear(Empty);
        r := None;
      }
    }

    method Hear(heard: Heard)
      requires Valid() && (!heard.Empty? ==> queue != [] && heard.frame == queue[0])
      modifies this
      ensures Valid() && log == Log(old(log), heard) && idles == old(idles)
      ensures if heard.Empty? then queue == old(queue) else old(queue) == [heard.frame] + queue
    {
      assert FramesOf(log) + [] == FramesOf(log);
      if !heard.Empty? {
        Assoc(FramesOf(log), [queue[0]], queue[1..]);
        assert queue == [queue[0]] + queue[1..];
        queue := queue[1..];
      }
      log := Log(log, heard);
    }
  }

  // ---------------------------------------------------------- stall recovery

  const OUT_STUCK: UsbError := Other("bulk OUT transfers did not drain after cancel")

  /**
   * Clear a halted pipe: cancel what is queued, take it back, and clear the halt
   * exactly when it has all come back, which it has if the endpoint returns it.
   * `drained` is what the waits returned meanwhile; it is not looked at.
   */
  method RecoverBulkOut(ep: OutEndpoint) returns (r: Result<(), UsbError>, ghost drained: seq<Written>)
    modifies ep
    ensures ep.pending <= old(ep.pending) && ep.submitted == old(ep.submitted) && ep.peak == old(ep.peak)
    ensures ep.cancels == old(ep.cancels) + 1
    ensures ep.care == old(ep.care) && ep.returned == old(ep.returned) + drained
    ensures if ep.pending == 0 then ep.clears == old(ep.clears) + [r]
            else ep.clears == old(ep.clears) && r == Err(OUT_STUCK)
    ensures ep.responsive && old(ep.pending) <= TX_DEPTH + 1 ==> ep.pending == 0
  {
    ep.CancelAll();
    ghost var start := ep.pending;
    drained := [];
    for i := 0 to TX_DEPTH + 1
      invariant ep.pending <= start && ep.submitted == old(ep.submitted) && ep.peak == old(ep.peak)
      invariant ep.care == old(ep.care) && ep.returned == old(ep.returned) + drained
      invariant ep.cancels == old(ep.cancels) + 1 && ep.clears == old(ep.clears)
      invariant ep.responsive ==> ep.pending == 0 || ep.pending + i <= start
    {
      if ep.pending == 0 {
        break;
      }
      var w := ep.Wait();
      Assoc(old(ep.returned), drained, [w]);
      drained := drained + [w];
    }
    if ep.pending > 0 {
      return Err(OUT_STUCK), drained;
    }
    r := ep.ClearHalt();
  }

  predicate Succeeded(w: Written) {
    w.Some? && w.value.Ok?
  }

  predicate IsStall(w: Written) {
    w == Some(Err(Stall))
  }

  /** Nothing was left, or the last wait, and only that one, brought no success. */
  predicate Thorough(r: Reaping) {
    && (forall i :: 0 <= i < |r.waits| - 1 ==> Succeeded(r.waits[i]))
    && (r.left == 0 || (r.waits != [] && !Succeeded(r.waits[|r.waits| - 1])))
  }

  predicate Stalled(r: Reaping) {
    r.waits != [] && IsStall(r.waits[|r.waits| - 1])
  }

  /** The recovery of a stall got as far as clearing the halt. */
  predicate Cleared(r: Reaping) {
    Stalled(r) && r.left == 0
  }

  /**
   * Take back completed writes until none is pending or one of the waits brings
   * no success; a stall, and nothing else, leads to recovery.
   */
  method Reap(ep: OutEndpoint)
    modifies ep
    ensures ep.pending <= old(ep.pending) && ep.submitted == old(ep.submitted) && ep.peak == old(ep.peak)
    ensures ep.care.Reaped? && ep.care.before == old(ep.care) && ep.care.reaping.left == ep.pending
    ensures Thorough(ep.care.reaping)
    ensures ep.returned == old(ep.returned) + (ep.care.reaping.waits + ep.care.reaping.drained)
    ensures ep.cancels == old(ep.cancels) + if Stalled(ep.care.reaping) then 1 else 0
    ensures old(ep.clears) <= ep.clears
    ensures |ep.clears| == |old(ep.clears)| + if Cleared(ep.care.reaping) then 1 else 0
    ensures old(ep.pending) > 0 && old(ep.Upcoming()).None? ==>
              ep.pending == old(ep.pending) && ep.responsive == old(ep.responsive) && ep.script == Rest(old(ep.script))
  {
    ghost var waits: seq<Written>, drained: seq<Written> := [], [];
    var more := true;
    assert ep.returned + ([] + []) == ep.returned;
    while more && ep.pending > 0
      invariant ep.pending <= old(ep.pending) && ep.submitted == old(ep.submitted) && ep.peak == old(ep.peak)
      invariant ep.care == old(ep.care) && ep.returned == old(ep.returned) + (waits + drained)
      invariant more ==> drained == [] && ep.cancels == old(ep.cancels) && ep.clears == old(ep.clears)
      invariant more ==> forall i :: 0 <= i < |waits| ==> Succeeded(waits[i])
      invariant forall i :: 0 <= i < |waits| - 1 ==> Succeeded(waits[i])
      invariant !more ==> waits != [] && !Succeeded(waits[|waits| - 1])
      invariant ep.cancels == old(ep.cancels) + if waits != [] && IsStall(waits[|waits| - 1]) then 1 else 0
      invariant old(ep.clears) <= ep.clears
      invariant !more ==>
                  |ep.clears| == |old(ep.clears)| + if IsStall(waits[|waits| - 1]) && ep.pending == 0 then 1 else 0
      invariant waits == [] ==>
                  && more && ep.pending == old(ep.pending)
                  && ep.responsive == old(ep.responsive) && ep.script == old(ep.script)
      invariant waits != [] && old(ep.Upcoming()).None? ==>
                  && !more && ep.pending == old(ep.pending)
                  && ep.responsive == old(ep.responsive) && ep.script == Rest(old(ep.script))
      decreases ep.pending, more
    {
      var r := ep.Wait();
      OneMore(old(ep.returned), waits, r);
      waits := waits + [r];
      more := Succeeded(r);
      if r == Some(Err(Stall)) {
        var result;
        result, drained := RecoverBulkOut(ep);
        Assoc(old(ep.returned), waits, drained);
      }
      assert waits + [] == waits;
    }
    ep.care := Reaped(ep.care, Reaping(waits, drained, ep.pending));
  }

  lemma OneMore(returned: seq<Written>, waits: seq<Written>, w: Written)
    ensures returned + (waits + []) + [w] == returned + (waits + [w])
  {
  }

  // ---------------------------------------------------------------- upkeep

  /** Every transfer handed over is followed at once by a thorough reaping. */
  predicate Prompt(care: Care) {
    match care
    case Untouched => true
    case Handed(before) => Prompt(before) && !before.Handed?
    case Awaited(before, _) => Prompt(before) && !before.Handed?
    case Reaped(before, reaping) => Prompt(before) && Thorough(reaping)
  }

  function Handings(care: Care): nat {
    match care
    case Untouched => 0
    case Handed(before) => Handings(before) + 1
    case Awaited(before, _) => Handings(before)
    case Reaped(before, _) => Handings(before)
  }

  /** What all the waits returned, in order. */
  function WaitsOf(care: Care): seq<Written> {
    match care
    case Untouched => []
    case Handed(before) => WaitsOf(before)
    case Awaited(before, wait) => WaitsOf(before) + [wait]
    case Reaped(before, reaping) => WaitsOf(before) + (reaping.waits + reaping.drained)
  }

  /** The stalls that came back to a reaping, and those whose recovery cleared the halt. */
  function ReapedStalls(care: Care): nat {
    match care
    case Untouched => 0
    case Handed(before) => ReapedStalls(before)
    case Awaited(before, _) => ReapedStalls(before)
    case Reaped(before, reaping) => ReapedStalls(before) + if Stalled(reaping) then 1 else 0
  }

  function ClearedStalls(care: Care): nat {
    match care
    case Untouched => 0
    case Handed(before) => ClearedStalls(before)
    case Awaited(before, _) => ClearedStalls(before)
    case Reaped(before, reaping) => ClearedStalls(before) + if Cleared(reaping) then 1 else 0
  }

  /** The stalls that came back to a flush waiting for a slot. */
  function AwaitedStalls(care: Care): nat {
    match care
    case Untouched => 0
    case Handed(before) => AwaitedStalls(before)
    case Awaited(before, wait) => AwaitedStalls(before) + if IsStall(wait) then 1 else 0
    case Reaped(before, _) => AwaitedStalls(before)
  }

  /** The stalls that came back while a recovery drained the queue. */
  function DrainedStalls(care: Care): nat {
    match care
    case Untouched => 0
    case Handed(before) => DrainedStalls(before)
    case Awaited(before, _) => DrainedStalls(before)
    case Reaped(before, reaping) => DrainedStalls(before) + StallCount(reaping.drained)
  }

  function StallCount(waits: seq<Written>): nat {
    if waits == [] then 0
    else
      var n := |waits| - 1;
      StallCount(waits[..n]) + if IsStall(waits[n]) then 1 else 0
  }

  lemma {:induction false} StallCountConcat(a: seq<Written>, b: seq<Written>)
    ensures StallCount(a + b) == StallCount(a) + StallCount(b)
    decreases |b|
  {
    if b == [] {
      assert a + b == a;
    } else {
      var n := |b| - 1;
      assert (a + b)[..|a| + n] == a + b[..n];
      StallCountConcat(a, b[..n]);
    }
  }

  lemma {:induction false} NoStallAmongSuccesses(waits: seq<Written>)
    requires forall i :: 0 <= i < |waits| ==> Succeeded(waits[i])
    ensures StallCount(waits) == 0
  {
    if waits != [] {
      NoStallAmongSuccesses(waits[..|waits| - 1]);
    }
  }

  lemma {:induction false} StallsOfReaping(r: Reaping)
    requires Thorough(r)
    ensures StallCount(r.waits) == if Stalled(r) then 1 else 0
  {
    if r.waits != [] {
      NoStallAmongSuccesses(r.waits[..|r.waits| - 1]);
    }
  }

  /** Every stall that came back met a reaping, a wait for a slot, or a recovery under way. */
  lemma {:induction false} StallsByPlace(care: Care)
    requires Prompt(care)
    ensures StallCount(WaitsOf(care)) == ReapedStalls(care) + AwaitedStalls(care) + DrainedStalls(care)
  {
    match care
    case Untouched =>
    case Handed(before) =>
      StallsByPlace(before);
    case Awaited(before, wait) =>
      StallsByPlace(before);
      StallCountConcat(WaitsOf(before), [wait]);
      assert [wait][..0] == [];
    case Reaped(before, reaping) =>
      StallsByPlace(before);
      StallsOfReaping(reaping);
      StallCountConcat(reaping.waits, reaping.drained);
      StallCountConcat(WaitsOf(before), reaping.waits + reaping.drained);
  }

  /** The stalls that came back are as many as the recoveries, exactly when they all met a reaping. */
  lemma {:induction false} RecoveredExactly(care: Care)
    requires Prompt(care)
    ensures ReapedStalls(care) <= StallCount(WaitsOf(care))
    ensures ReapedStalls(care) == StallCount(WaitsOf(care)) <==> AwaitedStalls(care) == 0 && DrainedStalls(care) == 0
  {
    StallsByPlace(care);
  }

  /** The last things done were to hand over a transfer and to reap. */
  predicate JustSent(care: Care) {
    care.Reaped? && care.before.Handed?
  }

  /** The record of the waits is the endpoint's, and one recovery was made for every stall that a reaping met. */
  predicate Tended(care: Care, transfers: nat, cancels: nat, clears: nat, returned: seq<Written>) {
    && Prompt(care) && Handings(care) == transfers
    && ReapedStalls(care) == cancels && ClearedStalls(care) == clears
    && WaitsOf(care) == returned
  }

  // ------------------------------------------------------------ specification

  /**
   * A transfer carries `part`: the messages of frames that pass the size check
   * together, and a terminator exactly when their length is a multiple of the
   * USB packet size. It is a single zero byte unless the packets are single
   * bytes, where every length is such a multiple.
   */
  ghost predicate Carries(transfer: bytes, part: seq<bytes>, limits: TxLimits, maxPacket: nat)
    requires maxPacket > 0
  {
    var messages := Messages(part, limits.alignment);
    && Packable(part, limits)
    && |messages| <= |transfer| <= |messages| + 2
    && transfer == messages + Zeros(|transfer| - |messages|)
    && (|transfer| > |messages| <==> MultipleOf(|messages|, maxPacket))
    && (maxPacket >= 2 ==> !MultipleOf(|transfer|, maxPacket) && |transfer| <= |messages| + 1)
  }

  ghost predicate AllCarry(transfers: seq<bytes>, parts: seq<seq<bytes>>, limits: TxLimits, maxPacket: nat)
    requires maxPacket > 0
  {
    && |transfers| == |parts|
    && forall i :: 0 <= i < |parts| ==> Carries(transfers[i], parts[i], limits, maxPacket)
  }

  /** The counters against what was submitted. */
  ghost predicate Books(
      transfers: seq<bytes>, parts: seq<seq<bytes>>, sent: nat, count: nat, bytesOut: nat,
      limits: TxLimits, maxPacket: nat)
    requires maxPacket > 0
  {
    && AllCarry(transfers, parts, limits, maxPacket)
    && sent == TotalLength(parts)
    && count == |parts|
    && bytesOut == TotalLength(transfers)
  }

  lemma BooksAppend(
      transfers: seq<bytes>, parts: seq<seq<bytes>>, sent: nat, count: nat, bytesOut: nat,
      limits: TxLimits, maxPacket: nat, transfer: bytes, part: seq<bytes>)
    requires maxPacket > 0
    requires Books(transfers, parts, sent, count, bytesOut, limits, maxPacket)
    requires Carries(transfer, part, limits, maxPacket)
    ensures Books(transfers + [transfer], parts + [part], sent + |part|, count + 1, bytesOut + |transfer|,
                  limits, maxPacket)
  {
    TotalLengthAppend(transfers, transfer);
    TotalLengthAppend(parts, part);
  }

  /** The batch holds the messages of frames that pass the size check, and perhaps a terminator. */
  ghost predicate Batched(batch: bytes, queued: seq<bytes>, trailer: nat, limits: TxLimits, maxPacket: nat)
    requires maxPacket > 0
  {
    var messages := Messages(queued, limits.alignment);
    && batch == messages + Zeros(trailer)
    && trailer <= 2
    && (if queued == [] then trailer == 0 else Packable(queued, limits))
    && (trailer > 0 ==> MultipleOf(|messages|, maxPacket))
    && (maxPacket >= 2 && trailer > 0 ==> trailer == 1 && !MultipleOf(|batch|, maxPacket))
  }

  lemma BatchedNext(batch: bytes, queued: seq<bytes>, frame: bytes, limits: TxLimits, maxPacket: nat)
    requires maxPacket > 0 && Batched(batch, queued, 0, limits, maxPacket)
    requires Admits(queued, frame, limits)
    ensures Batched(batch + Message(frame, limits.alignment), queued + [frame], 0, limits, maxPacket)
  {
    MessagesAppend(queued, frame, limits.alignment);
    assert (queued + [frame])[..|queued|] == queued;
  }

  /** Of an unterminated batch, the length is that of its messages. */
  lemma {:induction false} BatchedLength(
      batch: bytes, queued: seq<bytes>, trailer: nat, limits: TxLimits, maxPacket: nat)
    requires maxPacket > 0 && Batched(batch, queued, trailer, limits, maxPacket)
    ensures |batch| == |Messages(queued, limits.alignment)| + trailer
  {
  }

  /** An endpoint whose next wait brings nothing, and one that has got one wait further. */
  ghost predicate Mute(ep: OutEndpoint)
    reads ep
  {
    !ep.responsive && (ep.script == [] || ep.script[0].None?)
  }

  ghost predicate Advanced(ep: OutEndpoint, script: seq<Written>)
    reads ep
  {
    !ep.responsive && ep.script == Rest(script)
  }

  ghost predicate SameScript(ep: OutEndpoint, script: seq<Written>, responsive: bool)
    reads ep
  {
    ep.script == script && ep.responsive == responsive
  }

  /** An endpoint nothing was done with yet. */
  ghost predicate IsFresh(ep: OutEndpoint)
    reads ep
  {
    && ep.pending == 0 && ep.submitted == [] && ep.peak == 0 && ep.cancels == 0 && ep.clears == []
    && ep.returned == [] && ep.care.Untouched?
  }

  // ------------------------------------------------------------------- object

  class Tx {
    const bulkOut: OutEndpoint
    const limits: TxLimits
    const maxPacket: nat
    const shutdown: Latch
    var batch: bytes
    var packets: nat
    var sent: nat
    var transfers: nat
    var bytesOut: nat
    /** The frames in the batch, and those of every transfer submitted. */
    ghost var queued: seq<bytes>
    ghost var parts: seq<seq<bytes>>
    /** Zero bytes that a flush has put behind the messages. */
    ghost var trailer: nat

    ghost predicate BatchValid()
      reads this`batch, this`packets, this`queued, this`trailer
    {
      maxPacket >= 1 && packets == |queued| && Batched(batch, queued, trailer, limits, maxPacket)
    }

    ghost predicate Upkept()
      reads this`transfers, bulkOut
    {
      Tended(bulkOut.care, transfers, bulkOut.cancels, |bulkOut.clears|, bulkOut.returned)
    }

    /** The counters and the endpoint, whatever is in the batch. */
    ghost predicate Ledger()
      reads this`parts, this`sent, this`transfers, this`bytesOut, bulkOut
    {
      && maxPacket >= 1
      && bulkOut.pending <= TX_DEPTH && bulkOut.peak <= TX_DEPTH
      && Upkept()
      && Books(bulkOut.submitted, parts, sent, transfers, bytesOut, limits, maxPacket)
    }

    ghost predicate Valid()
      reads this, bulkOut
    {
      BatchValid() && Ledger() && !bulkOut.care.Handed?
    }

    constructor (bulkOut: OutEndpoint, limits: TxLimits, shutdown: Latch)
      requires IsFresh(bulkOut)
      ensures Valid() && queued == [] && parts == [] && trailer == 0 && batch == [] && packets == 0
      ensures this.bulkOut == bulkOut && this.limits == limits && this.shutdown == shutdown
      ensures maxPacket == Max(bulkOut.maxPacketSize, 1)
    {
      this.bulkOut := bulkOut;
      this.limits := limits;
      this.shutdown := shutdown;
      maxPacket := Max(bulkOut.maxPacketSize, 1);
      batch, packets := [], 0;
      sent, transfers, bytesOut := 0, 0, 0;
      queued, parts, trailer := [], [], 0;
    }

    predicate Fits(frame: bytes)
      reads this
    {
      packets < limits.maxPackets && |batch| + DATA_HEADER_LEN + |frame| <= limits.maxTransferSize
    }

    method Push(frame: bytes)
      requires Valid() && Fits(frame) && trailer == 0
      modifies this`batch, this`packets, this`queued
      ensures Valid() && trailer == 0
      ensures queued == old(queued) + [frame]
    {
      BatchedLength(batch, queued, trailer, limits, maxPacket);
      BatchedNext(batch, queued, frame, limits, maxPacket);
      batch := Append(batch, frame, limits.alignment);
      packets := packets + 1;
      queued := queued + [frame];
    }

    /** The transfers and the batch are what was heard on the channel makes of them. */
    ghost predicate Packs(log: Log)
      reads this
    {
      Bin(parts, queued) == BinAfter(log, limits)
    }

    /** What is submitted or batched is what was accepted at this point, or at an earlier one. */
    ghost predicate Trails(log: Log)
      reads this
    {
      Behind(Contents(Bin(parts, queued)), log, limits)
    }

    /** The loop of the thread: a burst per received frame, until shutdown or hang-up. */
    method Pump(frames: FrameQueue)
      requires Valid() && parts == [] && queued == [] && trailer == 0
      requires frames.Valid() && frames.log.Nothing?
      modifies this, bulkOut, shutdown, frames
      ensures Valid() && frames.Valid()
      ensures Trails(frames.log)
      ensures !shutdown.raised ==> frames.queue == [] && queued == [] && Packs(frames.log)
      ensures !shutdown.raised ==> AtRest(frames.log, limits) && Drained(frames.log, limits)
    {
      BinContents(frames.log, limits);
      var go := true;
      while go
        invariant Valid() && frames.Valid() && Trails(frames.log)
        invariant !shutdown.raised ==> Packs(frames.log) && queued == [] && trailer == 0
        invariant !shutdown.raised ==> AtRest(frames.log, limits) && Drained(frames.log, limits)
        invariant !go && !shutdown.raised ==> frames.queue == []
        decreases shutdown.fuse, go
      {
        go := Round(frames);
      }
    }

    /** One turn of the loop. */
    method Round(frames: FrameQueue) returns (go: bool)
      requires Valid() && frames.Valid() && Trails(frames.log)
      requires !shutdown.raised ==> Packs(frames.log) && queued == [] && trailer == 0
      requires !shutdown.raised ==> AtRest(frames.log, limits) && Drained(frames.log, limits)
      modifies this, bulkOut, shutdown, frames
      ensures Valid() && frames.Valid() && Trails(frames.log)
      ensures !shutdown.raised ==> Packs(frames.log) && queued == [] && trailer == 0
      ensures !shutdown.raised ==> AtRest(frames.log, limits) && Drained(frames.log, limits)
      ensures !go && !shutdown.raised ==> frames.queue == []
      ensures if go then shutdown.fuse < old(shutdown.fuse) else shutdown.fuse <= old(shutdown.fuse)
    {
      var stop := shutdown.Load();
      go := false;
      if !stop {
        go := Receive(frames);
      }
    }

    /** Wait for a frame, and send it with those behind it. */
    method Receive(frames: FrameQueue) returns (go: bool)
      requires Valid() && frames.Valid() && Trails(frames.log)
      requires Packs(frames.log) && queued == [] && trailer == 0
      requires AtRest(frames.log, limits) && Drained(frames.log, limits)
      modifies this, bulkOut, shutdown, frames
      ensures Valid() && frames.Valid() && Trails(frames.log)
      ensures old(shutdown.raised) ==> shutdown.raised
      ensures shutdown.fuse <= old(shutdown.fuse)
      ensures !shutdown.raised ==> Packs(frames.log) && queued == [] && trailer == 0
      ensures !shutdown.raised ==> AtRest(frames.log, limits) && Drained(frames.log, limits)
      ensures !go ==> frames.queue == []
      ensures frames.idles != old(frames.idles) ==>
                frames.log == old(frames.log) && bulkOut.care.Reaped? && bulkOut.care.before == old(bulkOut.care)
    {
      ghost var log := frames.log;
      var r := frames.RecvTimeout();
      go := !r.Disconnected?;
      if r.TimedOut? {
        Settle();
      } else if r.Got? {
        Burst(r.frame, frames, log);
      }
    }

    /** Take back whatever has completed, as is due after a transfer was handed over. */
    method Settle()
      requires BatchValid() && Ledger()
      modifies bulkOut
      ensures Valid()
      ensures bulkOut.care.Reaped? && bulkOut.care.before == old(bulkOut.care)
      ensures old(bulkOut.pending) > 0 && old(Mute(bulkOut)) ==>
                bulkOut.pending == old(bulkOut.pending) && Advanced(bulkOut, old(bulkOut.script))
    {
      Reap(bulkOut);
    }

    /**
     * One burst: fill transfers with whatever is already queued, then send the
     * rest. Unless shutdown cuts it short, what was accepted is what was sent.
     */
    method Burst(first: bytes, frames: FrameQueue, ghost log: Log)
      requires Valid() && trailer == 0
      requires frames.Valid() && frames.log == Log(log, Began(first))
      requires Packs(log) && AtRest(log, limits) && Drained(log, limits)
      modifies this, bulkOut, shutdown, frames
      ensures frames.idles == old(frames.idles)
      ensures Valid() && frames.Valid()
      ensures old(shutdown.raised) ==> shutdown.raised
      ensures shutdown.fuse <= old(shutdown.fuse)
      ensures Trails(frames.log)
      ensures !shutdown.raised ==> Packs(frames.log) && queued == [] && trailer == 0
      ensures !shutdown.raised ==> AtRest(frames.log, limits) && Drained(frames.log, limits)
    {
      var placed := Take(first, log, Began(first));
      ghost var packed := frames.log;
      if placed {
        packed := Fill(frames);
      }
      EndBurst(packed, frames.log);
    }

    /** Take what is already queued, until the channel is found empty or a frame is dropped. */
    method Fill(frames: FrameQueue) returns (ghost packed: Log)
      requires Valid() && trailer == 0 && frames.Valid()
      requires Packs(frames.log) && Trails(frames.log) && Drained(frames.log, limits)
      modifies this, bulkOut, shutdown, frames
      ensures frames.idles == old(frames.idles)
      ensures Valid() && frames.Valid() && trailer <= 1
      ensures old(shutdown.raised) ==> shutdown.raised
      ensures shutdown.fuse <= old(shutdown.fuse)
      ensures Trails(packed) && Drained(frames.log, limits)
      ensures !shutdown.raised ==> Packs(packed) && AtRest(frames.log, limits)
      ensures frames.log == Log(packed, Empty) || (frames.log == packed && (shutdown.raised || queued == []))
    {
      packed := frames.log;
      var more := true;
      while more
        invariant Valid() && frames.Valid() && trailer <= 1 && frames.idles == old(frames.idles)
        invariant Trails(packed) && Drained(frames.log, limits)
        invariant more ==> trailer == 0 && packed == frames.log && Packs(packed)
        invariant !more && !shutdown.raised ==> Packs(packed) && AtRest(frames.log, limits)
        invariant more || frames.log == Log(packed, Empty) ||
                  (frames.log == packed && (shutdown.raised || queued == []))
        invariant old(shutdown.raised) ==> shutdown.raised
        invariant shutdown.fuse <= old(shutdown.fuse)
        decreases |frames.queue|, more
      {
        more, packed := TakeNext(frames);
      }
    }

    method TakeNext(frames: FrameQueue) returns (more: bool, ghost packed: Log)
      requires Valid() && trailer == 0 && frames.Valid()
      requires Packs(frames.log) && Trails(frames.log) && Drained(frames.log, limits)
      modifies this, bulkOut, shutdown, frames
      ensures frames.idles == old(frames.idles)
      ensures Valid() && frames.Valid() && trailer <= 1
      ensures Trails(packed) && Drained(frames.log, limits)
      ensures more ==> trailer == 0 && packed == frames.log && Packs(packed)
      ensures !more && !shutdown.raised ==> Packs(packed) && AtRest(frames.log, limits)
      ensures more || frames.log == Log(packed, Empty) ||
              (frames.log == packed && (shutdown.raised || queued == []))
      ensures if more then |frames.queue| < |old(frames.queue)| else |frames.queue| <= |old(frames.queue)|
      ensures old(shutdown.raised) ==> shutdown.raised
      ensures shutdown.fuse <= old(shutdown.fuse)
    {
      packed := frames.log;
      var next := frames.TryRecv();
      if next.None? {
        return false, packed;
      }
      more := Take(next.value, packed, Next(next.value));
      packed := frames.log;
    }

    /** The flush that ends a burst. */
    method EndBurst(ghost packed: Log, ghost log: Log)
      requires Valid() && trailer <= 1 && Trails(packed)
      requires log == Log(packed, Empty) || (log == packed && (shutdown.raised || queued == []))
      requires !shutdown.raised ==> Packs(packed)
      modifies this, bulkOut, shutdown
      ensures Valid()
      ensures old(shutdown.raised) ==> shutdown.raised
      ensures shutdown.fuse <= old(shutdown.fuse)
      ensures Trails(log)
      ensures !shutdown.raised ==> Packs(log) && queued == [] && trailer == 0
    {
      ShutKeeps(Bin(parts, queued));
      BehindNext(Contents(Bin(parts, queued)), packed, Empty, limits);
      ghost var done := Flush();
    }

    /** Place the frame just heard. */
    method Take(frame: bytes, ghost log: Log, ghost heard: Heard) returns (placed: bool)
      requires Valid() && trailer == 0
      requires Packs(log) && !heard.Empty? && heard.frame == frame
      modifies this, bulkOut, shutdown
      ensures Valid() && trailer <= 1 && Trails(Log(log, heard))
      ensures placed ==> trailer == 0
      ensures placed || !shutdown.raised ==> Packs(Log(log, heard))
      ensures !placed && !shutdown.raised ==> Rests(heard, limits) && queued == []
      ensures old(shutdown.raised) ==> shutdown.raised
      ensures shutdown.fuse <= old(shutdown.fuse)
    {
      ghost var bin := Bin(parts, queued);
      placed := Place(frame);
      if placed || !shutdown.raised {
        PutIsNext(bin, Bin(parts, queued), log, heard, limits);
      } else {
        StaysBehind(bin, Bin(parts, queued), log, heard, limits);
      }
    }

    /** Add a frame to the batch, flushing a full one first, or drop it. */
    method Place(frame: bytes) returns (placed: bool)
      requires Valid() && trailer == 0
      modifies this, bulkOut, shutdown
      ensures Valid() && trailer <= 1
      ensures placed ==> trailer == 0 && FitsAlone(frame, limits)
      ensures placed || !shutdown.raised ==> Bin(parts, queued) == Put(Bin(old(parts), old(queued)), frame, limits)
      ensures !placed ==> Stays(Bin(old(parts), old(queued)), Bin(parts, queued))
      ensures !placed && !shutdown.raised ==> !FitsAlone(frame, limits) && queued == []
      ensures old(shutdown.raised) ==> shutdown.raised
      ensures shutdown.fuse <= old(shutdown.fuse)
    {
      RoomMeans(frame);
      PutCases(Bin(parts, queued), frame, limits);
      if Fits(frame) {
        Push(frame);
        placed := true;
      } else {
        placed := MakeRoom(frame);
      }
    }

    /** Send the full batch, then start the next with the frame, or drop it. */
    method MakeRoom(frame: bytes) returns (placed: bool)
      requires Valid() && trailer == 0 && !Fits(frame)
      modifies this, bulkOut, shutdown
      ensures Valid() && trailer <= 1
      ensures placed ==> trailer == 0 && FitsAlone(frame, limits)
      ensures placed || !shutdown.raised ==>
                Bin(parts, queued) == Started(Bin(old(parts), old(queued)), frame, limits)
      ensures !placed ==> Stays(Bin(old(parts), old(queued)), Bin(parts, queued))
      ensures !placed && !shutdown.raised ==> !FitsAlone(frame, limits)
      ensures old(shutdown.raised) ==> shutdown.raised
      ensures shutdown.fuse <= old(shutdown.fuse)
    {
      ghost var bin := Bin(parts, queued);
      ghost var done := Flush();
      StartedIs(bin, frame, limits);
      placed := Fits(frame);
      if placed {
        StartWith(frame);
      }
    }

    method StartWith(frame: bytes)
      requires Valid() && queued == [] && trailer == 0 && Fits(frame)
      modifies this`batch, this`packets, this`queued
      ensures Valid() && trailer == 0 && queued == [frame] && FitsAlone(frame, limits)
    {
      RoomMeans(frame);
      Push(frame);
      assert [] + [frame] == [frame];
    }

    /** The size check on the buffer is the one on the frames in it. */
    lemma RoomMeans(frame: bytes)
      requires Valid() && trailer == 0
      ensures Fits(frame) == Admits(queued, frame, limits)
      ensures Fits(frame) ==> FitsAlone(frame, limits)
    {
      BatchedLength(batch, queued, trailer, limits, maxPacket);
    }

    /**
     * Submit the batch, unless shutdown is seen while the queue is full. Then the
     * batch stays as it is, apart from its terminator.
     */
    method Flush() returns (ghost done: bool)
      requires Valid() && trailer <= 1
      modifies this, bulkOut, shutdown
      ensures Valid()
      ensures old(shutdown.raised) ==> shutdown.raised
      ensures shutdown.fuse <= old(shutdown.fuse)
      ensures done ==> queued == [] && batch == [] && packets == 0 && trailer == 0
      ensures done ==> Bin(parts, queued) == Shut(Bin(old(parts), old(queued)))
      ensures done && old(queued) != [] ==> JustSent(bulkOut.care)
      ensures !done ==> shutdown.raised && bulkOut.pending == TX_DEPTH
      ensures !done ==> queued == old(queued) && parts == old(parts)
      ensures !done ==> packets == old(packets) && |batch| >= |old(batch)| && trailer <= old(trailer) + 1
    {
      if packets == 0 {
        BatchedLength(batch, queued, trailer, limits, maxPacket);
        return true;
      }
      done := FlushBatch();
    }

    /** The same for a batch that is not empty. The last two clauses follow particular endpoints. */
    method FlushBatch() returns (done: bool)
      requires Valid() && trailer <= 1 && queued != []
      modifies this, bulkOut, shutdown
      ensures Valid()
      ensures old(shutdown.raised) ==> shutdown.raised
      ensures shutdown.fuse <= old(shutdown.fuse)
      ensures done ==> queued == [] && batch == [] && packets == 0 && trailer == 0
      ensures done ==> parts == old(parts) + [old(queued)] && JustSent(bulkOut.care)
      ensures !done ==> shutdown.raised && bulkOut.pending == TX_DEPTH
      ensures !done ==> queued == old(queued) && parts == old(parts)
      ensures !done ==> packets == old(packets) && |batch| >= |old(batch)| && trailer <= old(trailer) + 1
      ensures old(bulkOut.pending) < TX_DEPTH && old(Mute(bulkOut)) ==>
                done && bulkOut.pending == old(bulkOut.pending) + 1 && Advanced(bulkOut, old(bulkOut.script))
      ensures old(bulkOut.pending) == TX_DEPTH && IsStall(old(bulkOut.Upcoming())) ==>
                done && AwaitedStalls(bulkOut.care) > 0
    {
      Terminate();
      done := SubmitWhenFree();
    }

    method SubmitWhenFree() returns (slot: bool)
      requires Valid() && queued != []
      requires trailer > 0 <==> MultipleOf(|Messages(queued, limits.alignment)|, maxPacket)
      requires maxPacket >= 2 ==> !MultipleOf(|batch|, maxPacket)
      modifies this, bulkOut, shutdown
      ensures Valid()
      ensures old(shutdown.raised) ==> shutdown.raised
      ensures shutdown.fuse <= old(shutdown.fuse)
      ensures slot ==> queued == [] && batch == [] && packets == 0 && trailer == 0
      ensures slot ==> parts == old(parts) + [old(queued)]
      ensures slot ==> JustSent(bulkOut.care)
      ensures !slot ==> shutdown.raised && bulkOut.pending == TX_DEPTH && unchanged(this)
      ensures old(bulkOut.pending) < TX_DEPTH && old(Mute(bulkOut)) ==>
                slot && bulkOut.pending == old(bulkOut.pending) + 1 && Advanced(bulkOut, old(bulkOut.script))
      ensures old(bulkOut.pending) == TX_DEPTH && IsStall(old(bulkOut.Upcoming())) ==>
                slot && AwaitedStalls(bulkOut.care) > 0
    {
      slot := AwaitSlot();
      if slot {
        Send();
      }
    }

    /** Hand the batch over, and reap at once. */
    method Send()
      requires Valid() && queued != [] && bulkOut.pending < TX_DEPTH
      requires trailer > 0 <==> MultipleOf(|Messages(queued, limits.alignment)|, maxPacket)
      requires maxPacket >= 2 ==> !MultipleOf(|batch|, maxPacket)
      modifies this, bulkOut
      ensures Valid()
      ensures queued == [] && batch == [] && packets == 0 && trailer == 0
      ensures parts == old(parts) + [old(queued)]
      ensures JustSent(bulkOut.care) && AwaitedStalls(bulkOut.care) == AwaitedStalls(old(bulkOut.care))
      ensures old(Mute(bulkOut)) ==>
                bulkOut.pending == old(bulkOut.pending) + 1 && Advanced(bulkOut, old(bulkOut.script))
    {
      Submit();
      Settle();
    }

    /** Wait until fewer than `TX_DEPTH` writes are pending; whatever comes back is not looked at. */
    method AwaitSlot() returns (slot: bool)
      requires bulkOut.pending <= TX_DEPTH
      requires Upkept() && !bulkOut.care.Handed?
      modifies bulkOut, shutdown
      ensures bulkOut.submitted == old(bulkOut.submitted) && bulkOut.pending <= TX_DEPTH
      ensures bulkOut.peak == old(bulkOut.peak) && bulkOut.cancels == old(bulkOut.cancels)
      ensures Upkept() && !bulkOut.care.Handed?
      ensures old(shutdown.raised) ==> shutdown.raised
      ensures shutdown.fuse <= old(shutdown.fuse)
      ensures if slot then bulkOut.pending < TX_DEPTH else shutdown.raised && bulkOut.pending == TX_DEPTH
      ensures old(bulkOut.pending) < TX_DEPTH ==> slot && unchanged(bulkOut)
      ensures old(bulkOut.pending) == TX_DEPTH && IsStall(old(bulkOut.Upcoming())) ==>
                slot && AwaitedStalls(bulkOut.care) == AwaitedStalls(old(bulkOut.care)) + 1
    {
      ghost var tried := false;
      while bulkOut.pending >= TX_DEPTH
        invariant if tried then old(bulkOut.pending) == TX_DEPTH else unchanged(bulkOut)
        invariant tried && IsStall(old(bulkOut.Upcoming())) ==>
                    && bulkOut.pending < TX_DEPTH
                    && AwaitedStalls(bulkOut.care) == AwaitedStalls(old(bulkOut.care)) + 1
        invariant bulkOut.pending <= TX_DEPTH && bulkOut.submitted == old(bulkOut.submitted)
        invariant bulkOut.peak == old(bulkOut.peak) && bulkOut.cancels == old(bulkOut.cancels)
        invariant Upkept() && !bulkOut.care.Handed?
        invariant old(shutdown.raised) ==> shutdown.raised
        invariant shutdown.fuse <= old(shutdown.fuse)
        decreases bulkOut.pending, shutdown.fuse
      {
        var r := bulkOut.Wait();
        bulkOut.care := Awaited(bulkOut.care, r);
        tried := true;
        if r.None? {
          var stop := shutdown.Load();
          if stop {
            return false;
          }
        }
      }
      slot := true;
    }

    /** One byte past the last message, exactly when USB could not tell where it ends. */
    method Terminate()
      requires BatchValid() && trailer <= 1 && queued != []
      modifies this`batch, this`trailer
      ensures BatchValid()
      ensures trailer == old(trailer) + if MultipleOf(|old(batch)|, maxPacket) then 1 else 0
      ensures |batch| - |old(batch)| == trailer - old(trailer)
      ensures trailer > 0 <==> MultipleOf(|Messages(queued, limits.alignment)|, maxPacket)
      ensures maxPacket >= 2 ==> !MultipleOf(|batch|, maxPacket)
    {
      MultipleOfIsMod(|batch|, maxPacket);
      assert trailer == 0 ==> batch == Messages(queued, limits.alignment);
      if |batch| % maxPacket == 0 {
        if maxPacket >= 2 {
          NextIsNoMultiple(|batch|, maxPacket);
        }
        assert Zeros(trailer) + [0] == Zeros(trailer + 1);
        Assoc(Messages(queued, limits.alignment), Zeros(trailer), [0]);
        batch := batch + [0];
        trailer := trailer + 1;
      }
    }

    /** A terminated batch is a transfer that carries the queued frames. */
    lemma BatchCarries()
      requires BatchValid() && queued != []
      requires trailer > 0 <==> MultipleOf(|Messages(queued, limits.alignment)|, maxPacket)
      requires maxPacket >= 2 ==> !MultipleOf(|batch|, maxPacket)
      ensures Carries(batch, queued, limits, maxPacket)
    {
      assert |Zeros(trailer)| == trailer;
    }

    method Submit()
      requires Valid() && queued != [] && bulkOut.pending < TX_DEPTH
      requires trailer > 0 <==> MultipleOf(|Messages(queued, limits.alignment)|, maxPacket)
      requires maxPacket >= 2 ==> !MultipleOf(|batch|, maxPacket)
      modifies this, bulkOut
      ensures BatchValid() && Ledger() && bulkOut.care == Handed(old(bulkOut.care))
      ensures bulkOut.pending == old(bulkOut.pending) + 1
      ensures SameScript(bulkOut, old(bulkOut.script), old(bulkOut.responsive))
      ensures queued == [] && batch == [] && packets == 0 && trailer == 0
      ensures parts == old(parts) + [old(queued)]
    {
      BatchCarries();
      HandOver();
      ClearBatch();
    }

    /** Count the batch and hand it to the endpoint. */
    method HandOver()
      requires Ledger() && !bulkOut.care.Handed? && packets == |queued|
      requires bulkOut.pending < TX_DEPTH && Carries(batch, queued, limits, maxPacket)
      modifies this`bytesOut, this`sent, this`transfers, this`parts, bulkOut
      ensures Ledger() && bulkOut.care == Handed(old(bulkOut.care))
      ensures bulkOut.pending == old(bulkOut.pending) + 1
      ensures SameScript(bulkOut, old(bulkOut.script), old(bulkOut.responsive))
      ensures parts == old(parts) + [queued]
    {
      ghost var earlier, before := bulkOut.submitted, parts;
      ghost var s, t, n := sent, transfers, bytesOut;
      Record();
      bulkOut.Submit(batch);
      parts := parts + [queued];
      BooksAppend(earlier, before, s, t, n, limits, maxPacket, batch, queued);
    }

    /** Count the transfer about to be submitted. */
    method Record()
      modifies this`bytesOut, this`sent, this`transfers
      ensures bytesOut == old(bytesOut) + |batch| && sent == old(sent) + packets && transfers == old(transfers) + 1
    {
      bytesOut := bytesOut + |batch|;
      sent := sent + packets;
      transfers := transfers + 1;
    }

    /** The buffer has been handed away; start an empty one. */
    method ClearBatch()
      requires BatchValid()
      modifies this`batch, this`packets, this`queued, this`trailer
      ensures BatchValid() && queued == [] && batch == [] && packets == 0 && trailer == 0
    {
      batch, packets := [], 0;
      queued, trailer := [], 0;
    }
  }

  // --------------------------------------------------------------- the thread

  /** All that a receiver decodes from the transfers, in order. */
  function DecodeAll(transfers: seq<bytes>): seq<Item> {
    if transfers == [] then [] else DecodeAll(transfers[..|transfers| - 1]) + Decode(transfers[|transfers| - 1])
  }

  /** What a run has submitted, from what it heard and what it left in the channel. */
  lemma {:induction false} SentAll(
      parts: seq<seq<bytes>>, queued: seq<bytes>, log: Log, rest: seq<bytes>, total: seq<bytes>, limits: TxLimits)
    requires Behind(Contents(Bin(parts, queued)), log, limits) && total == FramesOf(log) + rest
    ensures Flatten(parts) <= Accepted(total, limits)
    ensures rest == [] && queued == [] && Bin(parts, queued) == BinAfter(log, limits)
            && AtRest(log, limits) && Drained(log, limits) ==>
              Flatten(parts) == Accepted(total, limits) && IsWhole(log, total, limits)
  {
    AcceptedOfFrames(log, limits);
    BehindIsPrefix(Contents(Bin(parts, queued)), log, limits);
    AcceptedPrefix(FramesOf(log), rest, limits);
    assert Flatten(parts) <= Flatten(parts) + queued;
    if rest == [] && queued == [] && Bin(parts, queued) == BinAfter(log, limits) {
      BinContents(log, limits);
      assert total == FramesOf(log) && Flatten(parts) + [] == Flatten(parts);
    }
  }

  method TxThread(bulkOut: OutEndpoint, frames: FrameQueue, limits: TxLimits, shutdown: Latch) returns (tx: Tx)
    requires IsFresh(bulkOut)
    requires frames.Valid() && frames.log.Nothing?
    modifies bulkOut, frames, shutdown
    ensures tx.Valid() && tx.bulkOut == bulkOut && tx.limits == limits
    ensures tx.maxPacket == Max(bulkOut.maxPacketSize, 1) && bulkOut.care.Reaped?
    ensures Flatten(tx.parts) <= Accepted(frames.total, limits)
    ensures !shutdown.raised ==>
              && Flatten(tx.parts) == Accepted(frames.total, limits)
              && tx.parts == BinAfter(frames.log, limits).closed
              && IsWhole(frames.log, frames.total, limits)
  {
    tx := new Tx(bulkOut, limits, shutdown);
    tx.Pump(frames);
    SentAll(tx.parts, tx.queued, frames.log, frames.queue, frames.total, limits);
    tx.Settle();
  }

  /** The log tells of every frame of the queue, in bursts that were drained before the next wait. */
  ghost predicate IsWhole(log: Log, queue: seq<bytes>, limits: TxLimits) {
    FramesOf(log) == queue && Drained(log, limits) && BurstsOf(log, limits).current == []
  }

  // ------------------------------------------------------------ what arrives

  /** The items are the frames, or diverge from them, as their lengths decide. */
  ghost predicate Delivers(items: seq<Item>, frames: seq<bytes>, alignment: nat) {
    if AllEncodable(frames, alignment) then items == Oks(frames) else Diverges(items, frames)
  }

  lemma {:induction false} CarriedDelivers(
      transfer: bytes, part: seq<bytes>, limits: TxLimits, maxPacket: nat)
    requires maxPacket > 0 && Carries(transfer, part, limits, maxPacket)
    ensures Delivers(Decode(transfer), part, limits.alignment)
  {
    var trailer := Zeros(|transfer| - |Messages(part, limits.alignment)|);
    if AllEncodable(part, limits.alignment) {
      DecodeMessages(part, limits.alignment, trailer);
    } else {
      DecodeDiverges(part, limits.alignment, trailer);
    }
  }

  lemma {:induction false} DecodeAllCarried(
      transfers: seq<bytes>, parts: seq<seq<bytes>>, limits: TxLimits, maxPacket: nat)
    requires maxPacket > 0 && AllCarry(transfers, parts, limits, maxPacket)
    ensures Delivers(DecodeAll(transfers), Flatten(parts), limits.alignment)
  {
    if parts != [] {
      var n := |parts| - 1;
      DecodeAllCarried(transfers[..n], parts[..n], limits, maxPacket);
      CarriedDelivers(transfers[n], parts[n], limits, maxPacket);
      Together(DecodeAll(transfers[..n]), Flatten(parts[..n]), Decode(transfers[n]), parts[n], limits.alignment);
      FlattenAppend(parts[..n], parts[n]);
      assert parts == parts[..n] + [parts[n]];
    }
  }

  lemma Together(items: seq<Item>, frames: seq<bytes>, items': seq<Item>, frames': seq<bytes>, alignment: nat)
    requires Delivers(items, frames, alignment) && Delivers(items', frames', alignment)
    ensures Delivers(items + items', frames + frames', alignment)
  {
    var both, all := items + items', frames + frames';
    if !AllEncodable(frames, alignment) {
      var bad :| bad in frames && !Encodable(bad, alignment);
      assert bad in all;
      if i :| 0 <= i < |items| && items[i].Bad? {
        assert both[i].Bad?;
      } else {
        var i :| 0 <= i < |items| && i < |frames| && items[i] != Frame(frames[i]);
        assert both[i] != Frame(all[i]);
      }
    } else if !AllEncodable(frames', alignment) {
      var bad :| bad in frames' && !Encodable(bad, alignment);
      assert bad in all;
      if i :| 0 <= i < |items'| && items'[i].Bad? {
        assert both[|items| + i].Bad?;
      } else {
        var i :| 0 <= i < |items'| && i < |frames'| && items'[i] != Frame(frames'[i]);
        assert both[|items| + i] != Frame(all[|items| + i]);
      }
    }
  }

  /**
   * The transmit refinement: for every queue of frames, every way it arrives in
   * bursts and every endpoint, a run that ends with the channel closed has put
   * transfers on the wire that decode to exactly the frames within the device's
   * limit, each once and in order, if and only if their messages have 32-bit
   * lengths. Which frames share a transfer is a function of the bursts alone, and
   * the counters are the totals of what was submitted. At no time are more than
   * `TX_DEPTH` writes pending, and every transfer is followed by a reaping. There
   * is one recovery for each stall the endpoint returned, exactly when none came
   * back to a flush waiting for a slot or to a recovery under way.
   */
  method TxLoop(bulkOut: OutEndpoint, frames: FrameQueue, limits: TxLimits, shutdown: Latch) returns (tx: Tx)
    requires IsFresh(bulkOut)
    requires frames.Valid() && frames.log.Nothing?
    modifies bulkOut, frames, shutdown
    ensures var all, out := Accepted(frames.total, limits), bulkOut.submitted;
            && (!shutdown.raised ==>
                  (DecodeAll(out) == Oks(all) <==> AllEncodable(all, limits.alignment))
                  && tx.sent == |all|)
            && (AllEncodable(all, limits.alignment) ==> DecodeAll(out) <= Oks(all) && tx.sent == |DecodeAll(out)|)
            && tx.transfers == |out|
            && tx.bytesOut == TotalLength(out)
            && tx.sent == TotalLength(tx.parts)
    ensures AllCarry(bulkOut.submitted, tx.parts, limits, Max(bulkOut.maxPacketSize, 1))
    ensures !shutdown.raised ==>
              tx.parts == BinAfter(frames.log, limits).closed && IsWhole(frames.log, frames.total, limits)
    ensures bulkOut.peak <= 8
    ensures Tended(bulkOut.care, |bulkOut.submitted|, bulkOut.cancels, |bulkOut.clears|, bulkOut.returned)
    ensures bulkOut.care.Reaped?
    ensures bulkOut.cancels == StallCount(bulkOut.returned) <==>
            AwaitedStalls(bulkOut.care) == 0 && DrainedStalls(bulkOut.care) == 0
    ensures forall t :: t in bulkOut.submitted ==> WithinLimits(t, limits, Max(bulkOut.maxPacketSize, 1))
  {
    tx := TxThread(bulkOut, frames, limits, shutdown);
    ghost var all := Accepted(frames.total, limits);
    DecodeAllCarried(bulkOut.submitted, tx.parts, limits, tx.maxPacket);
    FlattenLength(tx.parts);
    DeliversPrefix(DecodeAll(bulkOut.submitted), Flatten(tx.parts), all, limits.alignment);
    AllWithinLimits(bulkOut.submitted, tx.parts, limits, tx.maxPacket);
    RecoveredExactly(bulkOut.care);
  }

  lemma DeliversPrefix(items: seq<Item>, frames: seq<bytes>, all: seq<bytes>, alignment: nat)
    requires Delivers(items, frames, alignment) && frames <= all
    ensures AllEncodable(all, alignment) ==> items <= Oks(all) && |items| == |frames|
    ensures items == Oks(frames) <==> AllEncodable(frames, alignment)
  {
    assert all == frames + all[|frames|..];
  }

  lemma {:induction false} FlattenLength<T>(parts: seq<seq<T>>)
    ensures |Flatten(parts)| == TotalLength(parts)
  {
    if parts != [] {
      var n := |parts| - 1;
      FlattenLength(parts[..n]);
      assert parts == parts[..n] + [parts[n]];
      FlattenAppend(parts[..n], parts[n]);
    }
  }

  // ------------------------------------------------------------ size limits

  /** The aligned size that the messages of one transfer stay within. */
  function Ceiling(limits: TxLimits): nat {
    RoundUp(limits.maxTransferSize, Boundary(limits.alignment))
  }

  /** Frames that pass the size check overshoot only by the final padding. */
  lemma {:induction false} RoomFor(part: seq<bytes>, limits: TxLimits)
    requires Packable(part, limits)
    ensures |Messages(part, limits.alignment)| <= Ceiling(limits)
  {
    var b := Boundary(limits.alignment);
    var front, last := part[..|part| - 1], part[|part| - 1];
    MessagesAppend(front, last, limits.alignment);
    assert part == front + [last];
    MessagesAreMultiple(part, limits.alignment);
    RoundUpIsMultiple(limits.maxTransferSize, b);
    MultipleGap(|Messages(part, limits.alignment)|, Ceiling(limits), b);
  }

  /**
   * What one transfer looks like: between one and the permitted number of
   * messages, and, for a real packet size, no multiple of it and at most one
   * alignment unit over the advertised size, or one byte where that size is
   * aligned, or not at all under `StaysWithin`.
   */
  ghost predicate WithinLimits(transfer: bytes, limits: TxLimits, maxPacket: nat)
    requires maxPacket > 0
  {
    && (exists part :: Carries(transfer, part, limits, maxPacket) && 1 <= |part| <= limits.maxPackets)
    && (maxPacket >= 2 ==>
          && |transfer| % maxPacket != 0
          && |transfer| <= limits.maxTransferSize + Boundary(limits.alignment)
          && (limits.maxTransferSize % Boundary(limits.alignment) == 0 ==>
                |transfer| <= limits.maxTransferSize + 1))
    && (StaysWithin(limits, maxPacket) ==> |transfer| <= limits.maxTransferSize)
  }

  lemma AllWithinLimits(transfers: seq<bytes>, parts: seq<seq<bytes>>, limits: TxLimits, maxPacket: nat)
    requires maxPacket > 0 && AllCarry(transfers, parts, limits, maxPacket)
    ensures forall t :: t in transfers ==> WithinLimits(t, limits, maxPacket)
  {
    forall t | t in transfers
      ensures WithinLimits(t, limits, maxPacket)
    {
      var i :| 0 <= i < |transfers| && transfers[i] == t;
      CarriedWithinLimits(t, parts[i], limits, maxPacket);
    }
  }

  lemma CarriedWithinLimits(transfer: bytes, part: seq<bytes>, limits: TxLimits, maxPacket: nat)
    requires maxPacket > 0 && Carries(transfer, part, limits, maxPacket)
    ensures WithinLimits(transfer, limits, maxPacket)
  {
    RoomFor(part, limits);
    SizeOf(|Messages(part, limits.alignment)|, |transfer|,
           limits.maxTransferSize, Boundary(limits.alignment), maxPacket);
  }

  /** The length of a transfer, from that of its messages. */
  lemma {:induction false} SizeOf(messages: nat, transfer: nat, most: nat, a: nat, maxPacket: nat)
    requires a > 0 && maxPacket > 0
    requires messages <= RoundUp(most, a) && messages <= transfer
    requires transfer > messages <==> MultipleOf(messages, maxPacket)
    requires maxPacket >= 2 ==> !MultipleOf(transfer, maxPacket) && transfer <= messages + 1
    ensures maxPacket >= 2 ==> transfer % maxPacket != 0 && transfer <= most + a
    ensures maxPacket >= 2 && most % a == 0 ==> transfer <= most + 1
    ensures most % a == 0 && most % maxPacket != 0 ==> transfer <= most
  {
    RoundUpByRemainder(most, a);
    MultipleOfIsMod(transfer, maxPacket);
    MultipleOfIsMod(most, maxPacket);
  }

  /**
   * The advertised size needs no padding and no terminator when filled, or no
   * frame is small enough to be sent at all.
   */
  predicate StaysWithin(limits: TxLimits, maxPacket: nat)
    requires maxPacket > 0
  {
    || limits.maxPackets == 0
    || limits.maxTransferSize < DATA_HEADER_LEN
    || (limits.maxTransferSize % Boundary(limits.alignment) == 0 && limits.maxTransferSize % maxPacket != 0)
  }

  predicate AllAtMost(transfers: seq<bytes>, size: nat) {
    forall i :: 0 <= i < |transfers| ==> |transfers[i]| <= size
  }

  /** The messages of `part` with the terminator they need. */
  function Sealed(part: seq<bytes>, limits: TxLimits, maxPacket: nat): bytes
    requires maxPacket > 0
  {
    var messages := Messages(part, limits.alignment);
    messages + Zeros(if MultipleOf(|messages|, maxPacket) then 1 else 0)
  }

  lemma SealedCarries(part: seq<bytes>, limits: TxLimits, maxPacket: nat)
    requires maxPacket > 0 && Packable(part, limits)
    ensures Carries(Sealed(part, limits, maxPacket), part, limits, maxPacket)
  {
    var messages := Messages(part, limits.alignment);
    if maxPacket >= 2 && MultipleOf(|messages|, maxPacket) {
      NextIsNoMultiple(|messages|, maxPacket);
    }
  }

  /** The largest frame the device admits, sent on its own, leaves in a transfer that is too long. */
  lemma FullFrameExceeds(limits: TxLimits, maxPacket: nat, frame: bytes, transfer: bytes)
    requires maxPacket > 0 && !StaysWithin(limits, maxPacket)
    requires DATA_HEADER_LEN + |frame| == limits.maxTransferSize
    requires Carries(transfer, [frame], limits, maxPacket)
    ensures |transfer| > limits.maxTransferSize
  {
    assert [frame][1..] == [];
    assert Messages([frame], limits.alignment) == Message(frame, limits.alignment);
    RoundUpByRemainder(limits.maxTransferSize, Boundary(limits.alignment));
    MultipleOfIsMod(limits.maxTransferSize, maxPacket);
  }

  lemma {:induction false} OneFrameLog(frame: bytes, limits: TxLimits)
    requires FitsAlone(frame, limits)
    ensures BinAfter(Log(Log(Nothing, Began(frame)), Empty), limits).closed == [[frame]]
    ensures Packable([frame], limits)
  {
    var alone := [frame];
    assert alone[..0] == [] && [] + alone == alone;
    var bin := BinAfter(Log(Nothing, Began(frame)), limits);
    assert bin == Put(BinAfter(Nothing, limits), frame, limits) == Bin([], alone);
    assert [] + [alone] == [alone];
  }

  /**
   * Over every way the frames can arrive, no transfer exceeds the advertised
   * size, exactly under the condition on the limits alone.
   */
  lemma {:induction false} NeverOversize(limits: TxLimits, maxPacket: nat)
    requires maxPacket > 0
    ensures StaysWithin(limits, maxPacket) <==>
            forall log, transfers :: AllCarry(transfers, BinAfter(log, limits).closed, limits, maxPacket) ==>
              AllAtMost(transfers, limits.maxTransferSize)
  {
    if StaysWithin(limits, maxPacket) {
      forall log, transfers | AllCarry(transfers, BinAfter(log, limits).closed, limits, maxPacket)
        ensures AllAtMost(transfers, limits.maxTransferSize)
      {
        AllWithinLimits(transfers, BinAfter(log, limits).closed, limits, maxPacket);
        assert forall i :: 0 <= i < |transfers| ==> transfers[i] in transfers;
      }
    } else {
      var frame := Zeros(limits.maxTransferSize - DATA_HEADER_LEN);
      var log, transfers := Log(Log(Nothing, Began(frame)), Empty), [Sealed([frame], limits, maxPacket)];
      OneFrameLog(frame, limits);
      SealedCarries([frame], limits, maxPacket);
      FullFrameExceeds(limits, maxPacket, frame, transfers[0]);
      assert AllCarry(transfers, BinAfter(log, limits).closed, limits, maxPacket);
      assert !AllAtMost(transfers, limits.maxTransferSize);
    }
  }

  /** Unless the device limit is within one alignment unit of 4 GiB, all accepted frames are encodable. */
  lemma {:induction false} AcceptedEncodable(frames: seq<bytes>, limits: TxLimits)
    requires limits.maxTransferSize + Boundary(limits.alignment) <= 0x1_0000_0000
    ensures AllEncodable(Accepted(frames, limits), limits.alignment)
  {
    if frames != [] {
      AcceptedEncodable(frames[..|frames| - 1], limits);
    }
  }

  /**
   * The overshoot is real: the size check sees neither padding nor terminator,
   * so a frame it admits at 45 bytes leaves as 47, whatever else happens.
   */
  lemma OvershootExample(transfer: bytes)
    requires Carries(transfer, [[0]], TxLimits(45, 1, 2), 46)
    ensures FitsAlone([0], TxLimits(45, 1, 2)) && |transfer| == 47
  {
    var frame: bytes := [0];
    RoundUpByRemainder(45, 2);
    assert [frame][1..] == [];
    assert Messages([frame], 2) == Message(frame, 2);
    MultipleOfIsMod(46, 46);
  }

  /** The state between two bursts. */
  ghost predicate Between(tx: Tx)
    reads tx, tx.bulkOut
  {
    tx.Valid() && tx.queued == [] && tx.batch == [] && tx.packets == 0 && tx.trailer == 0
  }

  /** A burst of one frame. */
  method SendOne(tx: Tx, frame: bytes)
    requires Between(tx) && tx.Fits(frame)
    modifies tx, tx.bulkOut, tx.shutdown
    ensures tx.Valid()
    ensures old(tx.bulkOut.pending) < TX_DEPTH && old(Mute(tx.bulkOut)) ==>
              && Between(tx) && tx.bulkOut.pending == old(tx.bulkOut.pending) + 1
              && Advanced(tx.bulkOut, old(tx.bulkOut.script))
    ensures old(tx.bulkOut.pending) == TX_DEPTH && IsStall(old(tx.bulkOut.Upcoming())) ==>
              AwaitedStalls(tx.bulkOut.care) > 0
  {
    tx.Push(frame);
    ghost var done := tx.FlushBatch();
  }

  /** Nothing comes back eight times, and then a stall. */
  const LATE_STALL: seq<Written> := seq(TX_DEPTH, _ => None) + [Some(Err(Stall))]

  /** Eight transfers that nothing comes back of fill the queue. */
  method FillQueue(tx: Tx, frame: bytes)
    requires Between(tx) && FitsAlone(frame, tx.limits)
    requires tx.bulkOut.pending == 0 && !tx.bulkOut.responsive && tx.bulkOut.script == LATE_STALL
    modifies tx, tx.bulkOut, tx.shutdown
    ensures Between(tx)
    ensures tx.bulkOut.pending == TX_DEPTH && IsStall(tx.bulkOut.Upcoming())
  {
    for k := 0 to TX_DEPTH
      invariant Between(tx)
      invariant tx.bulkOut.pending == k && !tx.bulkOut.responsive && tx.bulkOut.script == LATE_STALL[k..]
    {
      LateStallAt(k);
      SendOne(tx, frame);
    }
    LateStallAt(TX_DEPTH);
  }

  lemma LateStallAt(k: nat)
    requires k <= TX_DEPTH
    ensures k < TX_DEPTH ==> LATE_STALL[k..][0] == None && Rest(LATE_STALL[k..]) == LATE_STALL[k + 1..]
    ensures k == TX_DEPTH ==> LATE_STALL[k..][0] == Some(Err(Stall))
  {
  }

  /**
   * A stall that is lost: with the queue full, it comes back to the ninth flush,
   * which waits for a slot. It stays without a recovery.
   */
  method LostStallExample() returns (ep: OutEndpoint, tx: Tx)
    ensures tx.Valid() && tx.bulkOut == ep
    ensures AwaitedStalls(ep.care) > 0 && ep.cancels < StallCount(ep.returned)
  {
    ep := new OutEndpoint(512, LATE_STALL);
    var shutdown := new Latch(0);
    tx := new Tx(ep, TxLimits(1024, 1, 1), shutdown);
    FillQueue(tx, [0]);
    SendOne(tx, [0]);
    StallsByPlace(ep.care);
  }
}
