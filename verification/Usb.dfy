/**
 * The endpoint contracts of `src/usb/backend.rs`. The bodies choose freely among
 * everything the contract allows, so whatever is proved of a caller holds
 * against any endpoint, including one that never completes a transfer.
 */
module Usb {
  import opened Bytes

  datatype UsbError = Disconnected | Timeout | Stall | NotFound | Other(why: string)

  predicate IsFatal(e: UsbError) {
    e.Disconnected? || e.NotFound?
  }

  /**
   * A condition set elsewhere that never becomes unset: the shutdown flag, or a
   * passed deadline. It may be set at any reading, and `fuse` bounds how long
   * it can take.
   */
  class Latch {
    var raised: bool
    var fuse: nat

    constructor (fuse: nat)
      ensures !raised && this.fuse == fuse
    {
      raised := false;
      this.fuse := fuse;
    }

    method Load() returns (now: bool)
      modifies this
      ensures now == raised
      ensures old(raised) ==> raised && fuse == old(fuse)
      ensures !raised ==> fuse < old(fuse)
      ensures fuse <= old(fuse)
    {
      if !raised {
        if fuse == 0 {
          raised := true;
        } else {
          var flip: bool := *;
          raised := flip;
          fuse := fuse - 1;
        }
      }
      now := raised;
    }
  }

  /** The outcome of one wait for a write to complete. */
  type Written = Option<Result<(), UsbError>>

  /** The waits of one round of taking completions back, those of its recovery, and what it left pending. */
  datatype Reaping = Reaping(waits: seq<Written>, drained: seq<Written>, left: nat)

  /**
   * How the writes were looked after, the latest last: transfers handed over,
   * waits for a free slot, and rounds of taking completions back.
   */
  datatype Care =
    | Untouched
    | Handed(before: Care)
    | Awaited(before: Care, wait: Written)
    | Reaped(before: Care, reaping: Reaping)

  function Rest<T>(s: seq<T>): seq<T> {
    if s == [] then [] else s[1..]
  }

  /** An endpoint for writes. What its waits will return is any script, fixed beforehand. */
  class OutEndpoint {
    const maxPacketSize: nat
    var pending: nat
    var script: seq<Written>
    /** Set by a cancel after which every aborted transfer does come back. */
    var responsive: bool
    /** Everything handed over, in order, and the most that was ever pending. */
    ghost var submitted: seq<bytes>
    ghost var peak: nat
    /** Everything that a wait returned, in order. */
    ghost var returned: seq<Written>
    ghost var care: Care
    /** How often everything queued was cancelled. */
    ghost var cancels: nat
    /** What each clearing of the halt returned. */
    ghost var clears: seq<Result<(), UsbError>>

    constructor (maxPacketSize: nat, script: seq<Written>)
      ensures this.maxPacketSize == maxPacketSize && this.script == script && !responsive
      ensures pending == 0 && submitted == [] && peak == 0 && cancels == 0 && clears == []
      ensures returned == [] && care.Untouched?
    {
      this.maxPacketSize := maxPacketSize;
      this.script := script;
      pending := 0;
      responsive := false;
      submitted, peak, cancels, clears := [], 0, 0, [];
      returned, care := [], Untouched;
    }

    method Submit(data: bytes)
      modifies this
      ensures pending == old(pending) + 1 && submitted == old(submitted) + [data]
      ensures peak == Max(old(peak), pending)
      ensures returned == old(returned) && care == Handed(old(care)) && script == old(script)
      ensures cancels == old(cancels) && clears == old(clears) && responsive == old(responsive)
    {
      pending := pending + 1;
      submitted := submitted + [data];
      peak := Max(peak, pending);
      care := Handed(care);
    }

    /** What the next wait returns: nothing comes back unless something is pending. */
    function Upcoming(): Written
      reads this
    {
      if pending == 0 then None
      else if script != [] && script[0].Some? then script[0]
      else if responsive then Some(Err(Other("cancelled")))
      else None
    }

    /** A completion, or nothing within the timeout. */
    method Wait() returns (r: Written)
      modifies this
      ensures r == old(Upcoming()) && returned == old(returned) + [r]
      ensures script == Rest(old(script))
      ensures r.Some? ==> old(pending) > 0 && pending == old(pending) - 1
      ensures r.None? ==> pending == old(pending)
      ensures old(responsive) && old(pending) > 0 ==> r.Some?
      ensures submitted == old(submitted) && peak == old(peak) && care == old(care)
      ensures cancels == old(cancels) && clears == old(clears) && responsive == old(responsive)
    {
      r := Upcoming();
      if r.Some? {
        pending := pending - 1;
      }
      script := Rest(script);
      returned := returned + [r];
    }

    method CancelAll()
      modifies this
      ensures pending == old(pending) && submitted == old(submitted) && peak == old(peak)
      ensures returned == old(returned) && care == old(care) && script == old(script)
      ensures cancels == old(cancels) + 1 && clears == old(clears)
    {
      var comesBack: bool := *;
      responsive := comesBack;
      cancels := cancels + 1;
    }

    /** The endpoint must be idle. */
    method ClearHalt() returns (r: Result<(), UsbError>)
      requires pending == 0
      modifies this
      ensures pending == 0 && submitted == old(submitted) && peak == old(peak)
      ensures returned == old(returned) && care == old(care) && script == old(script)
      ensures responsive == old(responsive)
      ensures cancels == old(cancels) && clears == old(clears) + [r]
    {
      r := *;
      clears := clears + [r];
    }
  }

  /** What one wait for a read returns. */
  type Read = Option<Result<bytes, UsbError>>

  /** What every wait so far returned, the latest last. */
  datatype Waits = NoWait | Waits(before: Waits, read: Read)

  class InEndpoint {
    var pending: nat
    var responsive: bool
    ghost var cancels: nat
    ghost var clears: seq<Result<(), UsbError>>
    /** What the waits returned, apart from those between a cancel and a cleared halt. */
    ghost var waits: Waits
    ghost var draining: bool

    constructor ()
      ensures pending == 0 && cancels == 0 && clears == [] && waits.NoWait? && !draining
    {
      pending := 0;
      responsive := false;
      cancels, clears, waits, draining := 0, [], NoWait, false;
    }

    method Submit()
      modifies this
      ensures pending == old(pending) + 1
      ensures cancels == old(cancels) && clears == old(clears) && responsive == old(responsive)
      ensures waits == old(waits) && draining == old(draining)
    {
      pending := pending + 1;
    }

    method Wait() returns (r: Read)
      modifies this
      ensures r.Some? ==> old(pending) > 0 && pending == old(pending) - 1
      ensures r.None? ==> pending == old(pending)
      ensures old(responsive) && old(pending) > 0 ==> r.Some?
      ensures cancels == old(cancels) && clears == old(clears) && responsive == old(responsive)
      ensures waits == (if draining then old(waits) else Waits(old(waits), r)) && draining == old(draining)
    {
      var completes: bool := *;
      if pending > 0 && (completes || responsive) {
        pending := pending - 1;
        var status: Result<bytes, UsbError> := *;
        r := Some(status);
      } else {
        r := None;
      }
      if !draining {
        waits := Waits(waits, r);
      }
    }

    method CancelAll()
      modifies this
      ensures pending == old(pending)
      ensures cancels == old(cancels) + 1 && clears == old(clears)
      ensures waits == old(waits) && draining
    {
      var comesBack: bool := *;
      responsive := comesBack;
      cancels, draining := cancels + 1, true;
    }

    method ClearHalt() returns (r: Result<(), UsbError>)
      requires pending == 0
      modifies this
      ensures pending == 0 && responsive == old(responsive)
      ensures cancels == old(cancels) && clears == old(clears) + [r]
      ensures waits == old(waits) && !draining
    {
      r := *;
      clears, draining := clears + [r], false;
    }
  }
}
