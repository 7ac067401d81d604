/** The RNDIS control channel (`src/rndis/control.rs`). */
module RndisControl {
  import opened Bytes
  import opened RndisWire
  import opened Usb

  const HOST_MAX_TRANSFER_SIZE: u32 := 16384

  datatype LinkState = Unknown | Up | Down

  datatype Session = Session(
    hostMac: bytes,
    deviceMaxTransferSize: u32,
    maxPacketsPerTransfer: u32,
    packetAlignment: u32)

  // ------------------------------------------------------------- request ids

  /** The id after this one; zero is skipped when the counter wraps. */
  function NextId(id: u32): u32 {
    Max((id + 1) % 0x1_0000_0000, 1)
  }

  function IdAfter(id: u32, n: nat): u32 {
    if n == 0 then id else NextId(IdAfter(id, n - 1))
  }

  /** Ids cycle through 1 to 2^32 - 1. */
  lemma {:induction false} IdClosedForm(id: u32, n: nat)
    requires id != 0
    ensures IdAfter(id, n) == 1 + (id - 1 + n) % 0xFFFF_FFFF
  {
    if n == 0 {
      DivModUnique(id - 1, 0xFFFF_FFFF, 0, id - 1);
    } else {
      IdClosedForm(id, n - 1);
      ModSuccessor(id - 1 + n - 1, 0xFFFF_FFFF);
      NextIdIs(IdAfter(id, n - 1));
    }
  }

  lemma NextIdIs(id: u32)
    requires id != 0
    ensures NextId(id) == if id == 0xFFFF_FFFF then 1 else id + 1
  {
  }

  lemma ShiftedRemainders(base: nat, i: nat, j: nat)
    requires i <= j
    ensures (base + i) % 0xFFFF_FFFF == (base + j) % 0xFFFF_FFFF <==> (j - i) % 0xFFFF_FFFF == 0
  {
    var a, b := base + i, base + j;
    SameRemainder(a, b, 0xFFFF_FFFF);
    assert b - a == j - i;
  }

  /** Ids are never zero, and two of them coincide only 2^32 - 1 calls apart. */
  lemma {:induction false} RequestIdsDistinct(id: u32, i: nat, j: nat)
    requires id != 0 && i <= j
    ensures IdAfter(id, i) != 0
    ensures IdAfter(id, i) == IdAfter(id, j) <==> (j - i) % 0xFFFF_FFFF == 0
  {
    IdClosedForm(id, i);
    IdClosedForm(id, j);
    ShiftedRemainders(id - 1, i, j);
  }

  // ---------------------------------------------------------------- transport

  /** The USB control endpoint, with what went over it. Any answer may come. */
  class Transport {
    ghost var sent: seq<bytes>
    ghost var received: seq<bytes>

    constructor ()
      ensures sent == [] && received == []
    {
      sent, received := [], [];
    }

    method Send(msg: bytes) returns (r: Result<(), Error>)
      modifies this
      ensures sent == if r.Ok? then old(sent) + [msg] else old(sent)
      ensures received == old(received)
    {
      r := *;
      if r.Ok? {
        sent := sent + [msg];
      }
    }

    method Receive() returns (r: Result<bytes, Error>)
      modifies this
      ensures received == if r.Ok? then old(received) + [r.value] else old(received)
      ensures sent == old(sent)
    {
      r := *;
      if r.Ok? {
        received := received + [r.value];
      }
    }

    method AwaitResponse() returns (r: Result<(), Error>)
    {
      r := *;
    }
  }

  // ------------------------------------------------------------ specification

  /** A device message that is neither too short nor of the awaited type. */
  predicate Unsolicited(reply: bytes, awaited: u32, kind: u32) {
    |reply| >= 12 && Le32At(reply, 0) == kind != awaited
  }

  /** The completion owed for a keepalive of the device. */
  function Owed(reply: bytes, awaited: u32): seq<bytes> {
    if Unsolicited(reply, awaited, MSG_KEEPALIVE) then [EncodeKeepaliveComplete(Le32At(reply, 8))] else []
  }

  /** The completions owed for all of them, in order. */
  function Acks(replies: seq<bytes>, awaited: u32): seq<bytes> {
    if replies == [] then []
    else Acks(replies[..|replies| - 1], awaited) + Owed(replies[|replies| - 1], awaited)
  }

  function LinkFrom(link: LinkState, status: u32): LinkState {
    if status == STATUS_MEDIA_CONNECT then Up
    else if status == STATUS_MEDIA_DISCONNECT then Down
    else link
  }

  /** The link state after the indications among the replies. */
  function LinkAfter(link: LinkState, replies: seq<bytes>, awaited: u32): LinkState {
    if replies == [] then link
    else
      var n := |replies| - 1;
      var before := LinkAfter(link, replies[..n], awaited);
      if Unsolicited(replies[n], awaited, MSG_INDICATE) then LinkFrom(before, Le32At(replies[n], 8)) else before
  }

  /** The completion of request `id` with the awaited type. */
  predicate Answers(reply: bytes, awaited: u32, id: u32) {
    |reply| >= 16 && Le32At(reply, 0) == awaited && Le32At(reply, 8) == id
  }

  /** What was sent is the command and one completion per keepalive so far. */
  ghost predicate Served(before: seq<bytes>, sent: seq<bytes>, msg: bytes, replies: seq<bytes>, awaited: u32) {
    sent == before + [msg] + Acks(replies, awaited)
  }

  /** The last reply is the completion. */
  predicate Ends(replies: seq<bytes>, awaited: u32, id: u32) {
    replies != [] && Answers(Last(replies), awaited, id)
  }

  function Last<T>(s: seq<T>): T
    requires s != []
  {
    s[|s| - 1]
  }

  /** No reply before the last one was the completion. */
  ghost predicate NoneBefore(replies: seq<bytes>, awaited: u32, id: u32) {
    forall i :: 0 <= i < |replies| - 1 ==> !Answers(replies[i], awaited, id)
  }

  /** How far a transaction has come, `answer` being its result once there is one. */
  ghost predicate Fits(
      answer: Option<Result<bytes, Error>>, before: seq<bytes>, sent: seq<bytes>, msg: bytes, replies: seq<bytes>,
      awaited: u32, id: u32)
  {
    && NoneBefore(replies, awaited, id)
    && (Ends(replies, awaited, id) <==> answer.Some? && answer.value.Ok?)
    && (answer.None? || answer.value.Ok? ==> Served(before, sent, msg, replies, awaited))
    && (answer.Some? && answer.value.Ok? ==> answer.value.value == Last(replies))
  }

  /** One more reply, and what it was answered with, if that went out. */
  lemma {:induction false} ReplyStep(
      before: seq<bytes>, sent: seq<bytes>, sent': seq<bytes>, msg: bytes, replies: seq<bytes>, reply: bytes,
      awaited: u32, served: bool)
    requires Served(before, sent, msg, replies, awaited)
    requires sent' == sent + if served then Owed(reply, awaited) else []
    ensures before <= sent' <= before + [msg] + Acks(replies + [reply], awaited)
    ensures served ==> Served(before, sent', msg, replies + [reply], awaited)
  {
    assert (replies + [reply])[..|replies|] == replies;
    Assoc(before + [msg], Acks(replies, awaited), Owed(reply, awaited));
  }

  lemma TailJoins(received: seq<bytes>, earlier: seq<bytes>, replies: seq<bytes>)
    requires earlier <= replies
    ensures received + earlier + replies[|earlier|..] == received + replies
  {
  }

  lemma {:induction false} LinkOne(link: LinkState, replies: seq<bytes>, reply: bytes, awaited: u32)
    ensures LinkAfter(link, replies + [reply], awaited)
         == var before := LinkAfter(link, replies, awaited);
            if Unsolicited(reply, awaited, MSG_INDICATE) then LinkFrom(before, Le32At(reply, 8)) else before
  {
    assert (replies + [reply])[..|replies|] == replies;
  }

  // ------------------------------------------------------------------- object

  class Rndis {
    const transport: Transport
    var nextRequestId: u32
    var link: LinkState

    constructor (transport: Transport)
      ensures this.transport == transport && nextRequestId == 1 && link == Unknown
    {
      this.transport := transport;
      nextRequestId := 1;
      link := Unknown;
    }

    method TakeRequestId() returns (id: u32)
      modifies this`nextRequestId
      ensures id == old(nextRequestId) && nextRequestId == NextId(id)
    {
      id := nextRequestId;
      nextRequestId := Max((nextRequestId + 1) % 0x1_0000_0000, 1);
    }

    /**
     * A command and its completion. Whatever else the device says in between is
     * served; `replies` is all of it, and it succeeds exactly when that ends with
     * the completion.
     */
    method Transact(msg: bytes, awaited: u32, id: u32) returns (r: Result<bytes, Error>, ghost replies: seq<bytes>)
      modifies this`link, transport
      ensures transport.received == old(transport.received) + replies
      ensures link == LinkAfter(old(link), replies, awaited)
      ensures r.Ok? ==> transport.sent == old(transport.sent) + [msg] + Acks(replies, awaited)
      ensures old(transport.sent) <= transport.sent <= old(transport.sent) + [msg] + Acks(replies, awaited)
      ensures r.Ok? <==> Ends(replies, awaited, id)
      ensures r.Ok? ==> r.value == Last(replies)
      ensures NoneBefore(replies, awaited, id)
    {
      replies := [];
      var started := transport.Send(msg);
      if started.Err? {
        return Err(started.error), [];
      }
      var patience: nat := *;
      var deadline := new Latch(patience);
      var answer: Option<Result<bytes, Error>> := None;
      while answer.None?
        invariant fresh(deadline)
        invariant transport.received == old(transport.received) + replies
        invariant link == LinkAfter(old(link), replies, awaited)
        invariant old(transport.sent) <= transport.sent <= old(transport.sent) + [msg] + Acks(replies, awaited)
        invariant Fits(answer, old(transport.sent), transport.sent, msg, replies, awaited, id)
        decreases deadline.fuse, answer.None?
      {
        var passed := deadline.Load();
        if passed {
          return Err(NoResponse), replies;
        }
        ghost var earlier := replies;
        answer, replies := Attend(msg, awaited, id, old(transport.sent), old(link), earlier);
        TailJoins(old(transport.received), earlier, replies);
      }
      r := answer.value;
    }

    /** Wait for one message of the device: the completion, an error, or something to be served. */
    method Attend(
        msg: bytes, awaited: u32, id: u32, ghost sent: seq<bytes>, ghost link0: LinkState, ghost earlier: seq<bytes>)
      returns (answer: Option<Result<bytes, Error>>, ghost replies: seq<bytes>)
      requires Fits(None, sent, transport.sent, msg, earlier, awaited, id)
      requires link == LinkAfter(link0, earlier, awaited)
      modifies this`link, transport
      ensures earlier <= replies && transport.received == old(transport.received) + replies[|earlier|..]
      ensures link == LinkAfter(link0, replies, awaited)
      ensures sent <= transport.sent <= sent + [msg] + Acks(replies, awaited)
      ensures Fits(answer, sent, transport.sent, msg, replies, awaited, id)
    {
      replies := earlier;
      assert earlier[|earlier|..] == [];
      var ready := transport.AwaitResponse();
      if ready.Err? {
        return Some(Err(ready.error)), replies;
      }
      var got := transport.Receive();
      if got.Err? {
        return Some(Err(got.error)), replies;
      }
      var reply := got.value;
      replies := earlier + [reply];
      assert replies[|earlier|..] == [reply];
      ghost var before := transport.sent;
      LinkOne(link0, earlier, reply, awaited);
      answer := Digest(reply, awaited, id);
      ReplyStep(sent, before, transport.sent, msg, earlier, reply, awaited, answer.None? || answer.value.Ok?);
    }

    /** One message of the device: the completion, a broken one, or something to be served. */
    method Digest(reply: bytes, awaited: u32, id: u32) returns (answer: Option<Result<bytes, Error>>)
      modifies this`link, transport
      ensures transport.received == old(transport.received)
      ensures link == if Unsolicited(reply, awaited, MSG_INDICATE) then LinkFrom(old(link), Le32At(reply, 8))
                      else old(link)
      ensures transport.sent
           == old(transport.sent) + if answer.None? || answer.value.Ok? then Owed(reply, awaited) else []
      ensures answer.Some? && answer.value.Ok? <==> Answers(reply, awaited, id)
      ensures answer.Some? && answer.value.Ok? ==> answer.value.value == reply
    {
      assert transport.sent + [] == transport.sent;
      if |reply| < 12 {
        return None;
      }
      var kind := Le32At(reply, 0);
      if kind == awaited {
        if |reply| < 16 {
          return Some(Err(Truncated));
        }
        if Le32At(reply, 8) == id {
          return Some(Ok(reply));
        }
        return None;
      }
      var served := HandleUnsolicited(kind, reply);
      answer := if served.Err? then Some(Err(served.error)) else None;
    }

    method HandleUnsolicited(kind: u32, reply: bytes) returns (r: Result<(), Error>)
      requires |reply| >= 12
      modifies this`link, transport
      ensures transport.received == old(transport.received)
      ensures link == if kind == MSG_INDICATE then LinkFrom(old(link), Le32At(reply, 8)) else old(link)
      ensures var owed := if kind == MSG_KEEPALIVE then [EncodeKeepaliveComplete(Le32At(reply, 8))] else [];
              transport.sent == if r.Ok? then old(transport.sent) + owed else old(transport.sent)
    {
      r := Ok(());
      if kind == MSG_INDICATE {
        var status := Le32At(reply, 8);
        link := if status == STATUS_MEDIA_CONNECT then Up
                else if status == STATUS_MEDIA_DISCONNECT then Down
                else link;
      } else if kind == MSG_KEEPALIVE {
        r := transport.Send(EncodeKeepaliveComplete(Le32At(reply, 8)));
      }
    }

    /** A transaction, told by the commands among what was sent. */
    method Exchange(msg: bytes, awaited: u32, id: u32) returns (r: Result<bytes, Error>, ghost replies: seq<bytes>)
      requires |msg| >= 4 && Le32At(msg, 0) != MSG_KEEPALIVE_C && awaited != MSG_INDICATE
      modifies this`link, transport
      ensures transport.received == old(transport.received) + replies
      ensures link == LinkAfter(old(link), replies, MSG_SET_C)
      ensures Issued(old(transport.sent), transport.sent, msg, r.Ok?)
      ensures r.Ok? <==> Ends(replies, awaited, id)
      ensures r.Ok? ==> r.value == Last(replies)
    {
      r, replies := Transact(msg, awaited, id);
      LinkAnyCompletion(old(link), replies, awaited);
      AcksAreAcks(replies, awaited);
      IssuedBy(old(transport.sent), transport.sent, msg, Acks(replies, awaited), r.Ok?);
    }

    /** INITIALIZE succeeds exactly when the device completes it with success and a transfer size. */
    method Initialize() returns (r: Result<InitComplete, Error>, ghost replies: seq<bytes>)
      modifies this, transport
      ensures transport.received == old(transport.received) + replies
      ensures link == LinkAfter(old(link), replies, MSG_SET_C)
      ensures nextRequestId == NextId(old(nextRequestId))
      ensures Issued(old(transport.sent), transport.sent,
                     EncodeInit(old(nextRequestId), HOST_MAX_TRANSFER_SIZE), r.Ok?)
      ensures r.Ok? <==> InitGood(replies, old(nextRequestId))
      ensures r.Ok? ==> DecodeInitComplete(Last(replies)) == r
    {
      var id := TakeRequestId();
      CommandKinds(id, HOST_MAX_TRANSFER_SIZE, []);
      var reply;
      reply, replies := Exchange(EncodeInit(id, HOST_MAX_TRANSFER_SIZE), MSG_INIT_C, id);
      if reply.Err? {
        return Err(reply.error), replies;
      }
      r := DecodeInitComplete(reply.value);
      if r.Ok? && r.value.status != STATUS_SUCCESS {
        r := Err(Status(r.value.status));
      } else if r.Ok? && r.value.maxTransferSize == 0 {
        r := Err(Malformed("device advertised a zero transfer size"));
      }
    }

    method Query(oid: u32) returns (r: Result<bytes, Error>, ghost replies: seq<bytes>)
      modifies this, transport
      ensures transport.received == old(transport.received) + replies
      ensures link == LinkAfter(old(link), replies, MSG_SET_C)
      ensures nextRequestId == NextId(old(nextRequestId))
      ensures Issued(old(transport.sent), transport.sent, EncodeQuery(old(nextRequestId), oid), r.Ok?)
      ensures r.Ok? <==> QueryGood(replies, old(nextRequestId))
      ensures r.Ok? ==> r.value == Info(replies)
    {
      var id := TakeRequestId();
      CommandKinds(id, oid, []);
      var reply;
      reply, replies := Exchange(EncodeQuery(id, oid), MSG_QUERY_C, id);
      if reply.Err? {
        return Err(reply.error), replies;
      }
      var decoded := DecodeQueryComplete(reply.value);
      if decoded.Err? {
        return Err(decoded.error), replies;
      }
      if decoded.value.1 != STATUS_SUCCESS {
        return Err(Status(decoded.value.1)), replies;
      }
      r := Ok(decoded.value.2);
    }

    method Set(oid: u32, data: bytes) returns (r: Result<(), Error>, ghost replies: seq<bytes>)
      modifies this, transport
      ensures transport.received == old(transport.received) + replies
      ensures link == LinkAfter(old(link), replies, MSG_SET_C)
      ensures nextRequestId == NextId(old(nextRequestId))
      ensures Issued(old(transport.sent), transport.sent, EncodeSet(old(nextRequestId), oid, data), r.Ok?)
      ensures r.Ok? <==> SetGood(replies, old(nextRequestId))
    {
      var id := TakeRequestId();
      CommandKinds(id, oid, data);
      var reply;
      reply, replies := Exchange(EncodeSet(id, oid, data), MSG_SET_C, id);
      if reply.Err? {
        return Err(reply.error), replies;
      }
      match DecodeCompletion(reply.value)
      case Err(e) =>
        r := Err(e);
      case Ok((_, status)) =>
        r := if status != STATUS_SUCCESS then Err(Status(status)) else Ok(());
    }

    /**
     * The permanent address, or the current one where that fails. `heard` is what
     * was received to each query made, and `queries` are those that went out.
     */
    method QueryMac() returns (r: Result<bytes, Error>, ghost heard: seq<seq<bytes>>, ghost queries: seq<bytes>)
      modifies this, transport
      ensures transport.received == old(transport.received) + Flatten(heard)
      ensures link == LinkAfter(old(link), Flatten(heard), MSG_SET_C)
      ensures Searched(heard, old(nextRequestId), r.Ok?)
      ensures nextRequestId == NextId(Asked(old(nextRequestId), |heard|))
      ensures r.Ok? ==> r.value == MacIn(Last(heard))
      ensures Adds(old(transport.sent), transport.sent, queries)
      ensures r.Ok? ==> IsMacQueries(queries, old(nextRequestId), |heard|)
    {
      ghost var id := nextRequestId;
      heard, queries := [], [];
      AddsNothing(transport.sent);
      var oids := [OID_802_3_PERMANENT_ADDRESS, OID_802_3_CURRENT_ADDRESS];
      var k := 0;
      while k < 2
        invariant 0 <= k <= 2 && |heard| == k
        invariant nextRequestId == if k == 0 then id else NextId(Asked(id, k))
        invariant transport.received == old(transport.received) + Flatten(heard)
        invariant link == LinkAfter(old(link), Flatten(heard), MSG_SET_C)
        invariant forall i :: 0 <= i < k ==> !MacGood(heard[i], Asked(id, i + 1))
        invariant Adds(old(transport.sent), transport.sent, queries)
        invariant k == 0 ==> queries == []
        invariant k == 1 ==> queries == [] || queries == [EncodeQuery(id, oids[0])]
      {
        ghost var s := transport.sent;
        var info, replies := Query(oids[k]);
        HeardMore(old(link), old(transport.received), heard, replies);
        heard := heard + [replies];
        queries := IssuedNext(old(transport.sent), s, transport.sent, queries,
                              EncodeQuery(Asked(id, k + 1), oids[k]), info.Ok?);
        if info.Ok? && |info.value| >= 6 {
          var mac := info.value[..6];
          if mac != [0, 0, 0, 0, 0, 0] {
            return Ok(mac), heard, queries;
          }
        }
        k := k + 1;
      }
      return Err(Malformed("device did not report a usable MAC")), heard, queries;
    }

    /** Learn the MAC, then set the packet filter. */
    method Configure() returns (r: Result<bytes, Error>, ghost heard: seq<seq<bytes>>, ghost queries: seq<bytes>)
      modifies this, transport
      ensures transport.received == old(transport.received) + Flatten(heard)
      ensures link == LinkAfter(old(link), Flatten(heard), MSG_SET_C)
      ensures r.Ok? <==> Configures(heard, old(nextRequestId))
      ensures r.Ok? ==>
        && r.value == MacIn(heard[|heard| - 2])
        && nextRequestId == NextId(NextId(Asked(old(nextRequestId), |heard| - 1)))
        && IsMacQueries(queries, old(nextRequestId), |heard| - 1)
        && Adds(old(transport.sent), transport.sent,
                queries + [FilterCommand(NextId(Asked(old(nextRequestId), |heard| - 1)))])
    {
      ghost var id := nextRequestId;
      r, heard, queries := QueryMac();
      if r.Err? {
        return;
      }
      ghost var s, asked := transport.sent, |heard|;
      var done, replies := Set(OID_GEN_CURRENT_PACKET_FILTER, Le32(DEFAULT_PACKET_FILTER));
      HeardMore(old(link), old(transport.received), heard, replies);
      heard := heard + [replies];
      if done.Err? {
        return Err(done.error), heard, queries;
      }
      FilterIs(NextId(Asked(id, asked)));
      AddsTwice(old(transport.sent), s, transport.sent, queries, [FilterCommand(NextId(Asked(id, asked)))]);
    }

    /**
     * The whole bring-up. `heard` is what was received to each command in turn,
     * and it alone decides: success comes exactly when it holds a good completion
     * of INITIALIZE, of one or two MAC queries and of SET, under consecutive ids,
     * and the session is what these say. The commands went out in that order.
     */
    method BringUp() returns (r: Result<Session, Error>, ghost heard: seq<seq<bytes>>, ghost queries: seq<bytes>)
      modifies this, transport
      ensures transport.received == old(transport.received) + Flatten(heard)
      ensures r.Ok? <==> Succeeds(heard, old(nextRequestId))
      ensures r.Ok? ==> r.value == SessionOf(heard, old(nextRequestId))
      ensures r.Ok? ==> nextRequestId == NextId(NextId(Asked(NextId(old(nextRequestId)), |heard| - 2)))
      ensures r.Ok? ==> IsMacQueries(queries, NextId(old(nextRequestId)), |heard| - 2)
      ensures r.Ok? ==>
        Adds(old(transport.sent), transport.sent, BringUpCommands(old(nextRequestId), |heard| - 2, queries))
      ensures var seen := LinkAfter(old(link), Flatten(heard), MSG_SET_C);
              link == if r.Ok? && seen == Unknown then Up else seen
    {
      ghost var id := nextRequestId;
      queries := [];
      var init, replies := Initialize();
      heard := [replies];
      HeardFirst(replies, []);
      SucceedsBy(replies, [], id);
      if init.Err? {
        return Err(init.error), heard, queries;
      }
      ghost var s := transport.sent;
      var mac;
      ghost var more;
      mac, more, queries := Configure();
      heard := heard + more;
      HeardFirst(replies, more);
      SucceedsBy(replies, more, id);
      HeardBoth(old(link), old(transport.received), replies, Flatten(more));
      if mac.Err? {
        return Err(mac.error), heard, queries;
      }
      CommandsOf(old(transport.sent), s, transport.sent, id, |more| - 1, queries);
      if link == Unknown {
        link := Up;
      }
      r := Ok(Session(mac.value, init.value.maxTransferSize,
                      Max(init.value.maxPacketsPerTransfer, 1), Max(init.value.packetAlignment, 1)));
    }
  }

  // ------------------------------------------------------- what makes it work

  predicate InitGood(replies: seq<bytes>, id: u32) {
    && Ends(replies, MSG_INIT_C, id)
    && var d := DecodeInitComplete(Last(replies));
    && d.Ok? && d.value.status == STATUS_SUCCESS && d.value.maxTransferSize > 0
  }

  predicate QueryGood(replies: seq<bytes>, id: u32) {
    && Ends(replies, MSG_QUERY_C, id)
    && var d := DecodeQueryComplete(Last(replies));
    && d.Ok? && d.value.1 == STATUS_SUCCESS
  }

  function Info(replies: seq<bytes>): bytes
    requires replies != [] && DecodeQueryComplete(Last(replies)).Ok?
  {
    DecodeQueryComplete(Last(replies)).value.2
  }

  /** A query answered with a usable address. */
  predicate MacGood(replies: seq<bytes>, id: u32) {
    QueryGood(replies, id) && |Info(replies)| >= 6 && MacIn(replies) != [0, 0, 0, 0, 0, 0]
  }

  function MacIn(replies: seq<bytes>): bytes
    requires replies != [] && DecodeQueryComplete(Last(replies)).Ok? && |Info(replies)| >= 6
  {
    Info(replies)[..6]
  }

  predicate SetGood(replies: seq<bytes>, id: u32) {
    Ends(replies, MSG_SET_C, id) && DecodeCompletion(Last(replies)) == Ok((id, STATUS_SUCCESS))
  }

  /** The id of the last of one or two queries that start at `id`. */
  function Asked(id: u32, asked: nat): u32 {
    if asked <= 1 then id else NextId(id)
  }

  /** One query if its answer is usable, else a second one, which decides. */
  predicate Searched(heard: seq<seq<bytes>>, id: u32, ok: bool) {
    && 1 <= |heard| <= 2
    && (ok <==> MacGood(heard[|heard| - 1], Asked(id, |heard|)))
    && (|heard| == 2 ==> !MacGood(heard[0], id))
    && (!ok ==> |heard| == 2)
  }

  /** The answers to the MAC queries and to SET. */
  predicate Configures(heard: seq<seq<bytes>>, id: u32) {
    && 2 <= |heard| <= 3
    && MacGood(heard[|heard| - 2], Asked(id, |heard| - 1))
    && (|heard| == 3 ==> !MacGood(heard[0], id))
    && SetGood(heard[|heard| - 1], NextId(Asked(id, |heard| - 1)))
  }

  /** The answers of a whole bring-up that starts at request id `id`. */
  predicate Succeeds(heard: seq<seq<bytes>>, id: u32) {
    heard != [] && InitGood(heard[0], id) && Configures(heard[1..], NextId(id))
  }

  function SessionOf(heard: seq<seq<bytes>>, id: u32): (session: Session)
    requires Succeeds(heard, id)
    ensures |session.hostMac| == 6 && session.hostMac != [0, 0, 0, 0, 0, 0]
    ensures session.deviceMaxTransferSize > 0 && session.maxPacketsPerTransfer >= 1
    ensures session.packetAlignment in {1, 2, 4, 8, 16, 32, 64, 128}
  {
    var init := DecodeInitComplete(Last(heard[0])).value;
    Session(MacIn(heard[|heard| - 2]), init.maxTransferSize, Max(init.maxPacketsPerTransfer, 1), init.packetAlignment)
  }

  /** When the last message completes INITIALIZE, by its bytes. */
  lemma InitGoodExactly(replies: seq<bytes>, msg: bytes, id: u32)
    ensures InitGood(replies + [msg], id) <==>
            && |msg| >= 44 && Le32At(msg, 0) == 0x8000_0002 && Le32At(msg, 8) == id
            && Le32At(msg, 12) == 0 && Le32At(msg, 36) != 0
  {
    assert Last(replies + [msg]) == msg;
  }

  /** When it completes a query with success, and with what. */
  lemma QueryGoodExactly(replies: seq<bytes>, msg: bytes, id: u32)
    ensures QueryGood(replies + [msg], id) <==>
            && |msg| >= 24 && Le32At(msg, 0) == 0x8000_0004 && Le32At(msg, 8) == id && Le32At(msg, 12) == 0
            && 8 + Le32At(msg, 20) + Le32At(msg, 16) <= |msg|
    ensures QueryGood(replies + [msg], id) ==>
            Info(replies + [msg]) == msg[8 + Le32At(msg, 20)..8 + Le32At(msg, 20) + Le32At(msg, 16)]
  {
    assert Last(replies + [msg]) == msg;
  }

  /** When that is a usable MAC: its first six bytes, if there are six and not all are zero. */
  lemma MacGoodExactly(replies: seq<bytes>, msg: bytes, id: u32)
    ensures MacGood(replies + [msg], id) <==>
            && QueryGood(replies + [msg], id) && Le32At(msg, 16) >= 6
            && msg[8 + Le32At(msg, 20)..8 + Le32At(msg, 20) + 6] != [0, 0, 0, 0, 0, 0]
    ensures MacGood(replies + [msg], id) ==>
            MacIn(replies + [msg]) == msg[8 + Le32At(msg, 20)..8 + Le32At(msg, 20) + 6]
  {
    QueryGoodExactly(replies, msg, id);
    if QueryGood(replies + [msg], id) && Le32At(msg, 16) >= 6 {
      var start := 8 + Le32At(msg, 20);
      assert Info(replies + [msg])[..6] == msg[start..start + 6];
    }
  }

  /** When it completes SET with success. */
  lemma SetGoodExactly(replies: seq<bytes>, msg: bytes, id: u32)
    ensures SetGood(replies + [msg], id) <==>
            && |msg| >= 16 && Le32At(msg, 0) == 0x8000_0005 && Le32At(msg, 8) == id && Le32At(msg, 12) == 0
  {
    assert Last(replies + [msg]) == msg;
  }

  lemma SucceedsBy(replies: seq<bytes>, more: seq<seq<bytes>>, id: u32)
    ensures Succeeds([replies] + more, id) <==> InitGood(replies, id) && Configures(more, NextId(id))
    ensures Succeeds([replies] + more, id) ==>
              var init := DecodeInitComplete(Last(replies)).value;
              SessionOf([replies] + more, id)
              == Session(MacIn(more[|more| - 2]), init.maxTransferSize,
                         Max(init.maxPacketsPerTransfer, 1), Max(init.packetAlignment, 1))
  {
    assert ([replies] + more)[1..] == more;
    assert [replies] + [] == [replies];
  }

  // ------------------------------------------------------- a device that does

  /** The answers of a device, each to the request with this id. */
  function InitAnswer(id: u32, packets: u32, size: u32, exponent: u32): bytes {
    LeWords([0x8000_0002, 52, id, 0, 1, 0, 1, 0, packets, size, exponent, 0, 0])
  }

  function MacAnswer(id: u32, mac: bytes): bytes
    requires |mac| == 6
  {
    LeWords([0x8000_0004, 30, id, 0, 6, 16]) + mac
  }

  function SetAnswer(id: u32): bytes {
    LeWords([0x8000_0005, 16, id, 0])
  }

  lemma InitAnswerGood(id: u32, packets: u32, size: u32, exponent: u32)
    requires size > 0
    ensures InitGood([InitAnswer(id, packets, size, exponent)], id)
    ensures DecodeInitComplete(InitAnswer(id, packets, size, exponent))
         == Ok(InitComplete(id, STATUS_SUCCESS, 1, 0, 0, packets, size, ExpandAlignment(exponent)))
  {
    var ws: seq<u32> := [MSG_INIT_C, 52, id, STATUS_SUCCESS, 1, 0, 1, 0, packets, size, exponent, 0, 0];
    assert LeWords(ws) + [] == LeWords(ws);
    InitCompleteReads(ws, []);
    LeWordsAt(ws, 0);
    LeWordsAt(ws, 2);
  }

  lemma MacAnswerGood(id: u32, mac: bytes)
    requires |mac| == 6 && mac != [0, 0, 0, 0, 0, 0]
    ensures MacGood([MacAnswer(id, mac)], id) && MacIn([MacAnswer(id, mac)]) == mac
  {
    var ws: seq<u32> := [MSG_QUERY_C, 30, id, STATUS_SUCCESS, 6, 16];
    assert [] + mac + [] == mac;
    QueryCompleteReads(id, 30, [], mac, []);
    WordAt(ws, mac, 0);
    WordAt(ws, mac, 2);
    assert mac[..6] == mac;
  }

  lemma SetAnswerGood(id: u32)
    ensures SetGood([SetAnswer(id)], id)
  {
    var ws: seq<u32> := [MSG_SET_C, 16, id, STATUS_SUCCESS];
    assert LeWords(ws) + [] == LeWords(ws);
    WordAt(ws, [], 0);
    WordAt(ws, [], 2);
    WordAt(ws, [], 3);
  }

  /**
   * Every session can be had: for any request id, non-zero MAC, limits and
   * alignment exponent there are three answers that bring the link up with them.
   */
  lemma EverySessionIsReached(id: u32, mac: bytes, packets: u32, size: u32, exponent: u32)
    returns (heard: seq<seq<bytes>>)
    requires |mac| == 6 && mac != [0, 0, 0, 0, 0, 0] && size > 0
    ensures Succeeds(heard, id)
    ensures SessionOf(heard, id)
         == Session(mac, size, if packets == 0 then 1 else packets,
                    if exponent < 8 then [1, 2, 4, 8, 16, 32, 64, 128][exponent] else 1)
    ensures heard == GoodAnswers(id, mac, packets, size, exponent)
  {
    InitAnswerGood(id, packets, size, exponent);
    AlignmentTable(exponent);
    MacAnswerGood(NextId(id), mac);
    SetAnswerGood(NextId(NextId(id)));
    heard := GoodAnswers(id, mac, packets, size, exponent);
    assert heard[1..] == [[MacAnswer(NextId(id), mac)], [SetAnswer(NextId(NextId(id)))]];
  }

  function GoodAnswers(id: u32, mac: bytes, packets: u32, size: u32, exponent: u32): seq<seq<bytes>>
    requires |mac| == 6
  {
    [[InitAnswer(id, packets, size, exponent)], [MacAnswer(NextId(id), mac)], [SetAnswer(NextId(NextId(id)))]]
  }

  // ------------------------------------------------------- what the device says

  /** The kinds of completion a command waits for. */
  predicate IsCompletion(kind: u32) {
    kind in {0x8000_0002, 0x8000_0004, 0x8000_0005}
  }

  /**
   * A message of the device while a completion is awaited: an indication of
   * status 0x4001000B or 0x4001000C sets the link up or down, a keepalive is owed
   * a completion with its own id, and no other message does either.
   */
  lemma {:induction false} DeviceMessages(
      link: LinkState, replies: seq<bytes>, awaited: u32, kind: u32, len: u32, word: u32, rest: bytes)
    requires IsCompletion(awaited)
    ensures var msg, before := LeWords([kind, len, word]) + rest, LinkAfter(link, replies, awaited);
            && LinkAfter(link, replies + [msg], awaited)
               == (if kind == 7 && word == 0x4001_000B then Up
                   else if kind == 7 && word == 0x4001_000C then Down
                   else before)
            && Acks(replies + [msg], awaited)
               == Acks(replies, awaited) + if kind == 8 then [LeWords([0x8000_0008, 16, word, 0])] else []
  {
    var msg := LeWords([kind, len, word]) + rest;
    WordAt([kind, len, word], rest, 0);
    WordAt([kind, len, word], rest, 2);
    LinkOne(link, replies, msg, awaited);
    assert (replies + [msg])[..|replies|] == replies;
  }

  /** A message too short for a header and an id does neither. */
  lemma {:induction false} ShortMessages(link: LinkState, replies: seq<bytes>, awaited: u32, msg: bytes)
    requires |msg| < 12
    ensures LinkAfter(link, replies + [msg], awaited) == LinkAfter(link, replies, awaited)
    ensures Acks(replies + [msg], awaited) == Acks(replies, awaited)
  {
    LinkOne(link, replies, msg, awaited);
    assert (replies + [msg])[..|replies|] == replies;
    assert Acks(replies, awaited) + [] == Acks(replies, awaited);
  }

  // ------------------------------------------------------------ link state

  lemma {:induction false} LinkAnyCompletion(link: LinkState, replies: seq<bytes>, awaited: u32)
    requires awaited != MSG_INDICATE
    ensures LinkAfter(link, replies, awaited) == LinkAfter(link, replies, MSG_SET_C)
  {
    if replies != [] {
      LinkAnyCompletion(link, replies[..|replies| - 1], awaited);
    }
  }

  lemma {:induction false} LinkConcat(link: LinkState, a: seq<bytes>, b: seq<bytes>)
    ensures LinkAfter(link, a + b, MSG_SET_C) == LinkAfter(LinkAfter(link, a, MSG_SET_C), b, MSG_SET_C)
    decreases |b|
  {
    if b == [] {
      assert a + b == a;
    } else {
      var n := |b| - 1;
      assert (a + b)[..|a| + n] == a + b[..n];
      LinkConcat(link, a, b[..n]);
    }
  }

  /** Two stretches of replies are one. */
  lemma {:induction false} HeardBoth(link: LinkState, received: seq<bytes>, a: seq<bytes>, b: seq<bytes>)
    ensures LinkAfter(LinkAfter(link, a, MSG_SET_C), b, MSG_SET_C) == LinkAfter(link, a + b, MSG_SET_C)
    ensures received + a + b == received + (a + b)
  {
    LinkConcat(link, a, b);
    Assoc(received, a, b);
  }

  lemma {:induction false} HeardMore(link: LinkState, received: seq<bytes>, heard: seq<seq<bytes>>, replies: seq<bytes>)
    ensures LinkAfter(LinkAfter(link, Flatten(heard), MSG_SET_C), replies, MSG_SET_C)
         == LinkAfter(link, Flatten(heard + [replies]), MSG_SET_C)
    ensures received + Flatten(heard) + replies == received + Flatten(heard + [replies])
  {
    FlattenAppend(heard, replies);
    HeardBoth(link, received, Flatten(heard), replies);
  }

  lemma {:induction false} HeardFirst(replies: seq<bytes>, more: seq<seq<bytes>>)
    ensures Flatten([replies] + more) == replies + Flatten(more)
    ensures Flatten([replies]) == replies
  {
    assert ([replies] + more)[1..] == more;
    assert [replies][1..] == [];
  }

  // --------------------------------------------------------- order of commands

  predicate IsAck(msg: bytes) {
    |msg| == 16 && msg == EncodeKeepaliveComplete(Le32At(msg, 8))
  }

  /** The commands among what was sent, without the keepalive completions. */
  function Commands(sent: seq<bytes>): seq<bytes> {
    if sent == [] then []
    else
      var n := |sent| - 1;
      Commands(sent[..n]) + if IsAck(sent[n]) then [] else [sent[n]]
  }

  /** From `before` to `after`, these commands went out. */
  ghost predicate Adds(before: seq<bytes>, after: seq<bytes>, commands: seq<bytes>) {
    Commands(after) == Commands(before) + commands
  }

  lemma AddsNothing(sent: seq<bytes>)
    ensures Adds(sent, sent, [])
  {
  }

  lemma AddsTwice(s0: seq<bytes>, s1: seq<bytes>, s2: seq<bytes>, a: seq<bytes>, b: seq<bytes>)
    requires Adds(s0, s1, a) && Adds(s1, s2, b)
    ensures Adds(s0, s2, a + b)
  {
    Assoc(Commands(s0), a, b);
  }

  /** The command went out once, or perhaps not if it failed. */
  ghost predicate Issued(before: seq<bytes>, after: seq<bytes>, msg: bytes, ok: bool) {
    Adds(before, after, [msg]) || (!ok && Adds(before, after, []))
  }

  lemma IssuedNext(
      s0: seq<bytes>, s1: seq<bytes>, s2: seq<bytes>, commands: seq<bytes>, msg: bytes, ok: bool)
    returns (now: seq<bytes>)
    requires Adds(s0, s1, commands) && Issued(s1, s2, msg, ok)
    ensures Adds(s0, s2, now)
    ensures now == commands + [msg] || (!ok && now == commands)
  {
    if Adds(s1, s2, [msg]) {
      now := commands + [msg];
      AddsTwice(s0, s1, s2, commands, [msg]);
    } else {
      now := commands;
      AddsTwice(s0, s1, s2, commands, []);
      assert commands + [] == commands;
    }
  }

  lemma {:induction false} CommandsConcat(a: seq<bytes>, b: seq<bytes>)
    ensures Commands(a + b) == Commands(a) + Commands(b)
    decreases |b|
  {
    if b == [] {
      assert a + b == a;
    } else {
      var n := |b| - 1;
      assert (a + b)[..|a| + n] == a + b[..n];
      CommandsConcat(a, b[..n]);
      Assoc(Commands(a), Commands(b[..n]), if IsAck(b[n]) then [] else [b[n]]);
    }
  }

  ghost predicate AllAcks(msgs: seq<bytes>) {
    forall i :: 0 <= i < |msgs| ==> IsAck(msgs[i])
  }

  lemma CompletionIsAck(id: u32)
    ensures IsAck(EncodeKeepaliveComplete(id))
  {
    LeWordsAt([MSG_KEEPALIVE_C, 16, id, STATUS_SUCCESS], 2);
  }

  lemma {:induction false} AcksAreAcks(replies: seq<bytes>, awaited: u32)
    ensures AllAcks(Acks(replies, awaited))
  {
    if replies != [] {
      var n := |replies| - 1;
      AcksAreAcks(replies[..n], awaited);
      if Owed(replies[n], awaited) != [] {
        CompletionIsAck(Le32At(replies[n], 8));
      }
    }
  }

  lemma {:induction false} AcksAreNoCommands(acks: seq<bytes>)
    requires AllAcks(acks)
    ensures Commands(acks) == []
  {
    if acks != [] {
      AcksAreNoCommands(acks[..|acks| - 1]);
    }
  }

  /** A command is told from an acknowledgement by its first word. */
  lemma NotAck(msg: bytes)
    requires |msg| >= 4 && Le32At(msg, 0) != MSG_KEEPALIVE_C
    ensures !IsAck(msg)
  {
    if IsAck(msg) {
      LeWordsAt([MSG_KEEPALIVE_C, 16, Le32At(msg, 8), STATUS_SUCCESS], 0);
    }
  }

  lemma CommandKinds(id: u32, oid: u32, data: bytes)
    ensures |EncodeInit(id, oid)| >= 4 && Le32At(EncodeInit(id, oid), 0) == MSG_INIT
    ensures |EncodeQuery(id, oid)| >= 4 && Le32At(EncodeQuery(id, oid), 0) == MSG_QUERY
    ensures |EncodeSet(id, oid, data)| >= 4 && Le32At(EncodeSet(id, oid, data), 0) == MSG_SET
  {
    WordAt([MSG_INIT, 24, id, 1, 0, oid], [], 0);
    WordAt([MSG_QUERY, 28, id, oid, 0, 0, 0], [], 0);
    assert EncodeInit(id, oid) + [] == EncodeInit(id, oid);
    assert EncodeQuery(id, oid) + [] == EncodeQuery(id, oid);
    WordAt([MSG_SET, AsU32(28 + |data|), id, oid, AsU32(|data|), 28 - OFFSET_BASE, 0], data, 0);
  }

  lemma IssuedBy(before: seq<bytes>, after: seq<bytes>, msg: bytes, acks: seq<bytes>, ok: bool)
    requires AllAcks(acks)
    requires after <= before + [msg] + acks && before <= after
    requires ok ==> after == before + [msg] + acks
    requires |msg| >= 4 && Le32At(msg, 0) != MSG_KEEPALIVE_C
    ensures Issued(before, after, msg, ok)
  {
    if |after| == |before| {
      assert after == before;
    } else {
      var some := acks[..|after| - |before| - 1];
      assert after == before + [msg] + some;
      AcksAreNoCommands(some);
      CommandsConcat(before + [msg], some);
      CommandsConcat(before, [msg]);
      NotAck(msg);
      assert [msg][..0] == [];
    }
  }

  /**
   * One query is for the permanent address. Two are for the permanent and the
   * current one, of which the failed one may not have gone out.
   */
  ghost predicate IsMacQueries(queries: seq<bytes>, id: u32, asked: nat) {
    var permanent := LeWords([4, 28, id, 0x0101_0101, 0, 0, 0]);
    var current := LeWords([4, 28, NextId(id), 0x0101_0102, 0, 0, 0]);
    if asked == 1 then queries == [permanent]
    else asked == 2 && (queries == [permanent, current] || queries == [current])
  }

  /** SET of the packet filter: directed, all multicast, broadcast and promiscuous. */
  function FilterCommand(id: u32): bytes {
    LeWords([5, 32, id, 0x0001_010E, 4, 20, 0]) + [0x2F, 0, 0, 0]
  }

  lemma FilterIs(id: u32)
    ensures FilterCommand(id) == EncodeSet(id, OID_GEN_CURRENT_PACKET_FILTER, Le32(DEFAULT_PACKET_FILTER))
  {
    FilterBytes();
    SetIs(id, OID_GEN_CURRENT_PACKET_FILTER, [0x2F, 0, 0, 0]);
  }

  lemma FilterBytes()
    ensures Le32(DEFAULT_PACKET_FILTER) == [0x2F, 0, 0, 0]
  {
    WireOrders(DEFAULT_PACKET_FILTER, [0, 0, 0, 0], 0);
  }

  lemma SetIs(id: u32, oid: u32, data: bytes)
    requires |data| == 4
    ensures EncodeSet(id, oid, data) == LeWords([5, 32, id, oid, 4, 20, 0]) + data
  {
    var ws: seq<u32> := [MSG_SET, AsU32(28 + |data|), id, oid, AsU32(|data|), 28 - OFFSET_BASE, 0];
    assert ws == [5, 32, id, oid, 4, 20, 0];
  }

  /** The commands of a bring-up that starts at request id `id` and asks for the MAC `asked` times. */
  function BringUpCommands(id: u32, asked: nat, queries: seq<bytes>): seq<bytes> {
    [LeWords([2, 24, id, 1, 0, 16384])] + (queries + [FilterCommand(NextId(Asked(NextId(id), asked)))])
  }

  lemma CommandsOf(s0: seq<bytes>, s1: seq<bytes>, s2: seq<bytes>, id: u32, asked: nat, queries: seq<bytes>)
    requires Issued(s0, s1, EncodeInit(id, HOST_MAX_TRANSFER_SIZE), true)
    requires Adds(s1, s2, queries + [FilterCommand(NextId(Asked(NextId(id), asked)))])
    ensures Adds(s0, s2, BringUpCommands(id, asked, queries))
  {
    AddsTwice(s0, s1, s2, [EncodeInit(id, HOST_MAX_TRANSFER_SIZE)],
              queries + [FilterCommand(NextId(Asked(NextId(id), asked)))]);
  }
}
