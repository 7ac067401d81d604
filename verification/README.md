# Packet path of `muta`, verified

`muta` is a user-space USB tethering daemon: it speaks RNDIS to a phone over USB and carries IP packets
between the phone and a tunnel. This project models its hardware-free packet path in Dafny 4.11 and proves
properties of it: the transmit batcher and the RNDIS framing, the DHCP client and its retransmit timer,
IPv4/UDP with the Internet checksum, the USB endpoint queues under stalls, the RNDIS control channel, and ARP.

`dafny verify dfyconfig.toml` checks everything.

## How it is laid out

| file | what it models |
|---|---|
| `Bytes.dfy` | bytes, byte orders, division facts |
| `RndisWire.dfy`, `RndisPacket.dfy`, `RndisControl.dfy` | `src/rndis/wire.rs`, `packet.rs`, `control.rs` |
| `Ethernet.dfy`, `Checksum.dfy`, `Ipv4.dfy`, `Arp.dfy` | `src/netstack/ethernet.rs`, `ipv4.rs`, `arp.rs` |
| `DhcpMessage.dfy`, `Dhcp.dfy`, `XidCycle.dfy` | `src/netstack/dhcp.rs`: messages, client, transaction ids |
| `DhcpRun.dfy` | the client together with `DhcpTimer` of `src/link.rs`, over whole runs |
| `DhcpReply.dfy` | a server's replies and what they do in every state of the client |
| `DomainText.dfy` | the text check on the domain option |
| `Usb.dfy` | the endpoint contracts of `src/usb/backend.rs`, and the shutdown flag |
| `Packing.dfy` | which frames the transmit thread puts into one transfer |
| `LinkTx.dfy`, `LinkRx.dfy` | the transmit and receive threads of `src/link.rs` |
| `LinkRuns.dfy`, `LinkHistory.dfy` | whole runs of the receive thread, whole paths of a packet |

Formats are pinned down by the bytes themselves: theorems about the wire name offsets, codes and constants as numbers,
not by the names the code uses.

State that the source updates in place is a class with the source's fields; each of its methods is proved against
a function on plain values, and the theorems are about those functions over every run. Loops stay loops.
Parsers and encoders that only compute are functions.

The environment is adversarial. Endpoints, the control transport, the frame channel, the clock and the shutdown
flag are classes that keep their own record of every call and choose freely among everything their contract allows,
or follow any script, so a caller's contract speaks of what they returned and holds against any of them. Clock
readings are natural numbers of nanoseconds that never decrease. The shutdown flag (`Usb.Latch`) is never lowered
and is raised after some unknown number of readings; the same class stands for the deadline of a control transaction.

## Where code and comments differ

The model follows the code.

- `fits` looks at neither the alignment padding nor the terminator byte, so a transfer can exceed the advertised
  size. `LinkTx.NeverOversize` says exactly for which limits it never does, `LinkTx.OvershootExample` shows one
  where it does.
- `checksum` is not "exactly as if the parts were concatenated" in two cases: an empty part that follows an odd
  prefix with more data to come, and input whose sum does not fit the 32-bit accumulator. `Checksum.SplitExactly`
  says exactly for which part lengths it is; `Checksum.GapExample` and `Checksum.LongDisagrees` show the two failures.
- A length that does not fit its field is narrowed silently. `RndisPacket.FramingInverse` and `Ipv4.UdpRoundTrip`
  say exactly when the round trip survives.
- The renewal REQUEST is called unicast but goes out as a broadcast from 0.0.0.0 like every other message
  (`LinkRuns.OutboxSound`).
- A stall is said to be cleared so that it cannot wedge transmission, but one that comes back while a flush waits for
  a slot, or while a recovery drains the queue, is dropped unseen. `LinkTx.TxLoop` says exactly when there is one
  recovery for every stall, `LinkTx.LostStallExample` is a run with a stall that has none.
- A NAK drops the lease but ARP keeps answering for its address. `LinkRuns.AnswersForLease` says exactly when
  the two agree, `LinkHistory.RefusalKeepsAddress` gives a run after which they do not.
- The learning filter of ARP does not cover the direct insertion made when a lease is bound.
  `LinkHistory.CleanExactly` says exactly which runs keep the table free of what the filter refuses,
  `LinkHistory.GrantTaints` gives runs that do not.

## Model

The results come first, then the methods they rest on.

| member | source | states |
|---|---|---|
| `LinkTx.TxLoop` | src/link.rs:257-312 | For every queue of frames, every way it arrives in bursts and every endpoint: if the channel closes before shutdown, decoding all submitted transfers in order gives exactly the frames within the device's limit, each once and in order, if and only if their messages have 32-bit lengths, and which frames share a transfer is a function of the bursts; under shutdown decoding gives a prefix. `sent`, `transfers` and `bytes` are the totals of what was submitted, in both cases. Never are more than 8 writes pending; every transfer is followed at once by a thorough reaping, and so is the end of the run. Of all that the endpoint's waits returned, every stall met by a reaping was recovered from, with the halt cleared exactly where the queue drained; recoveries and stalls returned are equally many if and only if none came back to a flush waiting for a slot or to a recovery under way. |
| `LinkTx.RecoveredExactly` | src/link.rs:314-375 | The stalls among all that the waits returned are those met by a reaping, by a wait for a slot and by a recovery; only the first kind is recovered from, so recoveries are as many as stalls exactly when there is no other. |
| `LinkTx.LostStallExample` | src/link.rs:235-240 | A run in which eight transfers fill the queue and a stall comes back to the ninth flush: it stays without a recovery. |
| `LinkTx.NeverOversize` | src/link.rs:213-233 | Over every way the frames can arrive, no transfer exceeds the advertised size if and only if that size is aligned and no multiple of the USB packet size, or too small for any frame, or `max_packets` is zero. |
| `LinkTx.FullFrameExceeds` | src/link.rs:213-233 | In every other case the largest frame admitted, sent on its own, must leave in a transfer that is too long. |
| `LinkTx.AcceptedEncodable` | src/link.rs:213-217 | Unless the device limit is within one alignment unit of 4 GiB, every frame it admits has a 32-bit message length, so the refinement holds unconditionally. |
| `LinkTx.AllWithinLimits` | src/link.rs:228-233 | Every transfer carries 1 to `max_packets` messages and a terminator exactly when their length is a multiple of the packet size; for a packet size of 2 or more it is no multiple of it, and it is at most one alignment unit over the advertised size, or one byte where that size is aligned. |
| `LinkTx.OvershootExample` | src/link.rs:213-217 | A frame admitted at 45 bytes can only leave as a transfer of 47. |
| `LinkTx.DecodeAllCarried` | src/rndis/packet.rs:15-97 | Decoding a list of transfers gives the frames packed into them when all lengths fit, and visibly diverges from them when one does not. |
| `Packing.FewestTransfers` | src/link.rs:198-198 | However the frames came in, no way to send each burst in order in transfers the device takes, by its two limits alone (with or without the last message's padding counted), needs fewer transfers than the thread does. |
| `Packing.StaysAhead` | src/link.rs:287-306 | The exchange argument behind it: filling each transfer as it comes never falls behind another split, wherever that one cuts. |
| `Packing.ClosedAreTaken` | src/link.rs:213-222 | Every transfer closed is itself within the packet limit and, but for its last padding, the size limit. |
| `Packing.DroppedIsTooLong` | src/link.rs:294-300 | A frame is dropped only if the device could not take it in any transfer. |
| `Packing.BinContents` | src/link.rs:287-306 | Every frame within the limit is in exactly one transfer or in the open batch, in order, and no other is. |
| `RndisPacket.FramingInverse` | src/rndis/packet.rs:15-97 | For every frame list, alignment and trailer shorter than a header, decoding the messages gives the frames back if and only if every message length fits 32 bits. |
| `RndisPacket.DecodeByHeader` | src/rndis/packet.rs:70-97 | Every step of the decoder on any bytes, by the four words at the front: what is yielded and where the next message starts, or which of the three errors ends it. |
| `RndisPacket.DecodeWire` | src/rndis/packet.rs:70-97 | Every packet message a device may send, with any further header words, per-packet information in front of the frame and padding behind it, yields its frame. |
| `RndisPacket.MessageIsWire` | src/rndis/packet.rs:15-39 | What we send is such a message (section 2.2.14 of [MS-RNDIS]) with all further words zero, no information and zero padding. |
| `RndisPacket.MessagesStartAligned` | src/rndis/packet.rs:16-18 | Whatever messages precede it, a message starts at a multiple of the alignment, and none is longer than that takes. |
| `RndisPacket.DecodeAnything` | src/rndis/packet.rs:54-97 | On arbitrary bytes: at most one item per 44 bytes, all frames except possibly the last, and the frames are slices of the transfer that neither overlap nor go backwards. |
| `RndisControl.RequestIdsDistinct` | src/rndis/control.rs:184-188 | Request ids are never zero, and two of them coincide exactly when taken a multiple of 2^32 - 1 calls apart. |
| `RndisControl.EverySessionIsReached` | src/rndis/control.rs:72-106 | For any request id, non-zero MAC, limits and alignment exponent there are three answers of a device that satisfy the condition for a bring-up to succeed, and the session is the one they describe. |
| `RndisControl.DeviceMessages` | src/rndis/control.rs:221-239 | A message of the device while a completion is awaited: status 0x4001000B or 0x4001000C in an indication sets the link up or down, a keepalive is owed a completion with its own id, no other message does either. |
| `RndisControl.InitGoodExactly` | src/rndis/control.rs:108-123 | By its bytes, when a message completes INITIALIZE with success. |
| `RndisControl.QueryGoodExactly` | src/rndis/wire.rs:179-196 | By its bytes, when a message completes a query with success, and where the information lies. |
| `RndisControl.MacGoodExactly` | src/rndis/control.rs:132-143 | When that information is a usable MAC. |
| `RndisControl.SetGoodExactly` | src/rndis/wire.rs:199-201 | By its bytes, when a message completes SET with success. |
| `Checksum.SplitExactly` | src/netstack/ipv4.rs:22-51 | For any list of part lengths: what the routine returns is the checksum of the concatenation, on all contents, if and only if no empty part sits between an odd prefix and later data and the lengths add up to at most 131074. |
| `Checksum.NoOverflow` | src/netstack/ipv4.rs:23-45 | Seamless input of at most 131074 bytes cannot overflow the accumulator. |
| `Checksum.LongDisagrees` | src/netstack/ipv4.rs:23-45 | Every longer list of lengths has a content on which the accumulator wraps and the result is wrong. |
| `Checksum.SplitIsFlat` | src/netstack/ipv4.rs:26-45 | On such input the split sum is the word sum of section 1 of RFC 1071. |
| `Checksum.GapExample` | src/netstack/ipv4.rs:28-34 | An empty part between two single bytes changes the sum. |
| `Checksum.FoldValue` | src/netstack/ipv4.rs:47-49 | Folding is reduction modulo 0xFFFF into 1..0xFFFF, with only zero going to zero. |
| `Checksum.FoldCancels` | src/netstack/ipv4.rs:94-101 | A sum plus its own complemented fold, or plus 0xFFFF standing in for zero, folds to all ones. |
| `Ipv4.ChecksumsVerify` | src/netstack/ipv4.rs:54-104 | For every payload up to 65507 bytes a receiver reads the packet's fields where section 3.1 of RFC 791 and RFC 768 put them, and both checksums, with the pseudo-header taken from the packet's own bytes, come out as zero; the UDP field is never zero; the 32-bit sum does not overflow. |
| `Ipv4.UdpRoundTrip` | src/netstack/ipv4.rs:54-149 | A built packet parses back to its datagram, whatever padding follows, if and only if the payload is at most 65507 bytes. |
| `Ipv4.ParseExactly` | src/netstack/ipv4.rs:108-149 | Exactly which packets are taken: IPv4 with any options, UDP, consistent lengths, no fragment; and what is then read from where. |
| `Ipv4.OptionsTolerated` | src/netstack/ipv4.rs:106-149 | A datagram behind any IPv4 options, with anything in the fields not looked at, behind the datagram and as padding, is taken as it is. |
| `Ethernet.ParseBuild` | src/netstack/ethernet.rs:62-83 | A built frame is destination, source and type in this order and the payload filled up to 60 bytes; it parses back, its payload with the padding. |
| `Ethernet.ParseFrame` | src/netstack/ethernet.rs:62-72 | A frame is taken exactly if it has a whole header, and is read in that order. |
| `Bytes.WireOrders` | src/rndis/wire.rs:62-70 | Which byte of a word comes first in each of the two orders. |
| `XidCycle.FullPeriod` | src/netstack/dhcp.rs:119-120 | The transaction id returns to its start after n rounds if and only if 2^32 divides n. |
| `XidCycle.ClosedForm` | src/netstack/dhcp.rs:119-120 | n wrapping steps move the id by the geometric sum of length n times an odd number, modulo 2^32. |
| `XidCycle.GeometricValuation` | src/netstack/dhcp.rs:119-120 | That geometric sum is divisible by exactly the powers of two that divide its length. |
| `XidCycle.KnownIds` | src/netstack/dhcp.rs:119-120 | The wrapping step is the linear congruential one, and gives the published ids from zero. |
| `Dhcp.StaleRepliesIgnored` | src/netstack/dhcp.rs:115-150 | Whatever the client does in between, it answers to an old transaction id exactly when a multiple of 2^32 rounds began since; otherwise a parseable reply to it is ignored and changes no field. |
| `DhcpMessage.LastOccurrenceWins` | src/netstack/dhcp.rs:353-369 | Each field of an accepted message is decided by the last option of its code that is long enough; for DNS and domain by the last one of any length. |
| `DhcpMessage.MeaningExactly` | src/netstack/dhcp.rs:316-376 | Exactly which messages are taken: a BOOTP reply with the cookie, whole options and a type among them. |
| `DomainText.Utf8Exactly` | src/netstack/dhcp.rs:359-364 | The text check on the domain accepts exactly the encodings of sequences of Unicode scalar values (section 3 of RFC 3629). |
| `DhcpMessage.ScanWritten` | src/netstack/dhcp.rs:273-277 | Written options, with pads in between, scan back to the same list in front of whatever follows. |
| `DhcpMessage.ScanAccepts` | src/netstack/dhcp.rs:335-351 | A body is accepted exactly when it is whole options and pads, ended by END or by its end. |
| `DhcpMessage.EncodeReads` | src/netstack/dhcp.rs:210-270 | Every built message is 300 bytes, its fixed fields read back and its options scan back to the list written. |
| `DhcpReply.ReplyMeans` | src/netstack/dhcp.rs:316-376 | Every server reply in wire form, with any options and anything behind its END, is read as its fixed fields and a fold over its options, or refused for naming no type. |
| `DhcpReply.ReplyHandled` | src/netstack/dhcp.rs:146-208 | Every wire reply in every state: no type is an error, another transaction or MAC is ignored, an OFFER is taken while selecting, an ACK with an address grants a lease each field of which is what the last option of its code says or the stated default, a NAK takes it away, all else changes nothing. |
| `DhcpReply.RenewsAsTold` | src/link.rs:467-490 | After an ACK the renewal goes out exactly when option 58 says, else half of option 51, else half an hour later. |
| `DhcpRun.AlwaysAgree` | src/link.rs:397-497 | Over every run, the timer knows of a renewal exactly while the client is bound, a lease with an address is held exactly while bound or renewing, and an address is on offer whenever one is requested. |
| `DhcpRun.ExpiredPollSends` | src/link.rs:480-496 | In every reachable state a poll sends exactly when the timer has expired, begins a new round exactly from the idle state, and renews exactly from the bound or renewing one. |
| `DhcpRun.SentConforms` | src/netstack/dhcp.rs:125-144 | Over every run each message sent is 300 bytes and says what its state demands: DISCOVER and new REQUEST with zero address and broadcast flag, a renewal with the non-zero lease address, no flag and neither option 50 nor 54. |
| `DhcpRun.RequestNamesOffer` | src/netstack/dhcp.rs:153-164 | Over every run each REQUEST for a new lease, first or repeated, names the address and server of the OFFER accepted in the same round. |
| `DhcpRun.LeaseFollowsOffer` | src/netstack/dhcp.rs:152-170 | Over every run a lease comes only from an ACK of the round of an OFFER accepted earlier, with no other round begun since, and has the address that ACK names. |
| `DhcpRun.LeaseWasGranted` | src/netstack/dhcp.rs:165-176 | The lease held at any point is the one the last grant put out, with no grant and no refusal since. |
| `DhcpRun.RenewsOnTime` | src/link.rs:467-490 | After a lease is granted, a conforming renewal is sent at its renewal time and not before. |
| `DhcpReply.EveryStateIsReached` | src/netstack/dhcp.rs:115-180 | For every MAC and every address a server can name there is a run through all states: offered, bound, renewing, refused, started over. |
| `DhcpRun.BackoffDoubles` | src/link.rs:480-496 | From a reset timer and without an answer, the backoff after k timer sends is the k-th and the next send is not due before all those backoffs have passed one after another. |
| `DhcpRun.BackoffInSeconds` | src/link.rs:492-492 | The k-th backoff is min(2^k, 16) seconds. |
| `DhcpRun.TimerResets` | src/link.rs:458-490 | Where the backoff begins: one second after the first DISCOVER and after a renewal was sent, at once after a refusal, at the renewal time after a grant. |
| `DhcpRun.SendsSpaced` | src/link.rs:480-496 | After a timer send and no answer, the next poll sends if and only if the backoff that send set has passed. |
| `Arp.LookupAgreesWithHistory` | src/netstack/arp.rs:103-118 | Over every history of calls, a lookup returns the MAC learned last for the address exactly while it is under 300 s old. |
| `Arp.LearnsFrom` | src/netstack/arp.rs:147-154 | Every packet, request or reply, teaches its sender's address for 300 s and nothing else, unless the sender has no address or a group MAC. |
| `Arp.AnswerResolves` | src/netstack/arp.rs:121-154 | A question put on the wire is settled by its answer. |
| `Arp.MalformedIgnored` | src/netstack/arp.rs:34-46 | Exactly which packets are refused, and that they change nothing. |
| `Arp.RequestsAreSpaced` | src/netstack/arp.rs:121-143 | Over every history on a monotone clock, a request goes out exactly when none for the same address did in the second before. |
| `Arp.RequestsAsk` | src/netstack/arp.rs:121-143 | Over every history, every request put on the wire is a broadcast that reads back as our question for the address, asked from the address set last. |
| `Arp.RepliesAnswer` | src/netstack/arp.rs:147-174 | A reply goes out exactly for a well-formed request naming our own, assigned address, and reads back as that address answering the asker. |
| `Arp.OnlyInsertionTaints` | src/netstack/arp.rs:150-154 | Over every history of calls the table stays free of the unspecified address and of group MACs if and only if no direct insertion has one: the filter covers all that is heard. |
| `Arp.PacketRoundTrip` | src/netstack/arp.rs:34-68 | A built packet has the bytes of RFC 826 for Ethernet and IPv4, and parses back, whatever padding follows. |
| `LinkRx.Rx.RxLoop` | src/link.rs:385-449 | Against any endpoint: the thread ends on shutdown, or with one failure event, which is last and is the one that what the endpoint's waits and halt clearings returned determines (a fatal error, the sixth stall since the last successful read, or a failed recovery, and nothing else). What was routed and changed is what the successful reads make of it, with one poll of the timer after every wait that did not end the thread. The readings are those of the clock, each used once and in order; everything queued is cancelled once per tolerated stall. |
| `LinkRx.VerdictTable` | src/link.rs:411-442 | Which waits end the thread: a lost or missing device at once, the sixth stall, an earlier stall whose halt could not be cleared; a read, a timeout or any other error does not. |
| `LinkRx.StallRunMeans` | src/link.rs:409-423 | The count kept is the number of stalls since the last successful read. |
| `LinkRuns.DispatchExact` | src/link.rs:517-582 | For every transfer and every taker (ARP, DHCP client, sink): it receives something of exactly those frames before the first framing error that are meant for it, in order, each once. |
| `LinkRuns.SinkIsShare` | src/link.rs:581-581 | The sink holds exactly the packets of its share. |
| `LinkRuns.StackIsRest` | src/link.rs:534-577 | Client and resolver get exactly the routes that do not go to the sink, in order. |
| `LinkRuns.OutboxSound` | src/link.rs:397-515 | Over every run every queued frame is an ARP reply in our name with an assigned address, or a DHCP message of a form some client state demands, that reads back through UDP, IPv4 and Ethernet. |
| `LinkRuns.OutboxExact` | src/link.rs:397-515 | Over every run the IPv4 frames queued are the first DISCOVER and then, in order and each once, the messages that the run's own steps put out. |
| `LinkRuns.SentFramesConform` | src/link.rs:500-515 | Each of those frames carries the message of one step and conforms to the state that very step leaves behind. |
| `LinkRuns.FirstDiscoverId` | src/link.rs:397-407 | The first DISCOVER goes by the id that follows the number in the last four bytes of the MAC. |
| `LinkRuns.LinkAgrees` | src/link.rs:397-447 | At every point of every run of the receive thread, client and timer agree. |
| `LinkRuns.JointOfReplay` | src/link.rs:551-577 | Inside the link, client and timer do exactly what they do on their own. |
| `LinkRuns.TableOfReplay` | src/link.rs:539-570 | Inside the link, the ARP table is what a history of calls makes of it. |
| `LinkRuns.AnswersForLease` | src/link.rs:564-573 | Over every run ARP answers for the address held now, or for none, exactly when a lease is held or none was ever reported. |
| `LinkHistory.CleanExactly` | src/link.rs:564-570 | At every point of a run of the receive thread the table is free of such entries if and only if no lease of the run was granted by a reply from 0.0.0.0 or from a group MAC. |
| `LinkHistory.GrantTaints` | src/link.rs:566-569 | From any such sender, an OFFER and an ACK do put the entry into the table, and it is looked up. |
| `LinkHistory.RefusalKeepsAddress` | src/link.rs:564-573 | For every address a server can name there is a run that leases it, has the renewal refused, and ends with no lease while ARP still answers for the address. |
| `LinkHistory.LinkBacksOff` | src/link.rs:480-496 | The thread's own pace: from any point where the timer stands reset, and while no lease and no refusal comes in, its k-th message sets the k-th backoff, and the next is not due before all of them have passed. |
| `LinkHistory.LinkSendsSpaced` | src/link.rs:480-496 | Two timer messages of the thread with no lease and no refusal in between are at least the backoff apart that the earlier one set, whatever else came in. |
| `LinkRuns.EndToEnd` | src/netstack/ipv4.rs:54-149 | A datagram built as UDP, framed as Ethernet and packed anywhere in a batch is decoded at its place with the same addresses, ports and payload, exactly when the payload is at most 65507 bytes. |
| `LinkRuns.ReplyReachesClient` | src/link.rs:517-577 | A server's reply, to us or broadcast, anywhere in a transfer, reaches the DHCP client exactly once and in its place. |
| `LinkTx.Tx.Flush` | src/link.rs:224-254 | Either the whole batch is submitted as one transfer, the completions are reaped and the buffer is empty, or shutdown was seen with the queue full and batch, counters and submissions are untouched apart from the terminator. |
| `LinkTx.Tx.AwaitSlot` | src/link.rs:235-240 | Returns with a free slot, or with shutdown raised and the queue full, against an endpoint that may never complete anything; what comes back meanwhile is recorded and leads to no recovery. |
| `LinkTx.Tx.Terminate` | src/link.rs:228-233 | A byte is added exactly when the length is a multiple of the packet size; after it a batch is no multiple of a packet size of 2 or more, with its messages intact. |
| `LinkTx.Tx.Place` | src/link.rs:292-303 | The frame joins the open transfer if it passes the size check, else that is closed, and exactly then; a frame over the limit is dropped. Under shutdown at most this frame is lost. |
| `LinkTx.Tx.Fill` | src/link.rs:292-305 | Frames already queued are taken until the channel is found empty, a frame is over the limit or shutdown is seen. |
| `LinkTx.Tx.Burst` | src/link.rs:287-306 | A burst leaves nothing batched unless shutdown was seen, and its transfers are those of the packing function. |
| `LinkTx.Tx.Pump` | src/link.rs:279-307 | The same over all bursts, until shutdown or hang-up; the thread waits for a frame only when the burst before it has ended. |
| `LinkTx.Tx.Receive` | src/link.rs:280-306 | A wait that times out is followed by exactly one reaping, one that brings a frame by its burst. |
| `LinkTx.Reap` | src/link.rs:314-332 | Takes back completions until none is pending or a wait of the endpoint brings no success; a cancel and a recovery happen on a stall and on nothing else. |
| `LinkTx.RecoverBulkOut` | src/link.rs:361-375 | Everything queued is cancelled once; the halt is cleared exactly when nothing is pending any more, which is so whenever the cancelled writes come back; otherwise the result is the drain error. What the waits return meanwhile is recorded and not acted on. |
| `RndisPacket.Append` | src/rndis/packet.rs:15-39 | The buffer grows by exactly one message. |
| `RndisPacket.Frames.Next` | src/rndis/packet.rs:54-97 | Each call yields the first of the remaining items and leaves exactly the others; it ends for good on a short rest. |
| `RndisControl.Rndis.Transact` | src/rndis/control.rs:192-217 | Against any transport: it succeeds exactly when what was received ends with the awaited completion under the own id, which it returns and before which there was none; what was sent is the command followed by one completion per device keepalive, in order; the link state is the fold of the indications received. |
| `RndisControl.Rndis.HandleUnsolicited` | src/rndis/control.rs:221-239 | Only an indication changes the link state, only a keepalive is answered, with its own id. |
| `RndisControl.Rndis.Initialize` | src/rndis/control.rs:108-123 | Succeeds exactly when the completion of this request arrives, decodes, reports success and a non-zero size; returns what it says. |
| `RndisControl.Rndis.Query` | src/rndis/control.rs:148-156 | Succeeds exactly when the completion of this very request arrives and reports success; returns its information buffer. |
| `RndisControl.Rndis.Set` | src/rndis/control.rs:158-166 | Succeeds exactly when the completion of this very request arrives and reports success. |
| `RndisControl.Rndis.QueryMac` | src/rndis/control.rs:127-146 | Succeeds exactly when one of the two queries is answered with a non-zero MAC, which it returns; the permanent address is asked first, and the current one only if that brought none. |
| `RndisControl.Rndis.BringUp` | src/rndis/control.rs:72-106 | What was received to each command decides alone: it succeeds exactly when INITIALIZE, one or both MAC queries and SET each end with a good completion under consecutive ids, the session is what these say, the commands went out in that order, and the link state is the fold of all indications seen, or up when there was none. |
| `Checksum.ComputeChecksum` | src/netstack/ipv4.rs:22-51 | The nested loops over a 32-bit accumulator compute the split sum modulo 2^32, folded and complemented; they end. |
| `Ipv4.BuildUdp` | src/netstack/ipv4.rs:54-104 | Writing zero fields and patching them in place yields that packet. |
| `Dhcp.DhcpClient.Discover` | src/netstack/dhcp.rs:115-122 | A new round: fresh id, nothing offered, and the message the client then waits on. |
| `Dhcp.DhcpClient.Retransmit` | src/netstack/dhcp.rs:125-137 | The pending message of the current state, if any. |
| `Dhcp.DhcpClient.Renew` | src/netstack/dhcp.rs:140-144 | With a lease the client starts renewing and sends its pending message; without one nothing happens. |
| `Dhcp.DhcpClient.Handle` | src/netstack/dhcp.rs:146-180 | New state and event for every message, malformed ones included. |
| `DhcpMessage.ParseMessage` | src/netstack/dhcp.rs:316-376 | The option loop ends and equals a fold over the option list, with the source's errors. |
| `DhcpMessage.BuildMessage` | src/netstack/dhcp.rs:210-270 | Growing the buffer step by step yields that message. |
| `DhcpRun.DhcpTimer.Due` | src/link.rs:480-496 | New timer, new client and message for every pair of clock readings. |
| `DhcpRun.DhcpTimer.Deliver` | src/link.rs:559-576 | A lease or a refusal resets the timer; nothing else does. |
| `Arp.Responder.Handle` | src/netstack/arp.rs:147-174 | New table and reply for every payload. |
| `Arp.Responder.Request` | src/netstack/arp.rs:121-143 | New table and frame for every request. |
| `LinkRx.Rx.Listen` | src/link.rs:410-447 | The same over all the endpoint's waits, with exactly 16 reads pending at the head of every turn. |
| `LinkRx.Rx.Serve` | src/link.rs:411-446 | Exactly one wait on the endpoint, its turn, and a poll of the timer, left out exactly when the turn ends the thread. |
| `LinkRx.Rx.Turn` | src/link.rs:411-442 | A read is resubmitted and handled, a fatal error ends the thread, a stall is counted and recovered from up to the fifth, any other error is resubmitted; the read queue is full again or the thread ends. |
| `LinkRx.RecoverBulkIn` | src/link.rs:340-358 | The queued reads are cancelled once; the halt is cleared exactly when they have all come back, which they have if the endpoint returns them, and the queue is refilled exactly when that succeeds; otherwise the result says which of the two failed. |
| `LinkRx.Rx.HandleTransfer` | src/link.rs:517-549 | The frames of a transfer are routed in order up to the first framing error. |
| `LinkRx.Rx.HandleIpv4` | src/link.rs:551-582 | A DHCP reply goes to the client only, every other packet to the sink only. |
| `LinkRx.Rx.HandleDhcp` | src/link.rs:559-577 | Client, timer, ARP table, outgoing frames and events change together as the event demands. |
| `LinkRx.Rx.PollTimer` | src/link.rs:444-446 | One tick with two clock readings is added to the history, and whatever the timer then asks for is wrapped and queued. |

## Left out

- The operating system side: `src/usb/nusb_backend.rs`, `src/tun/`, `src/tunnel.rs`, `src/transport.rs`, `src/device.rs`; only the endpoint and transport contracts are kept.
- `src/daemon.rs`, `src/service.rs`, `src/signals.rs`, `src/main.rs`, `src/probe.rs`, `src/status.rs`: session, installation and reporting.
- `src/usb/matcher.rs` and `src/usb/descriptor.rs`: they pick the interface and the endpoints by a first match over the device's descriptors.
- `SwitchableSink`: its three counters; the sink is the sequence of packets delivered to it.
- `keepalive` and `halt` of the control channel: the same transaction as SET without data, and a single send.
- Logging, buffer capacities and the lengths of timeouts.
- Runs that never end: shutdown is raised, and a transaction's deadline passes, after some number of readings that is unknown but finite.
- The checksum's additions wrap at 32 bits, as in a release build; with overflow checks they would panic instead.
- The 64-bit counters are unbounded, as are buffer lengths; `usize` has 64 bits, so the decoder's checked additions cannot overflow.
- LinkTx.TxLoop: speaks of what is submitted; transfers that fail or are cancelled in a stall recovery are lost, as in the source.
- LinkRx.RecoverBulkIn: what comes back between a cancel and the cleared halt is discarded, as in the source, and is not in the endpoint's record of waits.
- RndisControl.Rndis.Transact: a command whose send reports an error counts as not sent.
- LinkRuns.TableOfReplay: only the receive thread's calls; calls of the tunnel thread in between are covered by the theorems of `Arp`, which hold for calls from any thread.
- The receive thread and the transmit thread are not interleaved: they share only the frame channel, which `LinkTx` receives from in arbitrary bursts.
