# WTP and the tag's reply path, modelled and proved

WTP carries messages between a server and a battery-free RFID tag (a WISP)
over EPC Class-1 Generation-2 commands. The server puts packets into
BlockWrite data; the tag answers with Reads. This project models the two
hardest parts of the repository and proves what they are for.

**The transport, server to tag.** The server's transmit control cuts the
messages into fragments under a window and a size budget, retransmits on
timeouts and takes cumulative acks. The tag's receive control keeps a sorted
list of pending fragments, a list of declared messages, and a compacted
buffer of length-prefixed messages. Sequence numbers are 16 bits wide.

| file | what it models |
|---|---|
| `Base.dfy`, `Cyclic.dfy` | bytes, 16-bit words, sequence numbers |
| `Stream.dfy` | messages laid end to end, and tilings of that stream by fragments, at absolute positions |
| `TxSpec.dfy`, `TxProof.dfy`, `TxRuns.dfy` | what the transmit control computes; its invariant; its runs |
| `TxEmpty.dfy` | what empty messages do to completion |
| `SendPlan.dfy`, `WindowCut.dfy` | what a write is going to send, from the state before it; when it raises |
| `ControlQueue.dfy` | the queue of control packets |
| `Retransmit.dfy` | what a fired timer leads to, and what becomes of every due fragment |
| `AccessLoop.dfy` | when the connection asks the reader for an access, for what, and what an exception does to that |
| `TxControl.dfy` | the transmit control as the class it is, updated in place |
| `RxSpec.dfy`, `RxProof.dfy`, `RxRuns.dfy` | what the tag's receive control computes; its invariant; its runs |
| `RxWrap.dfy` | the tag's list insertions and window test past a wrap of the sequence numbers |
| `RxSlots.dfy`, `RxOverflow.dfy` | the tag's slots for declared messages and its message buffer: when they block it, and for how long |
| `RxControl.dfy` | the receive control in memory: pointer-linked fragments, an index-linked store, a buffer with two cursors |
| `Downlink.dfy` | sender, receiver and a channel that loses, duplicates, delays and reorders |
| `Progress.dfy` | when everything given can still be delivered |
| `CyclicOrder.dfy` | cyclic integers and ranges of any radix, and their shared stack of zero points |
| `Wire.dfy`, `BlockWrite.dfy`, `Framing.dfy`, `WriteArrives.dfy` | the bytes: checksums, word swapping, unpacking on the tag, parsing; their number |
| `FramingExact.dfy` | what the tag accepts and refuses, in terms of the bytes and their XOR alone |
| `DownlinkBytes.dfy` | the downlink's packets down to the bytes and up again |
| `Ring.dfy` | the ring allocator's two cursors |
| `Uplink.dfy`, `UplinkEarly.dfy` | the server's receive control; what a message declared ahead of its turn does to it |
| `Connection.dfy` | the connection's Deferreds |

**The tag's Read reply.** Registers and bits: the CRC-16 (`Crc.dfy`), the FM0
line encoder (`Fm0.dfy`), and the reply put together from them
(`ReadReply.dfy`), for every memory content, handle and word count up to 16.

## How it is put together

A `...Spec` module says on values what the code computes, branch by branch.
The classes follow the code's loops, pointers and in-place updates, and each
method's contract ties the new state to the specification function of the old
one. The lemmas are about those functions, at absolute positions that never
wrap: `TxGhost` and `RxGhost` are the absolute view of a 16-bit state.

The channel of `Downlink` keeps every packet and ack ever sent in a set from
which either end may be given any element at any time: what is never given is
lost, what is given twice duplicated, and order means nothing. A timeout is a
step that sets a flag; a failed BlockWrite is the loss of its packets.

The tag's compiler has 16-bit `int`, so sums of `uint16_t` wrap; the model
writes every such wrap out. Where the comment of a routine and its code differ,
the code is followed.

## What the proofs bring out

- Completion of sends is exact in all runs that give a list of messages if and
  only if none of them is empty (`TxEmpty.CompletionExactIff`). In every run
  whose last message is empty not all messages are reported
  (`TxEmpty.LastEmptyUnreported`), and an end left behind the acknowledged
  position, as two empty messages in a row leave one, blocks the completion of
  every later message until an ack reaches 2^16 bytes beyond it
  (`TxEmpty.EndBehindBlocks`, `TxEmpty.TwoEmptyBlock`). The tiling does not
  mind empty messages.
- A cut limited strictly by the window turns the cut position into a cyclic
  integer, and the next cut from that message raises. On the state before the
  call, `get_write_data` raises exactly if it gets past the control packets and
  the due fragments and then meets such a position or comes to such a cut
  (`WindowCut.RaisesIff`); over runs, a write has raised if and only if the
  position is cyclic, and then it is stuck (`WindowCut.RaisedIffCyclic`). From
  the start, the fourth write of a message of more than 64 bytes does
  (`WindowCut.LongMessageRaises`). The flag of an ongoing AccessSpec then stays
  set, and nothing is ever asked of the reader again
  (`AccessLoop.RaiseStopsAccess`). The tiling and the safety of the downlink
  hold all the same.
- A retransmission that does not fit the limit behind what is ahead of it is
  dropped without a trace: the call clears the flag, writes nothing more and
  sets no new timer (`Retransmit.DueFate`). From the start, a message whose
  retransmission meets a limit that has become too small is never written
  again (`Retransmit.RetransmissionLost`).
- The tag compares sequence numbers as they are when it inserts into its
  lists. Over an interval of positions that is right if and only if no
  multiple of 2^16 lies strictly inside it (`RxWrap.InsertionExact`), and its
  window test tells old packets from new ones exactly up to position 2^16 minus
  the window (`RxWrap.WindowTestReach`). Past a wrap reassembly can stall for
  good although every packet was accepted (`RxWrap.WrapStallsReassembly`). So
  claims through the tag are for streams of up to 2^16 bytes minus the window;
  claims about the server alone hold through any number of wraps.
- The downlink can deadlock on the tag's slots. With every slot taken by later
  messages and the first packet of the next one still to come, that packet is
  refused for ever (`RxSlots.SlotsDecide`); for every number of slots below 64 the loss
  of one packet leads there (`RxSlots.SlotDeadlock`: with the five slots and
  the window of 64 that client/wisp-ert/runtime/runtime.c sets, six messages
  of a byte each are enough). Short of that, and of a cyclic cut position,
  everything given can still be delivered from every moment of every run
  (`Progress.DeliverableIff`).
- A failed write to the tag's message buffer is final: the messages completed
  by the failing call are never handed out, and none after them
  (`RxOverflow.FailureIsFinal`). A message that with its two bytes of size is
  larger than the buffer always leads there (`RxOverflow.OversizeWedges`).
- The size limit of a write is on an estimate that leaves out one byte a
  record and two more on a first fragment. The exact length follows from the
  state before the call. A piece that fills the space is the last record, and
  then the limit is kept if and only if it is the only one; otherwise exactly
  if the records planned leave room for what is not counted
  (`WriteArrives.LimitKeptIff`). At the first limit of 24, one ack in front of
  a message makes 25 bytes and eight acks make 32
  (`WriteArrives.AckBeforeMessage`, `WriteArrives.LimitOverrun`).
- The two window tests differ on empty payloads
  (`CyclicOrder.WindowTestsAgree`), and the two wrap tests of the ring on a
  block that ends where the buffer ends (`Ring.CursorsAgreeIff`).
- The server drops a data packet that arrives before its turn but keeps its
  message declared. A state in order stays in order exactly if the packet was
  the next one, outside the window, a continuation, or refused for an overlap
  (`Uplink.StaysInOrderExactly`). A first packet arriving early between two
  messages stalls the uplink at its message for good
  (`UplinkEarly.EarlyHeadStalls`); in the middle of a message, whichever later
  message it belongs to, it merges that one with the next
  (`UplinkEarly.EarlyHeadMerges`). A second one
  declared further on can let the first one through
  (`UplinkEarly.HeadAtItsTurn`, `UplinkEarly.TwoDebtsRecover`).

## Model

| member | source | states |
|---|---|---|
| TxRuns.SenderRun | server/wtp/wtp/transmission.py:63-244 | over every run of adds, writes, timeouts, size changes and acks, empty messages included, through any number of 16-bit wraps: the fragments cut so far carry a prefix of the message stream without gap or overlap, none straddles two messages, the size field is set exactly on first fragments, the outstanding ones are the unacknowledged tail within a window, every one with its Deferred set; and with no message empty the counts of handle_ack add up to the messages wholly acknowledged |
| TxRuns.StepExplainsCore | server/wtp/wtp/transmission.py:111-244 | each single operation, with empty messages or without, from any state with an absolute view, leads to a state with one that extends it as that operation says; exact completion is kept while messages are non-empty |
| TxEmpty.CompletionExactIff | server/wtp/wtp/transmission.py:163-171 | for every list of messages: completion is exact in all runs that give it if and only if no message is empty |
| TxEmpty.LastEmptyUnreported | server/wtp/wtp/transmission.py:76-86 | in every run whose last message is empty fewer messages are reported than given, whatever is acknowledged |
| TxEmpty.EndBehindBlocks | server/wtp/wtp/transmission.py:163-171 | with a recorded end behind the acknowledged position, an ack reports something if and only if it removes fragments and reaches 2^16 bytes beyond that end |
| TxEmpty.TwoEmptyBlock | server/wtp/wtp/transmission.py:163-171 | a run from the start with two empty messages in a row: all is acknowledged, and of five messages two are reported |
| WindowCut.WindowLimitedIff | server/wtp/wtp/transmission.py:89-98 | a cut is limited strictly by the window exactly when the window ends inside the message, beyond what is cut, and the packet would have held more |
| WindowCut.RaisesIff | server/wtp/wtp/transmission.py:87-98 | on the state before the call: it raises if and only if all control packets and all due fragments fit, and then the cut position is cyclic already or the cuts that message lengths and window room give come to one limited strictly by the window |
| WindowCut.RaisedIffCyclic | server/wtp/wtp/transmission.py:94-101 | over every run: a write has raised if and only if the cut position is cyclic; so none raises up to the first such cut, the write that makes it does, and the position stays |
| WindowCut.NeverWithinWindow | server/wtp/wtp/transmission.py:89-98 | while all messages given end within the window of the acknowledged position, no write raises |
| WindowCut.LongMessageRaises | server/wtp/wtp/transmission.py:63-110 | from the start, at the server's first size limit and window: of every message of more than 64 bytes three writes take 17, 19 and 19, and the fourth raises |
| TxProof.CutInv | server/wtp/wtp/transmission.py:87-109 | a cut of any size within message and 16-bit window room extends the tiling, and never takes the cut position past the acknowledged one plus the window |
| TxProof.SelectInv | server/wtp/wtp/transmission.py:202-222 | the fragment chosen for sending; a newly made one always fits the room left, so only a retransmission can meet the too-long exit, and every other outstanding fragment has its Deferred |
| TxProof.GetWriteDataInv | server/wtp/wtp/transmission.py:178-244 | every fragment written is an outstanding fragment of the tiling exactly as cut, and the call never returns with a fully cut message whose end is unrecorded or a fragment without a Deferred |
| TxProof.AckScanFinds | server/wtp/wtp/transmission.py:150-162 | the scan stops at the one fragment that ends at the acknowledged number, and otherwise drops the ack |
| TxProof.PopEndsInv | server/wtp/wtp/transmission.py:163-171 | the message ends popped with the removed fragments are those of exactly the messages these complete |
| TxProof.HandleAckTotal | server/wtp/wtp/transmission.py:137-177 | for every number: if an outstanding fragment ends there, exactly the fragments up to it are removed and the number becomes the acknowledged one; else the whole state is unchanged |
| TxProof.StaleAckIgnored | server/wtp/wtp/transmission.py:146-162 | an ack overtaken by less than 2^16 minus window bytes changes nothing |
| TxProof.AddCore | server/wtp/wtp/transmission.py:123-129 | a new message, empty or not, keeps the tiling, the window and the recorded ends |
| TxControl.SlidingWindowTxControl.constructor | server/wtp/wtp/transmission.py:22-62 | a new control is empty at position 0 and satisfies the invariant |
| TxControl.SlidingWindowTxControl.MakeFragment | server/wtp/wtp/transmission.py:63-110 | the next fragment and the new state are those of the specification, retired message and recorded end included |
| TxControl.SlidingWindowTxControl.HandlePacketTimeout | server/wtp/wtp/transmission.py:111-122 | exactly the flag of that fragment is set, if it is still outstanding; the invariant stays. What that leads to is `Retransmit.TimerFires` |
| Retransmit.TimerFires | server/wtp/wtp/transmission.py:111-122 | in every state: a fired timer makes exactly its fragment due, and the next write decides that fragment's fate as in `Retransmit.DueFate` |
| Retransmit.DueFate | server/wtp/wtp/transmission.py:206-225 | on the state before the call: a due fragment is written as it was cut, at its place behind the due ones in front of it, if and only if those, it and the control packets fit the limit; its flag is cleared without its being written, and nothing follows, if only what is ahead of it fits; else it stays due |
| Retransmit.CallOutcome | server/wtp/wtp/transmission.py:184-244 | every call writes the due fragments that fit, in order, and then, if all of them did, exactly the fragments it cuts; no other outstanding fragment is written, and every flag is accounted for |
| Retransmit.ExpiredIsDue | server/wtp/wtp/transmission.py:111-122 | over every run, empty messages and wraps included: an outstanding fragment whose timer fires is due with the number, size field and bytes it was first cut with |
| Retransmit.DueUntilReached | server/wtp/wtp/transmission.py:202-244 | what is due stays due through everything but a write that comes to it or an ack that covers it |
| Retransmit.ResentOnAir | server/wtp/wtp/transmission.py:202-244 | in every legal run of the downlink: a fragment whose timer fires carries the bytes of the stream at its number, and a write that comes to it and does not raise puts its packet on the air |
| Retransmit.WrittenOnce | server/wtp/wtp/transmission.py:202-244 | over every run in which no timer fires and nothing is due: the fragments written are those cut, each once, in that order |
| Retransmit.RetransmissionLost | server/wtp/wtp/transmission.py:212-225 | from the start: a message of up to 17 bytes whose retransmission meets a limit too small for it is not written, its flag is cleared, and no run without a fired timer ever writes it again |
| Retransmit.TimerAsks | server/wtp/wtp/connection.py:217-304 | the connection's view: a timer that fires while an AccessSpec is under way only makes its fragment due; else, with no Read pending, the reader is asked for a Write that holds the fragment, if it fits behind what is ahead of it and nothing raises |
| ControlQueue.ControlTaken | server/wtp/wtp/transmission.py:184-200 | one write: the control packets that fit the limit together go out in order; the first that does not is popped and lost, and then nothing else is sent and those behind it stay; else none stays |
| ControlQueue.EachOnceInOrder | server/wtp/wtp/transmission.py:130-200 | over every run: the control packets returned by writes or lost, and those still queued, are the ones given, each once and in order |
| TxControl.SlidingWindowTxControl.AddMsg | server/wtp/wtp/transmission.py:123-129 | the message joins the queue and the stream |
| TxControl.SlidingWindowTxControl.AddPacket | server/wtp/wtp/transmission.py:130-136 | the control packet joins the queue |
| TxControl.SlidingWindowTxControl.HandleAck | server/wtp/wtp/transmission.py:137-177 | the state and count of the specification; what is removed is a front part of the list, and every Deferred fired had been set |
| TxControl.SlidingWindowTxControl.WriteControlPackets | server/wtp/wtp/transmission.py:184-200 | the control packets that fit are written in order, each sealed; the first that does not fit is popped and lost |
| TxControl.SlidingWindowTxControl.WriteFragments | server/wtp/wtp/transmission.py:201-242 | the loop terminates, and puts on the stream the records of exactly the fragments the specification sends, each sealed on its own |
| TxControl.SlidingWindowTxControl.GetWriteData | server/wtp/wtp/transmission.py:178-244 | state and bytes are those of the specification, and the tiling only grows |
| Wire.XorChecksum | server/wtp/wtp/util.py:156-168 | the XOR of all bytes |
| Wire.ChecksumStream.WriteChecksum | server/wtp/wtp/util.py:143-154 | the checksum of the bytes since the begin position is appended |
| CyclicOrder.OrderFaithful | server/wtp/wtp/util.py:211-254 | for positions less than a radix above the zero point all comparisons agree with the integers' |
| CyclicOrder.TotalOrder | server/wtp/wtp/util.py:211-254 | under any zero point of their radix values are in a strict total order, with the zero point as its least |
| CyclicOrder.ZeroDecides | server/wtp/wtp/util.py:211-232 | which of two values is the smaller is up to the zero point, each way possible |
| CyclicOrder.ErrorsExact | server/wtp/wtp/util.py:211-232 | which exception a comparison raises, and when: different radixes come first, even without a zero point; a containment test raises exactly for different radixes |
| CyclicOrder.ContainmentExact | server/wtp/wtp/util.py:382-405 | a range lies in a window exactly when its offset plus its length is at most the window |
| CyclicOrder.WindowTestsAgree | client/wtp/wtp/transmission.c:375-380 | the server's range test and the tag's uint16_t test agree if and only if the payload is not empty or lies beyond the window |
| CyclicOrder.ZeroPoints.IsLess | server/wtp/wtp/util.py:211-232 | the comparison under the innermost zero point, with both exceptions |
| CyclicOrder.ZeroPoints.Contains | server/wtp/wtp/util.py:382-405 | the answer does not depend on the zero points in force, and they are in force again afterwards |
| CyclicOrder.RelIsOrder | server/wtp/wtp/transmission.py:147-165 | the distances compared in the model of handle_ack are the cyclic comparisons made there |
| RxProof.WindowTest | client/wtp/wtp/transmission.c:375-380 | a fragment of the tiling passes the 16-bit test exactly if it is not consumed and ends within the window |
| RxProof.DeclareNew | client/wtp/wtp/transmission.c:384-417 | an undeclared message is inserted in order, or refused only for want of a slot |
| RxProof.DeclareTwice | client/wtp/wtp/transmission.c:390-397 | a declared message is refused |
| RxProof.StoreInv | client/wtp/wtp/transmission.c:419-457 | a fragment already pending is refused; any other is put in its place in the sorted list |
| RxProof.AssembleInv | client/wtp/wtp/transmission.c:463-519 | reassembly consumes fragments up to the first gap, counts exactly the messages it completes, keeps the buffer equal to those messages with their sizes followed by the part of the current one, and no write in it fails |
| RxProof.MessageCountFits | client/wtp/wtp/transmission.c:463-508 | no call completes more messages than there are slots, so the 8-bit count does not wrap |
| RxProof.DrainFramed | client/wtp/wtp/endpoint.c:141-168 | reading n messages off a buffer that begins with n framed messages gives them back and leaves the rest |
| RxProof.DeliverInv | client/wtp/wtp/transmission.c:367-537 | for every fragment and every reachable state: accepted exactly when new, inside the window and declarable, else refused as invalid, or for want of a slot, exactly when that is the reason; the messages handed out are the next ones, byte for byte; nothing changes otherwise; no write fails |
| RxRuns.Reassembly | client/wtp/wtp/transmission.c:367-537 | after any sequence of fragments of one tiling, in any order and with repeats: the sequence number is the length of the contiguous accepted prefix, the pending list is sorted and holds exactly the accepted fragments beyond it, the declared messages are exactly those begun and not complete, the messages out are those wholly inside it, the buffer holds size and received part of the current one |
| RxSlots.SlotsDecide | client/wtp/wtp/transmission.c:384-417 | in every legal run of the downlink, with the next packet on the air: its arrival moves the tag on if and only if it continues a message or a slot is free; if not, whatever is sent, resent, lost or acknowledged from there on, the tag never moves and hands out nothing more |
| RxSlots.SlotDeadlock | client/wtp/wtp/transmission.c:384-417 | such a run from the start, for every number of slots below 64: one message more than slots, of a byte each, the packet of the first arriving after the others |
| RxSlots.RefusedTakesSlot | client/wtp/wtp/transmission.c:384-435 | a packet whose message can be declared but whose data overlaps a pending fragment is refused and yet takes a slot; sent again, it changes nothing |
| RxOverflow.FailureLeaves | client/wtp/wtp/transmission.c:477-519 | a call in which a write to the message buffer fails: it reports no message, not even those it completed, the list still begins with the fragments it consumed, and the control is stuck |
| RxOverflow.FailureIsFinal | client/wtp/wtp/transmission.c:367-537 | from every state: after such a call no packet below the wrap ever moves the position or completes a message |
| RxOverflow.OversizeWedges | client/wtp/wtp/transmission.c:477-494 | a message that with its size is larger than the buffer, received in order in whatever pieces: neither it nor anything after it is ever handed out |
| RxWrap.InsertionExact | client/wtp/wtp/transmission.c:384-457 | over an interval of positions every message and fragment goes to its place among any others it is apart from, if and only if no multiple of 2^16 lies strictly inside the interval |
| RxWrap.WindowTestReach | client/wtp/wtp/transmission.c:375-380 | no consumed fragment passes the window test again if and only if the position is at most 2^16 minus the window |
| RxWrap.OvertakenAtWrap | client/wtp/wtp/transmission.c:419-519 | from the initial state, after any messages in packets of their own: of a message in three packets the second of which ends at a multiple of 2^16, the third overtakes the second; all are accepted, and whatever arrives later no further message is ever handed out |
| RxWrap.WrapStallsReassembly | client/wtp/wtp/transmission.c:419-519 | such a run: 4093 messages of 16 bytes, then one of 64 in pieces of 23, 25 and 16 |
| RxWrap.BlockedStays | client/wtp/wtp/transmission.c:463-519 | while the list begins with number 0 and the control waits for another, no packet changes either and none completes a message |
| RxControl.WioBuf.Write | client/wisp-base/wio/buf.c:90-131 | the bytes are appended, or nothing changes if they do not fit |
| RxControl.WioBuf.Compact | client/wtp/wtp/transmission.c:466-475 | the unread bytes move to the front unchanged |
| RxControl.RxCtrl.constructor | client/wtp/wtp/transmission.c:314-346 | both lists empty, at position 0 |
| RxControl.RxCtrl.DeclareMessage | client/wtp/wtp/transmission.c:384-417 | on the index-linked store: the list stays acyclic and holds exactly the items in use, with the new one where the specification puts it; both refusals |
| RxControl.RxCtrl.StoreFragment | client/wtp/wtp/transmission.c:419-457 | on the pointer-linked list: the list stays acyclic, with the new fragment where the specification puts it; the refusal |
| RxControl.RxCtrl.AssembleAll | client/wtp/wtp/transmission.c:463-519 | the loop over links, store and buffer computes the reassembly of the specification, early exits included |
| RxControl.RxCtrl.HandlePacket | client/wtp/wtp/transmission.c:367-537 | state, status and count of the specification, for every input |
| RxControl.RxCtrl.HandOut | client/wtp/wtp/endpoint.c:141-168 | hands out the first n framed messages and leaves the rest unread |
| RxControl.RxCtrl.HandleMsgPacket | client/wtp/wtp/endpoint.c:124-181 | handles the packet, hands out what it completes, and answers with the sequence number, whatever became of the packet |
| Downlink.DownlinkSafety | client/wtp/wtp/endpoint.c:99-181 | end to end, for every behaviour of channel, timers and sizes: the messages handed out on the tag are a byte-exact prefix of those given to the server, exactly those wholly below the tag's sequence number; every message reported sent has been handed out |
| Downlink.JointWindow | server/wtp/wtp/transmission.py:95-97 | acknowledged, received and sent positions never cross and stay within a window; a sent fragment passes the tag's test exactly while it is not consumed; an ack is a fragment boundary the sender acts on exactly when it is news |
| Downlink.NoWriteFails | client/wtp/wtp/transmission.c:477-517 | with a buffer for the largest message less a byte, a window and two bytes a slot, no write in reassembly fails in any run |
| Downlink.AckCatchesUp | client/wtp/wtp/endpoint.c:175-178 | after any arrival in any legal run the tag's ack is on its way; if it gets through, the sender stands where the tag stands and has reported exactly the messages handed out |
| Downlink.DownlinkDrivesSender | server/wtp/wtp/transmission.py:63-244 | the sender of every run of the downlink goes through the run of just its own operations, so what `TxRuns` says holds of it |
| Progress.DeliverableIff | client/wtp/wtp/transmission.c:367-537 | at any moment of any legal run without a cyclic cut position: if the tag has a free slot or a message in progress, some way on hands out and reports everything given; if it has neither, no way on hands out another message, though some are left |
| BlockWrite.SwapWords | server/wtp/wtp/llrp_util.py:54-58 | the bytes of every word are exchanged in place |
| BlockWrite.WriteOpspec | server/wtp/wtp/llrp_util.py:34-58 | length byte, data and padding, swapped word by word; refused exactly when the length is no byte |
| BlockWrite.StoreWord | client/wisp-base/RFID/rfid_BlockWriteHandle.asm:88-111 | the word in the unaligned command is stored low byte first at twice the word pointer, whatever the carry was |
| BlockWrite.Unpack | client/wisp-base/RFID/rfid_BlockWriteHandle.asm:88-106 | the rotations put the word together from six, eight and two bits |
| BlockWrite.StoreWords | client/wisp-base/RFID/rfid_BlockWriteHandle.asm:88-111 | a sequence of commands leaves the memory the specification says |
| BlockWrite.DataArrives | server/wtp/wtp/llrp_util.py:44-58 | whatever the order and the repeats, once every word arrived the memory holds the length byte and the data as given to write_opspec |
| Framing.XorRange | client/wtp/wtp/endpoint.c:624-635 | the XOR of the bytes of the range |
| Framing.PacketBuf.VerifyChecksum | client/wtp/wtp/endpoint.c:605-619 | the status of the specification at the cursor: accepted, missing, or wrong, which `FramingExact.ParseExplained` reads as the XOR of the stretch |
| Framing.PacketBuf.HandleNext | client/wtp/wtp/endpoint.c:567-596 | one turn of the loop: the packet at the cursor, or how its handler refuses it, and where the cursor goes, which `FramingExact.ParseExplained` and `FramingExact.ParseDetermined` pin down |
| Framing.HandleBlockwrite | client/wtp/wtp/endpoint.c:554-600 | for every memory content and whatever the handlers' outcomes after parsing: the packets handled, in order, up to the first whose handler fails, and the status |
| Framing.ControlBytes | server/wtp/wtp/transmission.py:189-200 | although taken from the start of the stream, each control packet's checksum is that of its own record |
| Framing.ParseBytes | client/wtp/wtp/endpoint.c:567-596 | a list of sealed packets parses back into the list, every checksum accepted |
| Framing.FramingRoundTrip | client/wtp/wtp/endpoint.c:554-635 | get_write_data's bytes through write_opspec, the air and the tag's memory come back as the same list of packets |
| FramingExact.ParseExplained | client/wtp/wtp/endpoint.c:554-635 | for every memory content: the packets handed on are those of a series of stretches, each a record with its checksum behind it and an XOR of 0, with skipped parameters of two bytes in between, and what is left behind them accounts for the status: nothing or the end mark, a record with a wrong byte behind it, the beginning of a record cut short, an unknown type |
| FramingExact.ParseDetermined | client/wtp/wtp/endpoint.c:554-635 | and any such reading of the memory is what the parser makes of it |
| FramingExact.ChangedByteRefused | client/wtp/wtp/endpoint.c:605-619 | behind any packets, one byte of a packet changed in a field, the payload or the checksum: the packets in front are handed on and the list ends there with a bad checksum |
| Framing.AllHandled | client/wtp/wtp/endpoint.c:590-597 | handlers that do not fail after parsing leave the list and its status as parsed |
| FramingExact.EndsAtFirstFailure | client/wtp/wtp/endpoint.c:590-597 | a handler that fails after parsing ends the list with its packet and its status |
| WriteArrives.WriteReachesHandlers | server/wtp/wtp/transmission.py:178-244 | in every state of the sender: what the call returns reaches the tag's handlers as the first pending control packets and the fragments sent |
| WriteArrives.HandlersSeePackets | client/wtp/wtp/endpoint.c:107-139 | the packets the downlink puts on the air are what the receive control is called with when the bytes of a fragment are handled |
| WriteArrives.WriteLength | server/wtp/wtp/transmission.py:189-236 | the exact length of every write: the estimate, one byte for each control packet, one for each continuation, three for each first fragment |
| SendPlan.CallPlanned | server/wtp/wtp/transmission.py:184-244 | the whole call goes by a plan made from message lengths, window room, pending packets and due fragments: which packets go out, how much the estimate counts and leaves out, and whether it raises |
| SendPlan.FillsExactly | server/wtp/wtp/transmission.py:89-93 | a piece that fills the space is the last record, and its last byte is the last the estimate allows |
| WriteArrives.LimitKeptIff | server/wtp/wtp/transmission.py:184-244 | on the state before the call: the length of what is written, and the limit is kept if and only if a piece that fills the space is the only record, or without one the planned records leave room for what the estimate leaves out |
| WriteArrives.AckBeforeMessage | server/wtp/wtp/transmission.py:189-236 | at the first size limit, one ack of three bytes in front of a message of more than 14 makes 25 bytes |
| WriteArrives.OutputAtMostDouble | server/wtp/wtp/transmission.py:223-236 | no output is longer than twice the size limit, so the length byte holds it up to a limit of 127 |
| WriteArrives.LimitOverrun | server/wtp/wtp/transmission.py:192-200 | eight acks of three bytes at the first size limit, 24, are written as 32 bytes |
| DownlinkBytes.SendIsWhatArrives | client/wtp/wtp/endpoint.c:99-181 | in every legal run of the downlink: the bytes of the next write, stored in any order with repeats, are parsed without error, and the handlers hand to the receive control exactly the packets that Send puts on the air, in order, unless the write raises |
| Ring.CursorsAgreeIff | client/wisp-base/wio/buf.c:156-191 | frees in allocation order retrace the write cursor if and only if no block would end where the buffer ends |
| Ring.ExactFitDiverges | client/wisp-base/wio/buf.c:163-187 | where the two wrap tests send the cursors in that case |
| Ring.LiveBlocksDisjoint | client/wisp-base/wio/buf.c:156-175 | live blocks are in bounds and do not overlap while their stretch, skipped tails included, fits the buffer |
| Ring.WioRing.Alloc | client/wisp-base/wio/buf.c:156-175 | the block lies where the specification puts it, inside the buffer |
| Ring.WioRing.Free | client/wisp-base/wio/buf.c:180-191 | where the k-th free leaves the read cursor; while no block fitted exactly, where the k-th allocation left the write cursor |
| Uplink.NextDelivered | server/wtp/wtp/transmission.py:271-343 | the next fragment is taken in, its message comes out whole with its last one, and nothing stays pending |
| Uplink.StaleRejected | server/wtp/wtp/transmission.py:281-287 | a fragment consumed less than 2^16 minus window bytes ago changes nothing |
| Uplink.StaysInOrderExactly | server/wtp/wtp/transmission.py:271-343 | for every in-order state and every fragment whose number is not taken for the expected one: some in-order view fits afterwards if and only if the packet was the next one, outside the window, a continuation, or refused for an overlap |
| Uplink.InOrderUplink | server/wtp/wtp/transmission.py:271-343 | for streams of any length: a delivery of such packets, early continuations and repeats among them, returns exactly the messages of the consumed prefix |
| Uplink.HarmlessWhen | server/wtp/wtp/transmission.py:281-287 | in positions less than 2^16 apart: consumed and behind the window, beyond it, or ahead without announcing a message is enough |
| Uplink.EarlyPacketDropped | server/wtp/wtp/transmission.py:317-342 | a packet ahead of its turn leaves nothing but perhaps its declaration |
| Uplink.NeverKept | server/wtp/wtp/transmission.py:303-343 | over every sequence of packets of any kind: between calls no fragment is pending, so data is never refused for an overlap, and what is not next when it arrives is not kept |
| UplinkEarly.HeadAtItsTurn | server/wtp/wtp/transmission.py:289-304 | the first packet of a declared message at its turn is refused if and only if nothing else is declared, or what is declared next begins before its message ends |
| UplinkEarly.EarlyHeadStalls | server/wtp/wtp/transmission.py:289-342 | a first packet arriving early between two messages: the messages before it come out, and after that no packet of the stream, in whatever order, changes anything or returns a message |
| UplinkEarly.EarlyHeadMerges | server/wtp/wtp/transmission.py:289-342 | the first packet of any later message arriving early in the middle of a message: that message and the next come out as one |
| UplinkEarly.BoundaryLost | server/wtp/wtp/transmission.py:289-342 | such a run of four packets from the initial state, for messages of any size within the window |
| UplinkEarly.TwoDebtsRecover | server/wtp/wtp/transmission.py:289-342 | three messages arriving last first from the initial state: with two declared early, all three come out when sent again in order |
| Uplink.SlidingWindowRxControl.HandlePacket | server/wtp/wtp/transmission.py:271-343 | state and messages of the specification, for every input |
| Uplink.SlidingWindowRxControl.FindPlace | server/wtp/wtp/transmission.py:292-297 | where the search loop leaves its index, falling through included |
| AccessLoop.RaiseStopsAccess | server/wtp/wtp/connection.py:217-304 | over every run of sends, timeouts, requests, acks and results: until a write raises, the flag says whether an AccessSpec is with the reader; once one has, the flag stays set and no Read or Write is ever asked of the reader again |
| AccessLoop.LongMessageStops | server/wtp/wtp/connection.py:217-304 | such a run from the start: a message of more than 64 bytes is written as far as 61 while the size limit grows, and then nothing more is asked for, whatever happens |
| AccessLoop.RequestExact | server/wtp/wtp/connection.py:217-304 | with the flag clear, a request asks for exactly one OpSpec, the oldest pending Read size or else the write planned, if and only if a size is pending or the plan made from the state before has a record and does not raise; else for nothing, and unless it raises the flag stays clear |
| AccessLoop.RecordIff | server/wtp/wtp/connection.py:238-249 | on the state before the call: there is something to write if and only if the first control packet fits the limit, or with none pending the first due fragment does, or with none due something is left to cut with space and window room for it |
| AccessLoop.AskedInOrder | server/wtp/wtp/connection.py:197-304 | over every run and its next step: the Reads asked for and then the sizes still pending are those the tag requested, in order; an OpSpec is asked for only with the results of all earlier ones back, a Write only with no size pending; exactly when a handler requests, the flag is clear and there is something to ask for; every Write has at least one byte |
| AccessLoop.ConnectionDrivesSender | server/wtp/wtp/connection.py:76-319 | every run of the connection is, for its transmit control, a run of exactly its own messages, control packets, timeouts, size changes and acks in order, with writes in between, so the tiling and the completion of `TxRuns.SenderRun` hold at every moment of it |
| AccessLoop.AccessRequests.RequestAccessSpec | server/wtp/wtp/connection.py:217-304 | one request: the flag, the next Read or Write if there is one, and the exception, as specified; when there is one is `AccessLoop.RequestExact` |
| Connection.ReceiveMatching | server/wtp/wtp/connection.py:174-181 | for every interleaving, with callbacks that call recv in turn: the k-th recv gets the k-th message once, as soon as both exist, and messages and Deferreds are never both pending |
| Connection.SendCompletion | server/wtp/wtp/connection.py:136-157 | over every run the k-th Deferred of send has fired exactly when message k is wholly acknowledged, in order, and the list popped from is never empty |
| Connection.OpenedByFirstZero | server/wtp/wtp/connection.py:136-150 | while the downlink is opening, over any list of acks: it is open from the first ack of 0 on, and that ack alone does not reach the sender |
| Connection.ClosedByFirstAck | server/wtp/wtp/connection.py:136-150 | while it is closing, the first ack closes it, whatever its number, and that ack alone does not reach the sender |
| Connection.WTPConnection.Send | server/wtp/wtp/connection.py:305-319 | the message joins the stream and its Deferred the list |
| Connection.WTPConnection.Recv | server/wtp/wtp/connection.py:320-333 | resolved at once by the oldest pending message, else queued |
| Connection.WTPConnection.HandOver | server/wtp/wtp/connection.py:174-181 | the resolving loop, with re-entrant calls of recv |
| Connection.WTPConnection.HandleAck | server/wtp/wtp/connection.py:136-157 | the ack that opens the downlink, the ack that closes it, or else completion of exactly the messages acknowledged |
| Crc.Crc16Ccitt | client/wisp-base/Math/crc16_ccitt.asm:37-51 | the CRC of the bytes from the preload, both in inverted form |
| Crc.Crc16BitsCcitt | client/wisp-base/Math/crc16_ccitt.asm:60-95 | the CRC of whole bytes and then of the first bits of the next byte |
| Crc.FoldLinear | client/wisp-base/Math/crc16_ccitt.asm:77-89 | the bit loop is linear in register and bits |
| Crc.Residue | client/wisp-base/Math/crc16_ccitt.asm:77-95 | sending the complement of the register brings it to 0x1D0F, whatever it holds |
| Crc.ZeroBitPreload | client/wisp-base/Math/crc16.h:13 | 0x1020 is the inverted register after one 0 bit |
| Fm0.DecodeWaveform | client/wisp-base/RFID/TxFM0.asm:142-275 | a waveform is header, symbols and end of signalling; decoding the symbols pair by pair gives the bits back, and the level changes at every boundary |
| Fm0.HeaderReads | client/wisp-base/RFID/TxFM0.asm:113-175 | a reader can find the reply: with pilot tones twelve zeros come first, the preamble decodes to 1, 0, 1, 0, violation, 1 from a low level on, and in the whole waveform the level changes at every symbol boundary except that one |
| Fm0.Transmitter.SendByte | client/wisp-base/RFID/TxFM0.asm:180-266 | the unrolled loop emits the symbols of the byte's bits, most significant first |
| Fm0.Transmitter.SendLastBits | client/wisp-base/RFID/TxFM0.asm:466-482 | the bit loop emits the symbols of the first bits of the last byte |
| Fm0.Transmitter.SendBytesAndBits | client/wisp-base/RFID/TxFM0.asm:304-507 | the version with bytes and bits emits the whole waveform, preamble included |
| Fm0.Transmitter.SendOnlyBytes | client/wisp-base/RFID/TxFM0.asm:113-290 | the version with bytes only emits the whole waveform, preamble included |
| Fm0.Transmitter.SendOnlyBits | client/wisp-base/RFID/TxFM0.asm:515-622 | the version with bits only emits the whole waveform, preamble included |
| Fm0.Transmitter.TxFm0 | client/wisp-base/RFID/TxFM0.asm:90-107 | whichever version the counts select, the line carries the same waveform, whose level changes at every symbol boundary but the violation in the preamble |
| ReadReply.RotateShifts | client/wisp-base/RFID/rfid_ReadHandle.asm:282-325 | rotating through carry moves the whole bit string one place on and puts the 0 bit in front |
| ReadReply.InsertStatusBit | client/wisp-base/RFID/rfid_ReadHandle.asm:282-325 | the rotations of all 38 bytes in place |
| ReadReply.BuildReply | client/wisp-base/RFID/rfid_ReadHandle.asm:144-325 | the bits to be sent from the buffer are a 0, the words, the handle and the CRC of all of it |
| ReadReply.FieldsOfCommand | client/wisp-base/RFID/rfid_ReadHandle.asm:74-215 | memory bank, word pointer, word count and handle as put together from the received bytes are bits 8 to 10, 10 to 18, 18 to 26 and 26 to 42 of the command |
| ReadReply.AskedByBits | client/wisp-base/RFID/rfid_ReadHandle.asm:74-215 | for every command: the words answered are those of the bank numbered by bits 8 and 9, from the word numbered by bits 10 to 18, as many as bits 18 to 26 say, each read as a number with its high bits first |
| ReadReply.NamedHandle | client/wisp-base/RFID/rfid_ReadHandle.asm:340-355 | the command names a handle exactly if its bits 26 to 42 are the handle's bits |
| ReadReply.ReceivedHandle | client/wisp-base/RFID/rfid_ReadHandle.asm:340-353 | the rotations of a word through the carry put the handle together, whatever the carry was |
| ReadReply.HandleRead | client/wisp-base/RFID/rfid_ReadHandle.asm:65-444 | for every command of up to 16 words, memory content and handle: nothing is sent exactly if bits 26 to 42 of the command are not the handle; else a reader decodes the line to a 0, the words the command's bits name, the handle, and a CRC that checks |
| ReadReply.ReplyChecks | client/wisp-base/RFID/rfid_ReadHandle.asm:258-274 | a reader's CRC register over the whole reply ends at the residue |
| ReadReply.ReaderAccepts | client/wisp-base/RFID/rfid_ReadHandle.asm:386-398 | decoding the waveform gives the 0 bit, the data and the handle, and the CRC checks |

## Left out

- TxControl.SlidingWindowTxControl.AddMsg: messages are below 2^16 bytes; the header field holds no more.
- Downlink.DownlinkSafety: for non-empty messages and a total stream of at most 2^16 bytes minus the window; beyond that the tag's window test lets consumed packets in again (`RxWrap.WindowTestReach`).
- RxControl.RxCtrl.HandlePacket: as for StoreFragment below.
- RxControl.RxCtrl.StoreFragment: pending fragments are heap objects; their memory in the ring, the copying into it and the clean-up loop behind reassembly are not modelled, because that loop reads a header before the cursor wraps. The ring's cursors are modelled by themselves.
- RxControl.WioBuf.Write: buffers end at least 256 bytes below 2^16, so that cursor plus size does not wrap.
- TxControl.SlidingWindowTxControl.constructor: the window is below 256, so that a fragment's size fits its byte; the server's is 64.
- RxControl.RxCtrl.HandleMsgPacket: where the receive loop finds what it is to read, which holds in every run (`Downlink.NoWriteFails`).
- Ring.WioRing.Alloc: capacities up to 2^15, so that cursor plus size does not wrap, and blocks smaller than the buffer.
- Framing.FramingRoundTrip: for well-formed lists. The parser is modelled on every input, but a payload that runs past the end is refused before its checksum is computed over foreign memory; the outcome is the same.
- BlockWrite.DataArrives: that the reader sends every word most significant byte first, with its own word pointer, is taken from the format of the command.
- Crc.Crc16Ccitt: the byte step of the CRC hardware is taken to be eight of the software bit steps, most significant bit first.
- Fm0.Transmitter.TxFm0: levels in order, not their timing; the port set-up before the first tone and the pin cleared after the end are not part of the waveform.
- ReadReply.HandleRead: word counts above 16, which do not fit the reply buffer; the user hook and the abort flag after the reply. Memory is readable behind each bank as far as a word pointer reaches.
- Crc.Crc16BitsCcitt: up to eight bits of the last byte; there are no more in it.
- Framing.PacketBuf.HandleNext: the parsing of a turn; what becomes of a packet after that is an outcome given to `Framing.HandleBlockwrite`.
- Connection.WTPConnection.Send: the request for an AccessSpec that the call makes, which is the Send step of `AccessLoop`; when it raises, the call creates no Deferred.
- TxControl.SlidingWindowTxControl.HandlePacketTimeout: the request the call makes is the Expire step of `AccessLoop`.
- AccessLoop.RaiseStopsAccess: an AccessSpec of one OpSpec, as the server is set up; writes of 256 bytes and more, which its size limits do not allow; an error from the reader in place of a result.
- Connection.SendCompletion: a callback that sends again is a send that follows the ack.
- Progress.DeliverableIff: that there is a way on, not that it is taken: a control packet can be popped and lost (`ControlQueue.ControlTaken`), a flag cleared without a retransmission (`Retransmit.RetransmissionLost`), and timers fire when the run says so. With a cyclic cut position nothing is claimed, as every write that comes to it raises.
- RxOverflow.FailureIsFinal: for packets that end below 2^16.
- The tag's transmit control, its timer and its EPC packing; opening and closing a connection beyond the acks that open and close the downlink; request-uplink and set-parameter packets to the server.
- Uplink.InOrderUplink: packets whose 16-bit number is that of the expected one a whole round away; what several messages declared early at once do, beyond the cases above.
- Twisted's reactor and Deferred internals, LLRP traffic and the OpSpec size heuristic: the size limit changes freely instead.
- The queues of callbacks on the tag, u-RPC and the services on top, and everything about sensors, clocks and peripherals.
