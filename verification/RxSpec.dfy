/**
 * What the tag's receive control computes, on values
 * (client/wtp/wtp/transmission.c, wtp_rx_handle_packet).  Sequence numbers are
 * uint16_t; the target's int is 16 bits wide, so sums of them wrap too.
 */
module RxSpec {
  import opened Base
  import opened Cyclic
  import opened Stream

  datatype Info = Info(begin: U16, size: U16)

  datatype RxFrag = RxFrag(seqNum: U16, data: seq<byte>)

  datatype Status = Ok | Invalid | NoMemory | OutOfRange

  /**
   * The declared messages and pending fragments in list order, and the unread
   * contents of the message data buffer.
   */
  datatype RxState = RxState(
    seqNum: U16,
    infos: seq<Info>,
    frags: seq<RxFrag>,
    buf: seq<byte>,
    windowSize: nat,
    slots: nat,
    capacity: nat)

  function Init(windowSize: nat, slots: nat, capacity: nat): RxState {
    RxState(0, [], [], [], windowSize, slots, capacity)
  }

  predicate SameConfig(a: RxState, b: RxState) {
    a.windowSize == b.windowSize && a.slots == b.slots && a.capacity == b.capacity
  }

  predicate InWindow(st: RxState, seqNum: U16, size: nat) {
    var begin := Wrap(seqNum - st.seqNum);
    var end := Wrap(begin + size);
    begin < end <= st.windowSize
  }

  /** Index of the first declared message at or after i that does not begin before seqNum. */
  function InfoPos(infos: seq<Info>, seqNum: U16, i: nat): (p: nat)
    requires i <= |infos|
    ensures i <= p <= |infos|
    ensures forall j :: i <= j < p ==> infos[j].begin < seqNum
    ensures p < |infos| ==> seqNum <= infos[p].begin
    decreases |infos| - i
  {
    if i == |infos| || infos[i].begin >= seqNum then i else InfoPos(infos, seqNum, i + 1)
  }

  function FragPos(frags: seq<RxFrag>, seqNum: U16, i: nat): (p: nat)
    requires i <= |frags|
    ensures i <= p <= |frags|
    ensures forall j :: i <= j < p ==> frags[j].seqNum < seqNum
    ensures p < |frags| ==> seqNum <= frags[p].seqNum
    decreases |frags| - i
  {
    if i == |frags| || frags[i].seqNum >= seqNum then i else FragPos(frags, seqNum, i + 1)
  }

  datatype Changed = Changed(st: RxState, status: Status)

  /** Declare the message a first fragment announces. */
  function Declare(st: RxState, seqNum: U16, size: U16): Changed {
    var p := InfoPos(st.infos, seqNum, 0);
    if p < |st.infos| && Wrap(seqNum + size) > st.infos[p].begin then Changed(st, Invalid)
    else if |st.infos| >= st.slots then Changed(st, NoMemory)
    else Changed(st.(infos := InsertAt(st.infos, p, Info(seqNum, size))), Ok)
  }

  /** Put a fragment into the list of pending ones. */
  function Store(st: RxState, seqNum: U16, data: seq<byte>): Changed {
    var p := FragPos(st.frags, seqNum, 0);
    if p < |st.frags| && Wrap(seqNum + |data|) > st.frags[p].seqNum then Changed(st, Invalid)
    else Changed(st.(frags := InsertAt(st.frags, p, RxFrag(seqNum, data))), Ok)
  }

  datatype RxResult = RxResult(st: RxState, status: Status, nMsgs: nat)

  predicate Fits2(st: RxState, n: nat) { |st.buf| + n <= st.capacity }

  /** A message begins here: its size goes in front of its data. */
  predicate BeginsHere(st: RxState) { st.infos != [] && st.seqNum == st.infos[0].begin }

  predicate EndsHere(st: RxState) {
    st.infos != [] && st.seqNum == Wrap(st.infos[0].begin + st.infos[0].size)
  }

  /**
   * The reassembly loop.  When a write does not fit, it stops with the data
   * consumed so far gone from the window but not from the list.
   */
  function Assemble(st: RxState, nMsgs: nat): (r: RxResult)
    ensures SameConfig(r.st, st)
    decreases |st.frags|
  {
    if st.frags == [] then RxResult(st, Ok, nMsgs) else
    if BeginsHere(st) && !Fits2(st, 2) then RxResult(st, OutOfRange, nMsgs) else
    var s := if BeginsHere(st) then st.(buf := st.buf + Le16(st.infos[0].size)) else st;
    var f := s.frags[0];
    if f.seqNum != s.seqNum then RxResult(s, Ok, nMsgs) else
    if !Fits2(s, |f.data|) then RxResult(s, OutOfRange, nMsgs) else
    var s' := s.(buf := s.buf + f.data, seqNum := Wrap(s.seqNum + |f.data|), frags := s.frags[1..]);
    if EndsHere(s') then Assemble(s'.(infos := s'.infos[1..]), nMsgs + 1)
    else Assemble(s', nMsgs)
  }

  /** wtp_rx_handle_packet: newMsgSize is 0 for a continuation packet. */
  function Handle(st: RxState, seqNum: U16, data: seq<byte>, newMsgSize: U16): RxResult {
    if !InWindow(st, seqNum, |data|) then RxResult(st, Invalid, 0) else
    var d := if newMsgSize != 0 then Declare(st, seqNum, newMsgSize) else Changed(st, Ok);
    if d.status != Ok then RxResult(d.st, d.status, 0) else
    var s := Store(d.st, seqNum, data);
    if s.status != Ok then RxResult(s.st, s.status, 0) else
    Finish(s.st, Assemble(s.st, 0))
  }

  /** On failure the list head is not moved and no message count is reported. */
  function Finish(before: RxState, r: RxResult): RxResult {
    if r.status == Ok then r else RxResult(r.st.(frags := before.frags), r.status, 0)
  }

  datatype Drained = Drained(msgs: seq<Msg>, rest: seq<byte>, ok: bool)

  /** The receive loop of wtp_handle_msg_packet: take n length-prefixed messages off the buffer. */
  function Drain(buf: seq<byte>, n: nat): Drained {
    if n == 0 then Drained([], buf, true) else
    if |buf| < 2 || |buf| < 2 + Word(buf[0], buf[1]) then Drained([], buf, false) else
    var end := 2 + Word(buf[0], buf[1]);
    var d := Drain(buf[end..], n - 1);
    d.(msgs := [buf[2..end]] + d.msgs)
  }
}
