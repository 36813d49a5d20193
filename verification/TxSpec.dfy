/**
 * What the server's transmit control computes, on values
 * (server/wtp/wtp/transmission.py).  Every 16-bit quantity is kept modulo
 * 2^16 and compared exactly as the source does it.
 */
module TxSpec {
  import opened Base
  import opened Cyclic

  datatype TxFrag = TxFrag(seqNum: int, msgSize: nat, data: seq<byte>, needSend: bool, armed: bool)
  {
    /** The sequence number just after the fragment. */
    function End(): int { Wrap(seqNum + |data|) }
  }

  datatype TxState = TxState(
    seqNum: int,
    packets: seq<seq<byte>>,
    messages: seq<seq<byte>>,
    msgBegin: int,
    msgFragmented: nat,
    msgEnds: seq<int>,
    fragments: seq<TxFrag>,
    writeSize: nat,
    windowSize: nat,
    checksum: bool,
    cyclicCut: bool)

  function Init(writeSize: nat, windowSize: nat, checksum: bool): TxState {
    TxState(0, [], [], 0, 0, [], [], writeSize, windowSize, checksum, false)
  }

  predicate SameConfig(a: TxState, b: TxState) {
    a.writeSize == b.writeSize && a.windowSize == b.windowSize && a.checksum == b.checksum
  }

  function Min(a: int, b: int): int { if b < a then b else a }

  /** Retire the message at the head of the queue once it is fully cut. */
  function LoadNext(st: TxState): TxState
    requires st.messages != []
  {
    if st.msgFragmented >= |st.messages[0]| then
      var begin := Wrap(st.msgBegin + |st.messages[0]|);
      st.(msgBegin := begin, msgFragmented := 0, msgEnds := st.msgEnds + [begin], messages := st.messages[1..],
          cyclicCut := false)
    else
      st
  }

  function ChecksumSize(st: TxState): nat { if st.checksum then 1 else 0 }

  /** What the space left in the write allows for the next fragment's data. */
  function Space(st: TxState, avail: int): int {
    avail - (if st.msgFragmented == 0 then 6 else 4) - ChecksumSize(st)
  }

  /** What is not cut yet of the message at the head of the queue. */
  function Rest(st: TxState): int
    requires st.messages != []
  {
    |st.messages[0]| - st.msgFragmented
  }

  /** What the window leaves. */
  function Room(st: TxState): nat { Wrap(st.seqNum + st.windowSize - Wrap(st.msgBegin + st.msgFragmented)) }

  /** The size of the next fragment: limited by space, message and window. */
  function PieceSize(st: TxState, avail: int): int
    requires st.messages != []
  {
    Min(Min(Space(st, avail), Rest(st)), Room(st))
  }

  /** Python's min takes the window, a cyclic integer, only where it is strictly the least. */
  predicate ByWindow(st: TxState, avail: int)
    requires st.messages != []
  {
    Room(st) < Min(Space(st, avail), Rest(st))
  }

  function CutPiece(st: TxState, size: nat): TxFrag
    requires st.messages != [] && st.msgFragmented + size <= |st.messages[0]|
  {
    TxFrag(
      Wrap(st.msgBegin + st.msgFragmented),
      if st.msgFragmented == 0 then |st.messages[0]| else 0,
      st.messages[0][st.msgFragmented..st.msgFragmented + size],
      false,
      false)
  }

  datatype Made = Made(st: TxState, fragment: Option<TxFrag>, raised: bool)

  /**
   * The next fragment.  A cut limited by the window makes the cut position a
   * cyclic integer, and the next cut from the same message then raises, as
   * such a one cannot be subtracted from the length of the message.
   */
  function MakeFragment(st: TxState, avail: int): (m: Made)
    ensures m.st.packets == st.packets && m.st.fragments == st.fragments
    ensures m.raised ==> m.fragment.None?
  {
    if st.messages == [] then Made(st, None, false) else
    var s := LoadNext(st);
    if s.messages == [] then Made(s, None, false) else
    if s.cyclicCut then Made(s, None, true) else
    var size := PieceSize(s, avail);
    if size <= 0 then Made(s, None, false) else
    Made(s.(msgFragmented := s.msgFragmented + size, cyclicCut := ByWindow(s, avail)), Some(CutPiece(s, size)), false)
  }

  /** Index of the first fragment at or after i waiting for retransmission, or the length. */
  function FirstNeedSend(fs: seq<TxFrag>, i: nat): (k: nat)
    requires i <= |fs|
    ensures i <= k <= |fs|
    ensures forall j :: i <= j < k ==> !fs[j].needSend
    ensures k < |fs| ==> fs[k].needSend
    decreases |fs| - i
  {
    if i == |fs| || fs[i].needSend then i else FirstNeedSend(fs, i + 1)
  }

  datatype Picked = Nothing(st: TxState, raised: bool) | Picked(st: TxState, index: nat)

  /** Pick the fragment to send: an outstanding one first, else a newly cut one. */
  function Select(st: TxState, avail: int): (p: Picked)
    ensures p.Picked? ==> p.index < |p.st.fragments|
    ensures SameConfig(p.st, st) && p.st.packets == st.packets && |st.fragments| <= |p.st.fragments|
  {
    var k := FirstNeedSend(st.fragments, 0);
    if k < |st.fragments| then
      Picked(st.(fragments := st.fragments[k := st.fragments[k].(needSend := false)]), k)
    else
      var made := MakeFragment(st, avail);
      match made.fragment
      case None => Nothing(made.st, made.raised)
      case Some(f) => Picked(made.st.(fragments := made.st.fragments + [f]), |made.st.fragments|)
  }

  /** A written fragment gets its timeout Deferred. */
  function Arm(st: TxState, k: nat): (r: TxState)
    requires k < |st.fragments|
    ensures SameConfig(r, st) && r.packets == st.packets && |r.fragments| == |st.fragments|
  {
    st.(fragments := st.fragments[k := st.fragments[k].(armed := true)])
  }

  datatype Sent = Sent(st: TxState, out: seq<TxFrag>, raised: bool)

  /** The data part of get_write_data: the final state and the fragments written, in order. */
  function SendLoop(st: TxState, estimate: nat): (r: Sent)
    requires estimate <= st.writeSize
    ensures SameConfig(r.st, st) && r.st.packets == st.packets && |st.fragments| <= |r.st.fragments|
    decreases st.writeSize - estimate, 1
  {
    WritePicked(Select(st, st.writeSize - estimate), estimate)
  }

  /** Write the picked fragment if it fits, and go on. */
  function WritePicked(p: Picked, estimate: nat): (r: Sent)
    requires p.Picked? ==> p.index < |p.st.fragments|
    requires estimate <= p.st.writeSize
    ensures SameConfig(r.st, p.st) && r.st.packets == p.st.packets && |p.st.fragments| <= |r.st.fragments|
    decreases p.st.writeSize - estimate, 0
  {
    match p
    case Nothing(s, raised) => Sent(s, [], raised)
    case Picked(s, k) =>
      var estimate' := estimate + 4 + |s.fragments[k].data|;
      if estimate' > s.writeSize then Sent(s, [], false)
      else Push(s.fragments[k], SendLoop(Arm(s, k), estimate'))
  }

  function Push(f: TxFrag, r: Sent): Sent { r.(out := [f] + r.out) }

  datatype Control = Control(rest: seq<seq<byte>>, written: seq<seq<byte>>, estimate: nat, tooLong: bool)

  /** The control-packet part: the packet that does not fit is popped and lost. */
  function ControlLoop(packets: seq<seq<byte>>, estimate: nat, writeSize: nat): (c: Control)
    requires estimate <= writeSize
    ensures !c.tooLong ==> c.rest == [] && c.estimate <= writeSize
  {
    if packets == [] then Control([], [], estimate, false) else
    var estimate' := estimate + |packets[0]|;
    if estimate' > writeSize then Control(packets[1..], [], estimate', true) else
    var c := ControlLoop(packets[1..], estimate', writeSize);
    c.(written := [packets[0]] + c.written)
  }

  /** What a call of get_write_data puts on its stream; when it raises, nothing of that is returned. */
  datatype Written = Written(st: TxState, control: seq<seq<byte>>, data: seq<TxFrag>, raised: bool)

  function GetWriteData(st: TxState): (w: Written)
    ensures SameConfig(w.st, st)
  {
    var c := ControlLoop(st.packets, 0, st.writeSize);
    var s := st.(packets := c.rest);
    if c.tooLong then Written(s, c.written, [], false) else
    var r := SendLoop(s, c.estimate);
    Written(r.st, c.written, r.out, r.raised)
  }

  /**
   * Scan for the outstanding fragment that ends at the acknowledged number.
   * The value is how many fragments are acknowledged; None drops the ack.
   */
  function AckScan(fs: seq<TxFrag>, zero: int, ack: int, i: nat): (r: Option<nat>)
    requires i <= |fs|
    ensures r.Some? ==> i <= r.value <= |fs|
    decreases |fs| - i
  {
    if i == |fs| then Some(i)
    else if fs[i].End() == ack then Some(i + 1)
    else if Rel(zero, fs[i].End()) > Rel(zero, ack) then None
    else AckScan(fs, zero, ack, i + 1)
  }

  datatype Popped = Popped(ends: seq<int>, count: nat)

  /** Each removed fragment retires at most one recorded message end. */
  function PopEnds(ends: seq<int>, fs: seq<TxFrag>, zero: int): Popped
    decreases |fs|
  {
    if fs == [] then Popped(ends, 0) else
    if ends != [] && Rel(zero, ends[0]) <= Rel(zero, fs[0].End()) then
      var p := PopEnds(ends[1..], fs[1..], zero);
      p.(count := p.count + 1)
    else
      PopEnds(ends, fs[1..], zero)
  }

  datatype AckResult = AckResult(st: TxState, sent: nat)

  /** How many fragments an acknowledged number covers; None when it is dropped. */
  function AckCount(st: TxState, ack: int): (n: Option<nat>)
    ensures n.Some? ==> n.value <= |st.fragments|
  {
    if Rel(st.seqNum, ack) > Rel(st.seqNum, Wrap(st.msgBegin + st.msgFragmented)) then None
    else AckScan(st.fragments, st.seqNum, ack, 0)
  }

  function RemoveAcked(st: TxState, ack: int, n: nat): AckResult
    requires n <= |st.fragments|
  {
    var p := PopEnds(st.msgEnds, st.fragments[..n], st.seqNum);
    AckResult(st.(seqNum := ack, fragments := st.fragments[n..], msgEnds := p.ends), p.count)
  }

  function HandleAck(st: TxState, seqNum: int): AckResult {
    match AckCount(st, Wrap(seqNum))
    case None => AckResult(st, 0)
    case Some(n) => RemoveAcked(st, Wrap(seqNum), n)
  }

  function AddMsg(st: TxState, m: seq<byte>): TxState { st.(messages := st.messages + [m]) }

  function AddPacket(st: TxState, p: seq<byte>): TxState { st.(packets := st.packets + [p]) }

  /** A fragment's timer fires. */
  function Timeout(st: TxState, i: nat): TxState
    requires i < |st.fragments|
  {
    st.(fragments := st.fragments[i := st.fragments[i].(needSend := true)])
  }
}
