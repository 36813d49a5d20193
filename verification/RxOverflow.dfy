/**
 * The tag's message buffer too small (client/wtp/wtp/transmission.c): what a
 * failed write in reassembly leaves behind, and that it is for good.
 */
module RxOverflow {
  import opened Base
  import opened Cyclic
  import opened Stream
  import opened RxSpec

  /** Fragments are not empty and end below 2^16. */
  ghost predicate Unwrapped(frags: seq<RxFrag>) {
    forall i :: 0 <= i < |frags| ==> frags[i].data != [] && frags[i].seqNum + |frags[i].data| < 0x10000
  }

  /** The size of a message that begins here does not fit the buffer. */
  ghost predicate NoRoomForSize(st: RxState) { BeginsHere(st) && !Fits2(st, 2) }

  /** The first fragment of the list is next, and its data does not fit. */
  ghost predicate NoRoomForData(st: RxState) {
    st.frags != [] && st.frags[0].seqNum == st.seqNum && !Fits2(st, |st.frags[0].data|)
  }

  /** The list begins with a fragment that is consumed already, or nothing fits that would have to be written next. */
  ghost predicate Stuck(st: RxState) {
    st.frags != [] && (st.frags[0].seqNum < st.seqNum || NoRoomForData(st) || NoRoomForSize(st))
  }

  /**
   * The reassembly loop from a list of n fragments on: it takes some from the
   * front, moves the position past them, and fails exactly where the next
   * write does not fit.
   */
  lemma {:induction false} LoopTrace(st: RxState, nMsgs: nat) returns (n: nat)
    requires Unwrapped(st.frags)
    ensures Traced(st, Assemble(st, nMsgs), n)
    decreases |st.frags|
  {
    hide Assemble, Traced, NextTurn;
    n := 0;
    if TakesOne(st) {
      OneTaken(st, nMsgs);
      var k := LoopTrace(NextTurn(st), if EndsHere(TakeFirst(st)) then nMsgs + 1 else nMsgs);
      n := k + 1;
      TraceGrows(st, Assemble(st, nMsgs), k);
    } else {
      NoneTaken(st, nMsgs);
    }
  }

  ghost predicate Traced(st: RxState, r: RxResult, n: nat) {
    && n <= |st.frags| && r.st.frags == st.frags[n..] && st.buf <= r.st.buf
    && (n == 0 ==> r.st.seqNum == st.seqNum && r.st.infos == st.infos)
    && (n > 0 ==> st.frags[0].seqNum == st.seqNum < r.st.seqNum)
    && (r.status == Ok || r.status == OutOfRange)
    && (r.status == OutOfRange ==> n < |st.frags| && (NoRoomForSize(r.st) || NoRoomForData(r.st)))
  }

  /** With the size of a message that begins here written. */
  ghost function Sized(st: RxState): RxState {
    if BeginsHere(st) then st.(buf := st.buf + Le16(st.infos[0].size)) else st
  }

  ghost predicate TakesOne(st: RxState) {
    && st.frags != [] && !NoRoomForSize(st) && st.frags[0].seqNum == st.seqNum
    && Fits2(Sized(st), |st.frags[0].data|)
  }

  ghost function TakeFirst(st: RxState): RxState
    requires st.frags != []
  {
    var s, f := Sized(st), st.frags[0];
    s.(buf := s.buf + f.data, seqNum := Wrap(s.seqNum + |f.data|), frags := s.frags[1..])
  }

  ghost function NextTurn(st: RxState): RxState
    requires st.frags != []
  {
    var s := TakeFirst(st);
    if EndsHere(s) then s.(infos := s.infos[1..]) else s
  }

  lemma OneTaken(st: RxState, nMsgs: nat)
    requires TakesOne(st)
    ensures Assemble(st, nMsgs) == Assemble(NextTurn(st), if EndsHere(TakeFirst(st)) then nMsgs + 1 else nMsgs)
    ensures NextTurn(st).frags == st.frags[1..]
  {
    hide Le16;
  }

  lemma NoneTaken(st: RxState, nMsgs: nat)
    requires !TakesOne(st)
    ensures Traced(st, Assemble(st, nMsgs), 0)
  {
    hide Le16;
  }

  lemma TraceGrows(st: RxState, r: RxResult, k: nat)
    requires Unwrapped(st.frags) && TakesOne(st) && Traced(NextTurn(st), r, k)
    ensures Traced(st, r, k + 1)
  {
    hide Le16;
  }

  lemma StoredUnwrapped(frags: seq<RxFrag>, p: nat, f: RxFrag)
    requires Unwrapped(frags) && p <= |frags| && f.data != [] && f.seqNum + |f.data| < 0x10000
    ensures Unwrapped(InsertAt(frags, p, f))
  {
  }

  lemma InsideWindow(st: RxState, seqNum: U16, size: nat)
    requires InWindow(st, seqNum, size) && seqNum + size < 0x10000 && st.seqNum + st.windowSize <= 0x10000
    ensures 0 < size && st.seqNum <= seqNum
  {
  }

  lemma EmptyOutside(st: RxState, seqNum: U16)
    ensures !InWindow(st, seqNum, 0)
  {
  }

  /**
   * The call that fails: no message is reported, not even those it completed;
   * the new fragment is in the list, the fragments consumed are as well, and
   * the control is stuck.
   */
  lemma FailureLeaves(st: RxState, seqNum: U16, data: seq<byte>, size: U16)
    requires Unwrapped(st.frags) && seqNum + |data| < 0x10000
    requires Handle(st, seqNum, data, size).status == OutOfRange
    ensures var r := Handle(st, seqNum, data, size);
            && r.nMsgs == 0 && Stuck(r.st) && Unwrapped(r.st.frags)
            && r.st.frags == InsertAt(st.frags, FragPos(st.frags, seqNum, 0), RxFrag(seqNum, data))
            && st.buf <= r.st.buf
  {
    hide Assemble, InWindow, InsertAt, InfoPos, FragPos;
    EmptyOutside(st, seqNum);
    var d := if size != 0 then Declare(st, seqNum, size) else Changed(st, Ok);
    var s := Store(d.st, seqNum, data).st;
    StoredUnwrapped(st.frags, FragPos(st.frags, seqNum, 0), RxFrag(seqNum, data));
    var n := LoopTrace(s, 0);
    assert n == 0 ==> s.frags[0..] == s.frags;
  }

  /** Behind the first fragment a new one at or above the position goes further back, or is refused. */
  lemma HeadStays(frags: seq<RxFrag>, at: int, seqNum: U16, data: seq<byte>)
    requires frags != [] && at <= seqNum && data != [] && seqNum + |data| < 0x10000 && frags[0].seqNum <= at
    ensures var p := FragPos(frags, seqNum, 0);
            p > 0 || (p < |frags| && Wrap(seqNum + |data|) > frags[p].seqNum)
  {
  }

  lemma FirstInfoStays(st: RxState, seqNum: U16, size: U16)
    requires BeginsHere(st) && st.seqNum <= seqNum && size != 0 && seqNum + size < 0x10000
    ensures var d := Declare(st, seqNum, size).st; BeginsHere(d) && d.buf == st.buf && d.frags == st.frags
  {
  }

  lemma DeclareKeeps(st: RxState, seqNum: U16, size: U16)
    ensures var d := Declare(st, seqNum, size).st; d == st.(infos := d.infos)
  {
  }

  /** From a stuck state the loop takes nothing. */
  lemma StuckTakesNothing(st: RxState)
    requires Stuck(st)
    ensures var r := Assemble(st, 0);
            && r.nMsgs == 0 && r.st == st.(buf := r.st.buf) && st.buf <= r.st.buf
            && (r.status == Ok || r.status == OutOfRange) && Stuck(r.st)
  {
  }

  /** The packet that joins the list of a stuck control leaves it stuck. */
  lemma StuckStays(st: RxState, seqNum: U16, data: seq<byte>, size: U16)
    requires Stuck(st) && Unwrapped(st.frags) && st.seqNum + st.windowSize <= 0x10000
    requires seqNum + |data| < 0x10000 && seqNum + size < 0x10000
    ensures var r := Handle(st, seqNum, data, size);
            && r.nMsgs == 0 && r.st.seqNum == st.seqNum && Stuck(r.st) && Unwrapped(r.st.frags)
            && SameConfig(r.st, st)
  {
    hide Assemble, InWindow, InsertAt, InfoPos, FragPos;
    if InWindow(st, seqNum, |data|) {
      InsideWindow(st, seqNum, |data|);
      var d := if size != 0 then Declare(st, seqNum, size) else Changed(st, Ok);
      StuckDeclares(st, seqNum, size);
      if d.status == Ok { StuckStores(d.st, seqNum, data); }
    }
  }

  lemma StuckDeclares(st: RxState, seqNum: U16, size: U16)
    requires Stuck(st) && st.seqNum <= seqNum && seqNum + size < 0x10000
    ensures size != 0 ==> Stuck(Declare(st, seqNum, size).st)
    ensures size != 0 ==> Declare(st, seqNum, size).st == st.(infos := Declare(st, seqNum, size).st.infos)
  {
    hide InsertAt, InfoPos;
    if size != 0 {
      DeclareKeeps(st, seqNum, size);
      if BeginsHere(st) { FirstInfoStays(st, seqNum, size); }
    }
  }

  lemma StuckStores(st: RxState, seqNum: U16, data: seq<byte>)
    requires Stuck(st) && Unwrapped(st.frags) && st.seqNum <= seqNum && data != [] && seqNum + |data| < 0x10000
    ensures var s := Store(st, seqNum, data);
            && (s.status == Ok ==>
                  var r := Finish(s.st, Assemble(s.st, 0));
                  && r.nMsgs == 0 && r.st.seqNum == st.seqNum && Stuck(r.st) && Unwrapped(r.st.frags)
                  && SameConfig(r.st, st))
            && (s.status != Ok ==> s.st == st)
  {
    hide Assemble, InsertAt, FragPos;
    var s := Store(st, seqNum, data);
    if s.status == Ok {
      var p := FragPos(st.frags, seqNum, 0);
      StoredUnwrapped(st.frags, p, RxFrag(seqNum, data));
      if st.frags[0].seqNum <= st.seqNum { HeadStays(st.frags, st.seqNum, seqNum, data); }
      HeadOfInserted(st.frags, p, RxFrag(seqNum, data));
      StuckTakesNothing(s.st);
    }
  }

  lemma HeadOfInserted(frags: seq<RxFrag>, p: nat, f: RxFrag)
    requires p <= |frags|
    ensures InsertAt(frags, p, f) != [] && (p > 0 ==> InsertAt(frags, p, f)[0] == frags[0])
  {
  }

  // ---------------------------------------------------------------------- for good

  /** What the control is called with. */
  datatype Arrival = Arrival(seqNum: U16, data: seq<byte>, size: U16)

  ghost predicate BelowWrap(ps: seq<Arrival>) {
    forall i :: 0 <= i < |ps| ==> ps[i].seqNum + |ps[i].data| < 0x10000 && ps[i].seqNum + ps[i].size < 0x10000
  }

  /** The state after these packets, and how many messages they completed. */
  function After(st: RxState, ps: seq<Arrival>): RxState
    decreases |ps|
  {
    if ps == [] then st else After(Handle(st, ps[0].seqNum, ps[0].data, ps[0].size).st, ps[1..])
  }

  function Completed(st: RxState, ps: seq<Arrival>): nat
    decreases |ps|
  {
    if ps == [] then 0 else
    var r := Handle(st, ps[0].seqNum, ps[0].data, ps[0].size);
    r.nMsgs + Completed(r.st, ps[1..])
  }

  lemma {:induction false} StuckForGood(st: RxState, ps: seq<Arrival>)
    requires Stuck(st) && Unwrapped(st.frags) && st.seqNum + st.windowSize <= 0x10000 && BelowWrap(ps)
    ensures Completed(st, ps) == 0 && After(st, ps).seqNum == st.seqNum
    decreases |ps|
  {
    hide Handle, Stuck, Unwrapped;
    if ps != [] {
      StuckStays(st, ps[0].seqNum, ps[0].data, ps[0].size);
      StuckForGood(Handle(st, ps[0].seqNum, ps[0].data, ps[0].size).st, ps[1..]);
    }
  }

  /**
   * A failed write is final, from every state: the failing call reports no
   * message, and whatever packets below the wrap of the sequence numbers
   * arrive after it, the position never moves and no message is ever
   * completed again.
   */
  lemma FailureIsFinal(st: RxState, p: Arrival, ps: seq<Arrival>)
    requires Unwrapped(st.frags) && BelowWrap([p]) && BelowWrap(ps)
    requires var r := Handle(st, p.seqNum, p.data, p.size);
             r.status == OutOfRange && r.st.seqNum + r.st.windowSize <= 0x10000
    ensures var r := Handle(st, p.seqNum, p.data, p.size);
            Completed(st, [p] + ps) == 0 && After(st, [p] + ps).seqNum == r.st.seqNum
  {
    hide Handle, Stuck, Unwrapped;
    assert [p][0] == p && ([p] + ps)[1..] == ps && ([p] + ps)[0] == p;
    FailureLeaves(st, p.seqNum, p.data, p.size);
    StuckForGood(Handle(st, p.seqNum, p.data, p.size).st, ps);
  }

  // ------------------------------------------------- a message larger than the buffer

  /** The control after the first bytes of a first message, received in order. */
  function PartOf(m: Msg, pos: nat, windowSize: nat, slots: nat, capacity: nat): RxState
    requires pos <= |m| < 0x10000
  {
    if pos == 0 then RxSpec.Init(windowSize, slots, capacity)
    else RxState(pos, [Info(0, |m|)], [], Le16(|m|) + m[..pos], windowSize, slots, capacity)
  }

  function PieceOf(m: Msg, pos: nat, end: nat): Arrival
    requires pos <= end <= |m| < 0x10000
  {
    Arrival(pos, m[pos..end], if pos == 0 then |m| else 0)
  }

  /** A piece is taken in while size and data fit, and otherwise fails. */
  lemma NextPiece(m: Msg, pos: nat, end: nat, windowSize: nat, slots: nat, capacity: nat)
    requires pos < end <= |m| && |m| + windowSize <= 0x10000 && end - pos <= windowSize && 0 < slots
    requires 2 + pos <= capacity || pos == 0
    ensures var st, p := PartOf(m, pos, windowSize, slots, capacity), PieceOf(m, pos, end);
            var r := Handle(st, p.seqNum, p.data, p.size);
            if 2 + end <= capacity then end < |m| ==> r == RxResult(PartOf(m, end, windowSize, slots, capacity), Ok, 0)
            else r.status == OutOfRange && r.st.seqNum == pos && SameConfig(r.st, st)
  {
    hide Le16;
    var st, p := PartOf(m, pos, windowSize, slots, capacity), PieceOf(m, pos, end);
    assert InWindow(st, p.seqNum, |p.data|);
    var infos := [Info(0, |m|)];
    assert InsertAt([], 0, Info(0, |m|)) == infos && InsertAt([], 0, RxFrag(pos, p.data)) == [RxFrag(pos, p.data)];
    var s := st.(infos := infos, frags := [RxFrag(pos, p.data)]);
    assert m[..pos] + m[pos..end] == m[..end] && m[..0] == [];
    assert Handle(st, p.seqNum, p.data, p.size) == Finish(s, Assemble(s, 0));
    PieceAssembled(s, m, pos, end);
  }

  lemma PieceAssembled(s: RxState, m: Msg, pos: nat, end: nat)
    requires pos < end <= |m| < 0x10000 && s.infos == [Info(0, |m|)] && s.frags == [RxFrag(pos, m[pos..end])]
    requires s.seqNum == pos && s.buf == if pos == 0 then [] else Le16(|m|) + m[..pos]
    ensures var r := Assemble(s, 0);
            if 2 + end <= s.capacity then
              end < |m| ==>
                r == RxResult(s.(seqNum := end, frags := [], buf := Le16(|m|) + m[..pos] + m[pos..end]), Ok, 0)
            else r.status == OutOfRange && r.st.seqNum == pos && SameConfig(r.st, s)
  {
    hide Le16;
    assert m[..0] == [] && Le16(|m|) + [] == Le16(|m|) && [] + Le16(|m|) == Le16(|m|);
    assert s.frags[1..] == [];
  }

  /** Cut points from one position of the message to its end. */
  ghost predicate CutsTo(m: Msg, pos: nat, ends: seq<nat>, windowSize: nat)
    decreases |ends|
  {
    if ends == [] then pos == |m|
    else pos < ends[0] <= |m| && ends[0] - pos <= windowSize && CutsTo(m, ends[0], ends[1..], windowSize)
  }

  /** The packets for these cut points. */
  ghost function Pieces(m: Msg, pos: nat, ends: seq<nat>, windowSize: nat): (ps: seq<Arrival>)
    requires CutsTo(m, pos, ends, windowSize) && |m| < 0x10000
    ensures |ps| == |ends|
    decreases |ends|
  {
    if ends == [] then [] else [PieceOf(m, pos, ends[0])] + Pieces(m, ends[0], ends[1..], windowSize)
  }

  lemma {:induction false} OversizeFrom(m: Msg, pos: nat, ends: seq<nat>, windowSize: nat, slots: nat, capacity: nat,
                                        more: seq<Arrival>)
    requires CutsTo(m, pos, ends, windowSize) && |m| + windowSize <= 0x10000 && 0 < windowSize && 0 < slots
    requires capacity < 2 + |m| && (2 + pos <= capacity || pos == 0) && BelowWrap(more) && m != []
    ensures Completed(PartOf(m, pos, windowSize, slots, capacity), Pieces(m, pos, ends, windowSize) + more) == 0
    decreases |ends|
  {
    hide Handle, Unwrapped;
    var st := PartOf(m, pos, windowSize, slots, capacity);
    var p := PieceOf(m, pos, ends[0]);
    var rest := Pieces(m, ends[0], ends[1..], windowSize) + more;
    var all := Pieces(m, pos, ends, windowSize) + more;
    assert all == [p] + rest && all[0] == p && all[1..] == rest;
    NextPiece(m, pos, ends[0], windowSize, slots, capacity);
    if 2 + ends[0] <= capacity {
      OversizeFrom(m, ends[0], ends[1..], windowSize, slots, capacity, more);
    } else {
      PiecesBelow(m, ends[0], ends[1..], windowSize);
      NothingPendingYet(m, pos, windowSize, slots, capacity);
      FailureIsFinal(st, p, rest);
    }
  }

  lemma NothingPendingYet(m: Msg, pos: nat, windowSize: nat, slots: nat, capacity: nat)
    requires pos <= |m| < 0x10000
    ensures Unwrapped(PartOf(m, pos, windowSize, slots, capacity).frags)
  {
  }

  lemma {:induction false} PiecesBelow(m: Msg, pos: nat, ends: seq<nat>, windowSize: nat)
    requires CutsTo(m, pos, ends, windowSize) && |m| < 0x10000
    ensures BelowWrap(Pieces(m, pos, ends, windowSize))
    decreases |ends|
  {
    if ends != [] { PiecesBelow(m, ends[0], ends[1..], windowSize); }
  }

  /**
   * A message that with its size is larger than the buffer, received in
   * order in whatever pieces the window allows: neither it nor any message
   * in any packets after it is ever handed out.
   */
  lemma OversizeWedges(m: Msg, ends: seq<nat>, windowSize: nat, slots: nat, capacity: nat, more: seq<Arrival>)
    requires CutsTo(m, 0, ends, windowSize) && |m| + windowSize <= 0x10000 && 0 < windowSize && 0 < slots
    requires capacity < 2 + |m| && m != [] && BelowWrap(more)
    ensures Completed(RxSpec.Init(windowSize, slots, capacity), Pieces(m, 0, ends, windowSize) + more) == 0
  {
    OversizeFrom(m, 0, ends, windowSize, slots, capacity, more);
  }
}
