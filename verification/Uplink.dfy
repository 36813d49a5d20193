/**
 * The server's receive control (server/wtp/wtp/transmission.py), with the
 * places its loops leave their index at, and what it does for input in order.
 */
module Uplink {
  import opened Base
  import opened Cyclic
  import opened Stream
  import CyclicOrder

  datatype Info = Info(begin: U16, size: U16)

  datatype UpFrag = UpFrag(seqNum: U16, data: seq<byte>)

  datatype UpState = UpState(
    seqNum: U16,
    windowSize: nat,
    msgData: seq<byte>,
    fragments: seq<UpFrag>,
    msgInfo: seq<Info>)

  function Init(windowSize: nat): UpState { UpState(0, windowSize, [], [], []) }

  predicate InWindow(begin: U16, windowSize: nat, seqNum: U16, size: nat) {
    CyclicOrder.Contained(CyclicOrder.RangeOf(begin, windowSize, 0x10000),
                          CyclicOrder.RangeOf(seqNum, size, 0x10000)) == CyclicOrder.Ok(true)
  }

  /** The loop variable after the search: where it stopped, else the last index, else 0. */
  function Place(begins: seq<U16>, zero: U16, seqNum: U16, i: nat): (p: nat)
    requires i <= |begins|
    ensures begins != [] ==> p < |begins|
    ensures begins == [] ==> p == 0
    decreases |begins| - i
  {
    if i == |begins| then (if i == 0 then 0 else i - 1)
    else if Rel(zero, seqNum) < Rel(zero, begins[i]) then i
    else Place(begins, zero, seqNum, i + 1)
  }

  function InfoBegins(infos: seq<Info>): (b: seq<U16>)
    ensures |b| == |infos| && forall i :: 0 <= i < |b| ==> b[i] == infos[i].begin
  {
    seq(|infos|, i requires 0 <= i < |infos| => infos[i].begin)
  }

  function FragBegins(fs: seq<UpFrag>): (b: seq<U16>)
    ensures |b| == |fs| && forall i :: 0 <= i < |b| ==> b[i] == fs[i].seqNum
  {
    seq(|fs|, i requires 0 <= i < |fs| => fs[i].seqNum)
  }

  /** None if the new message overlaps the declared one it would be put in front of. */
  function Declare(st: UpState, seqNum: U16, size: U16): Option<UpState> {
    var begins := InfoBegins(st.msgInfo);
    var i := Place(begins, st.seqNum, seqNum, 0);
    if i < |begins| && Rel(st.seqNum, Wrap(seqNum + size)) > Rel(st.seqNum, begins[i]) then None
    else Some(st.(msgInfo := InsertAt(st.msgInfo, i, Info(seqNum, size))))
  }

  function Store(st: UpState, seqNum: U16, data: seq<byte>): Option<UpState> {
    var begins := FragBegins(st.fragments);
    var i := Place(begins, st.seqNum, seqNum, 0);
    if i < |begins| && Rel(st.seqNum, Wrap(seqNum + |data|)) > Rel(st.seqNum, begins[i]) then None
    else Some(st.(fragments := InsertAt(st.fragments, i, UpFrag(seqNum, data))))
  }

  datatype UpResult = UpResult(st: UpState, msgs: seq<Msg>)

  predicate MessageEnds(st: UpState) {
    st.msgInfo != [] && st.seqNum == Wrap(st.msgInfo[0].begin + st.msgInfo[0].size)
  }

  function Taken(st: UpState, f: UpFrag): UpState {
    st.(msgData := st.msgData + f.data, seqNum := Wrap(st.seqNum + |f.data|))
  }

  /** Assembly from fragment i on; the fragment it stops at is popped with the others. */
  function Assemble(st: UpState, i: nat, msgs: seq<Msg>): UpResult
    requires i <= |st.fragments|
    decreases |st.fragments| - i
  {
    if i == |st.fragments| then UpResult(st.(fragments := []), msgs) else
    var f := st.fragments[i];
    if f.seqNum != st.seqNum then UpResult(st.(fragments := st.fragments[i + 1..]), msgs) else
    var s := Taken(st, f);
    if MessageEnds(s) then Assemble(s.(msgData := [], msgInfo := s.msgInfo[1..]), i + 1, msgs + [s.msgData])
    else Assemble(s, i + 1, msgs)
  }

  /** handle_packet; no size and size 0 are the same to it. */
  function Handle(st: UpState, seqNum: U16, data: seq<byte>, newMsgSize: U16): UpResult {
    if !InWindow(st.seqNum, st.windowSize, seqNum, |data|) then UpResult(st, []) else
    match (if newMsgSize != 0 then Declare(st, seqNum, newMsgSize) else Some(st))
    case None => UpResult(st, [])
    case Some(s) =>
      match Store(s, seqNum, data)
      case None => UpResult(s, [])
      case Some(t) => Assemble(t, 0, [])
  }

  // --------------------------------------------------------------- in order

  /** What the control holds when everything below fragment c has been received in order. */
  ghost predicate UpInv(st: UpState, ms: seq<Msg>, h: seq<Frag>, c: nat, k: nat) {
    && NonEmpty(ms) && Tiles(ms, h) && c <= |h| && st.windowSize < 0x10000
    && (forall j :: 0 <= j < |ms| ==> |ms[j]| < 0x10000)
    && st.seqNum == Wrap(Edge(h, c)) && st.fragments == []
    && DoneAt(ms, k, Edge(h, c))
    && st.msgData == Received(ms, k, Edge(h, c))
    && st.msgInfo == if k < |ms| && Start(ms, k) < Edge(h, c) then [Info(Wrap(Start(ms, k)), |ms[k]|)] else []
  }

  ghost function Received(ms: seq<Msg>, k: nat, pos: nat): seq<byte>
    requires DoneAt(ms, k, pos)
  {
    if k < |ms| && Start(ms, k) < pos then ms[k][..pos - Start(ms, k)] else []
  }

  /** The packet for a fragment, as the tag announces it. */
  ghost function Deliver(st: UpState, ms: seq<Msg>, f: Frag): UpResult
    requires f.msg < |ms| && |ms[f.msg]| < 0x10000
  {
    Handle(st, Wrap(f.pos), f.data, SizeField(ms, f))
  }

  lemma WindowExact(st: UpState, pos: int, size: nat)
    requires st.windowSize < 0x10000 && size < 0x10000
    ensures InWindow(st.seqNum, st.windowSize, Wrap(pos), size) <==> Wrap(Wrap(pos) - st.seqNum) + size <= st.windowSize
  {
    hide CyclicOrder.Contained, CyclicOrder.RangeOf;
    CyclicOrder.ContainmentExact(st.seqNum, st.windowSize, Wrap(pos), size, 0x10000);
  }

  datatype UpPacket = UpPacket(seqNum: U16, data: seq<byte>, size: U16)

  function AfterAll(st: UpState, ps: seq<UpPacket>): UpState
    decreases |ps|
  {
    if ps == [] then st else AfterAll(Handle(st, ps[0].seqNum, ps[0].data, ps[0].size).st, ps[1..])
  }

  lemma {:induction false} LastOnePops(st: UpState, i: nat, msgs: seq<Msg>)
    requires i <= |st.fragments| <= i + 1
    ensures Assemble(st, i, msgs).st.fragments == []
    decreases |st.fragments| - i
  {
    if i < |st.fragments| && st.fragments[i].seqNum == st.seqNum {
      var s := Taken(st, st.fragments[i]);
      if MessageEnds(s) {
        LastOnePops(s.(msgData := [], msgInfo := s.msgInfo[1..]), i + 1, msgs + [s.msgData]);
      } else {
        LastOnePops(s, i + 1, msgs);
      }
    }
  }

  lemma NothingPending(st: UpState, seqNum: U16, data: seq<byte>, size: U16)
    requires st.fragments == []
    ensures Handle(st, seqNum, data, size).st.fragments == [] && Store(st, seqNum, data).Some?
    ensures size != 0 && Declare(st, seqNum, size).Some? ==> Store(Declare(st, seqNum, size).value, seqNum, data).Some?
  {
    hide InWindow, InfoBegins, Assemble;
    var f := UpFrag(seqNum, data);
    assert InsertAt([], 0, f) == [f];
    if InWindow(st.seqNum, st.windowSize, seqNum, |data|) {
      var d := if size != 0 then Declare(st, seqNum, size) else Some(st);
      if d.Some? { LastOnePops(d.value.(fragments := [f]), 0, []); }
    }
  }

  /**
   * Over every sequence of packets, of one stream or not: between calls no
   * fragment is pending, so data is never refused for overlapping other data,
   * and what is not the next one when it arrives is not kept.
   */
  lemma {:induction false} NeverKept(st: UpState, ps: seq<UpPacket>, p: UpPacket)
    requires st.fragments == []
    ensures var t := AfterAll(st, ps); t.fragments == [] && Store(t, p.seqNum, p.data).Some?
    decreases |ps|
  {
    hide Handle, Store;
    if ps == [] {
      NothingPending(st, p.seqNum, p.data, p.size);
    } else {
      NothingPending(st, ps[0].seqNum, ps[0].data, ps[0].size);
      NeverKept(Handle(st, ps[0].seqNum, ps[0].data, ps[0].size).st, ps[1..], p);
    }
  }

  /** A fragment consumed less than 2^16 - window bytes ago is outside the window. */
  lemma StaleRejected(st: UpState, ms: seq<Msg>, h: seq<Frag>, c: nat, k: nat, i: nat)
    requires UpInv(st, ms, h, c, k) && i < c
    requires Edge(h, c) - h[i].pos < 0x10000 - st.windowSize
    ensures h[i].msg < |ms| && Deliver(st, ms, h[i]) == UpResult(st, [])
  {
    var f := h[i];
    assert Fits(ms, f);
    EdgeMonotone(ms, h, i + 1, c);
    StartMonotone(ms, f.msg, |ms|);
    WindowExact(st, f.pos, |f.data|);
    WrapBehind(Edge(h, c), f.pos, st.windowSize);
  }

  lemma WrapBehind(now: int, pos: int, window: nat)
    requires pos < now && now - pos < 0x10000 - window
    ensures Wrap(Wrap(pos) - Wrap(now)) > window
  {
  }

  /** One in-order fragment, taken in: the bytes grow, and the message is complete with its last one. */
  ghost function Grown(st: UpState, ms: seq<Msg>, f: Frag): UpState
    requires f.msg < |ms| && |ms[f.msg]| < 0x10000
  {
    var infos := if SizeField(ms, f) != 0 then st.msgInfo + [Info(Wrap(f.pos), |ms[f.msg]|)] else st.msgInfo;
    st.(msgData := st.msgData + f.data, seqNum := Wrap(st.seqNum + |f.data|), fragments := [], msgInfo := infos)
  }

  ghost function AfterNext(g: UpState): UpResult {
    if MessageEnds(g) then UpResult(g.(msgData := [], msgInfo := g.msgInfo[1..]), [g.msgData]) else UpResult(g, [])
  }

  lemma DeclareFirst(st: UpState, seqNum: U16, size: U16)
    requires st.msgInfo == []
    ensures Declare(st, seqNum, size) == Some(st.(msgInfo := [Info(seqNum, size)]))
  {
    assert InsertAt([], 0, Info(seqNum, size)) == [Info(seqNum, size)];
  }

  lemma StoreFirst(st: UpState, seqNum: U16, data: seq<byte>)
    requires st.fragments == []
    ensures Store(st, seqNum, data) == Some(st.(fragments := [UpFrag(seqNum, data)]))
  {
    assert InsertAt([], 0, UpFrag(seqNum, data)) == [UpFrag(seqNum, data)];
  }

  /** The expected packet, once its message is declared if it has one: it is stored, and taken in at once. */
  lemma ExpectedTaken(st: UpState, seqNum: U16, data: seq<byte>, size: U16, infos: seq<Info>)
    requires st.fragments == [] && st.seqNum == seqNum && |data| <= st.windowSize < 0x10000
    requires if size != 0 then Declare(st, seqNum, size) == Some(st.(msgInfo := infos)) else infos == st.msgInfo
    ensures Handle(st, seqNum, data, size) ==
            AfterNext(st.(msgData := st.msgData + data, seqNum := Wrap(seqNum + |data|), msgInfo := infos))
  {
    hide InWindow, Declare, Store, Assemble;
    WindowExact(st, seqNum, |data|);
    var d := st.(msgInfo := infos);
    StoreFirst(d, seqNum, data);
    AssembleOne(d.(fragments := [UpFrag(seqNum, data)]));
  }

  lemma NextSteps(st: UpState, ms: seq<Msg>, f: Frag)
    requires f.msg < |ms| && |ms[f.msg]| < 0x10000 && st.fragments == []
    requires st.seqNum == Wrap(f.pos) && |f.data| <= st.windowSize < 0x10000
    requires SizeField(ms, f) != 0 ==> st.msgInfo == []
    ensures Deliver(st, ms, f) == AfterNext(Grown(st, ms, f))
  {
    hide Declare, Handle;
    if SizeField(ms, f) != 0 {
      DeclareFirst(st, Wrap(f.pos), SizeField(ms, f));
      assert [] + [Info(Wrap(f.pos), |ms[f.msg]|)] == [Info(Wrap(f.pos), |ms[f.msg]|)];
    }
    ExpectedTaken(st, Wrap(f.pos), f.data, SizeField(ms, f), Grown(st, ms, f).msgInfo);
  }

  lemma AssembleOne(t: UpState)
    requires |t.fragments| == 1 && t.fragments[0].seqNum == t.seqNum
    ensures var f := t.fragments[0];
            Assemble(t, 0, []) ==
            AfterNext(t.(msgData := t.msgData + f.data, seqNum := Wrap(t.seqNum + |f.data|), fragments := []))
  {
  }

  /** The end of a message is recognised modulo 2^16, and exactly then. */
  lemma EndRecognised(begin: nat, size: nat, pos: nat)
    requires 0 < pos - begin <= size < 0x10000
    ensures Wrap(pos) == Wrap(Wrap(begin) + size) <==> pos == begin + size
  {
  }

  lemma ReceivedGrows(ms: seq<Msg>, k: nat, f: Frag)
    requires NonEmpty(ms) && Fits(ms, f) && f.msg == k && DoneAt(ms, k, f.pos)
    ensures Received(ms, k, f.pos) + f.data == ms[k][..f.End() - Start(ms, k)]
  {
    var m, s := ms[k], Start(ms, k);
    assert m[..f.pos - s] + m[f.pos - s..f.End() - s] == m[..f.End() - s];
    if f.pos == s { assert [] + f.data == f.data; }
  }

  /** The next fragment begins where the received part of the current message ends. */
  lemma NextIs(st: UpState, ms: seq<Msg>, h: seq<Frag>, c: nat, k: nat)
    requires UpInv(st, ms, h, c, k) && c < |h|
    ensures k < |ms| && h[c].msg == k && Fits(ms, h[c]) && h[c].pos == Edge(h, c) && |ms[k]| < 0x10000
    ensures SizeField(ms, h[c]) != 0 ==> st.msgInfo == []
    ensures SizeField(ms, h[c]) == 0 ==> st.msgInfo == [Info(Wrap(Start(ms, k)), |ms[k]|)]
  {
    assert Fits(ms, h[c]) && h[c].pos == Edge(h, c);
    FragmentCompletes(ms, h[c], k);
  }

  /** The control just after the next fragment's bytes are taken in. */
  lemma GrownIs(st: UpState, ms: seq<Msg>, f: Frag, k: nat)
    requires NonEmpty(ms) && f.msg == k && Fits(ms, f) && |ms[k]| < 0x10000 && DoneAt(ms, k, f.pos)
    requires st.seqNum == Wrap(f.pos) && st.msgData == Received(ms, k, f.pos)
    requires st.msgInfo == if SizeField(ms, f) != 0 then [] else [Info(Wrap(Start(ms, k)), |ms[k]|)]
    ensures var g := Grown(st, ms, f);
            && g.msgData == ms[k][..f.End() - Start(ms, k)] && g.seqNum == Wrap(f.End())
            && g.msgInfo == [Info(Wrap(Start(ms, k)), |ms[k]|)] && g.fragments == [] && g.windowSize == st.windowSize
            && (MessageEnds(g) <==> f.End() == Start(ms, k) + |ms[k]|)
  {
    hide Received, DoneAt;
    ReceivedGrows(ms, k, f);
    WrapAdd(f.pos, |f.data|);
    EndRecognised(Start(ms, k), |ms[k]|, f.End());
  }

  /** The fragment was the last of its message. */
  lemma CompletesInv(st: UpState, g: UpState, ms: seq<Msg>, h: seq<Frag>, c: nat, k: nat)
    requires UpInv(st, ms, h, c, k) && c < |h| && k < |ms| && g.windowSize == st.windowSize
    requires h[c].End() == Start(ms, k + 1) && DoneAt(ms, k + 1, h[c].End())
    requires g.seqNum == Wrap(h[c].End()) && g.fragments == [] && |g.msgInfo| == 1
    ensures UpInv(g.(msgData := [], msgInfo := g.msgInfo[1..]), ms, h, c + 1, k + 1)
  {
    hide Tiles, NonEmpty, Start;
    assert Edge(h, c + 1) == h[c].End();
  }

  /** There is more of the message to come. */
  lemma GoesOnInv(st: UpState, g: UpState, ms: seq<Msg>, h: seq<Frag>, c: nat, k: nat)
    requires UpInv(st, ms, h, c, k) && c < |h| && k < |ms| && g.windowSize == st.windowSize
    requires DoneAt(ms, k, h[c].End()) && Start(ms, k) < h[c].End()
    requires g.seqNum == Wrap(h[c].End()) && g.fragments == []
    requires g.msgData == ms[k][..h[c].End() - Start(ms, k)] && g.msgInfo == [Info(Wrap(Start(ms, k)), |ms[k]|)]
    ensures UpInv(g, ms, h, c + 1, k)
  {
    hide Tiles, NonEmpty, Start;
    assert Edge(h, c + 1) == h[c].End();
  }

  lemma NextEnds(ms: seq<Msg>, f: Frag, k: nat)
    requires NonEmpty(ms) && Fits(ms, f) && f.msg == k && DoneAt(ms, k, f.pos)
    ensures Start(ms, k + 1) == Start(ms, k) + |ms[k]| && Start(ms, k) < f.End()
    ensures f.End() == Start(ms, k + 1) ==> DoneAt(ms, k + 1, f.End())
    ensures f.End() != Start(ms, k + 1) ==> DoneAt(ms, k, f.End())
  {
    FragmentCompletes(ms, f, k);
  }

  /** The next fragment of the tiling: accepted, and the messages it completes come out whole. */
  lemma NextDelivered(st: UpState, ms: seq<Msg>, h: seq<Frag>, c: nat, k: nat) returns (k': nat)
    requires UpInv(st, ms, h, c, k) && c < |h| && |h[c].data| <= st.windowSize
    ensures h[c].msg < |ms|
    ensures var r := Deliver(st, ms, h[c]);
            UpInv(r.st, ms, h, c + 1, k') && k <= k' <= |ms| && r.msgs == ms[k..k']
            && r.st.windowSize == st.windowSize
  {
    var f := h[c];
    NextIs(st, ms, h, c, k);
    hide Deliver, Grown, MessageEnds, Fits, SizeField, Tiles, Start, Received, DoneAt;
    GrownIs(st, ms, f, k);
    NextSteps(st, ms, f);
    NextEnds(ms, f, k);
    var g := Grown(st, ms, f);
    if f.End() == Start(ms, k + 1) {
      k' := k + 1;
      CompletesInv(st, g, ms, h, c, k);
      assert ms[k][..|ms[k]|] == ms[k] && ms[k..k + 1] == [ms[k]];
    } else {
      k' := k;
      GoesOnInv(st, g, ms, h, c, k);
      assert ms[k..k] == [];
    }
  }

  // ------------------------------------------------------------ out of order

  /**
   * A packet ahead of its turn is let in, and popped again with the fragment
   * assembly stopped at: of it nothing is kept but a declaration.
   */
  lemma EarlyPacketDropped(st: UpState, seqNum: U16, data: seq<byte>, newMsgSize: U16)
    requires st.fragments == [] && seqNum != st.seqNum
    ensures var r := Handle(st, seqNum, data, newMsgSize);
            r.msgs == [] && r.st == st.(msgInfo := r.st.msgInfo)
    ensures newMsgSize == 0 ==> Handle(st, seqNum, data, newMsgSize).st == st
  {
  }

  /** The end of the announced message seems to lie beyond the begin of the one declared first. */
  predicate Overlaps(st: UpState, seqNum: U16, size: U16) {
    st.msgInfo != [] && Rel(st.seqNum, Wrap(seqNum + size)) > Rel(st.seqNum, st.msgInfo[0].begin)
  }

  /** With at most one message declared the search ends at the front, wherever the new one begins. */
  lemma DeclareBesideOne(st: UpState, seqNum: U16, size: U16)
    requires |st.msgInfo| <= 1
    ensures Declare(st, seqNum, size) ==
            if Overlaps(st, seqNum, size) then None else Some(st.(msgInfo := [Info(seqNum, size)] + st.msgInfo))
  {
    assert Place(InfoBegins(st.msgInfo), st.seqNum, seqNum, 0) == 0;
    assert InsertAt(st.msgInfo, 0, Info(seqNum, size)) == [Info(seqNum, size)] + st.msgInfo;
  }

  lemma EarlyHeadDeclared(st: UpState, seqNum: U16, data: seq<byte>, size: U16)
    requires st.fragments == [] && seqNum != st.seqNum && |st.msgInfo| <= 1 && size != 0
    requires InWindow(st.seqNum, st.windowSize, seqNum, |data|)
    ensures Handle(st, seqNum, data, size) ==
            UpResult(if Overlaps(st, seqNum, size) then st else st.(msgInfo := [Info(seqNum, size)] + st.msgInfo), [])
  {
    hide InWindow, Declare, Overlaps;
    DeclareBesideOne(st, seqNum, size);
    StoreFirst(st.(msgInfo := [Info(seqNum, size)] + st.msgInfo), seqNum, data);
  }

  /** The packet of fragment i passes the window test. */
  ghost predicate Passes(st: UpState, f: Frag) { InWindow(st.seqNum, st.windowSize, Wrap(f.pos), |f.data|) }

  /**
   * The packet does the control no harm: it is the next one, or outside the
   * window, or announces no message, or is refused for an overlap.
   */
  ghost predicate Harmless(st: UpState, ms: seq<Msg>, h: seq<Frag>, c: nat, i: nat)
    requires Sendable(ms, h) && i < |h|
  {
    || i == c
    || !Passes(st, h[i])
    || SizeField(ms, h[i]) == 0
    || Overlaps(st, Wrap(h[i].pos), SizeField(ms, h[i]))
  }

  ghost predicate Sendable(ms: seq<Msg>, h: seq<Frag>) {
    forall i :: 0 <= i < |h| ==> h[i].msg < |ms| && |ms[h[i].msg]| < 0x10000
  }

  lemma NextPasses(st: UpState, ms: seq<Msg>, h: seq<Frag>, c: nat, k: nat)
    requires UpInv(st, ms, h, c, k) && c < |h|
    ensures Passes(st, h[c]) <==> |h[c].data| <= st.windowSize
  {
    assert Fits(ms, h[c]) && h[c].pos == Edge(h, c);
    WindowExact(st, h[c].pos, |h[c].data|);
  }

  /** What a harmless packet leaves: the state after the next fragment, or the state as it was. */
  lemma HarmlessKeeps(st: UpState, ms: seq<Msg>, h: seq<Frag>, c: nat, k: nat, i: nat) returns (k': nat)
    requires UpInv(st, ms, h, c, k) && Sendable(ms, h) && i < |h| && Harmless(st, ms, h, c, i)
    requires i == c || Wrap(h[i].pos) != st.seqNum || !Passes(st, h[i])
    ensures var r := Deliver(st, ms, h[i]);
            && UpInv(r.st, ms, h, if i == c && Passes(st, h[i]) then c + 1 else c, k')
            && k <= k' <= |ms| && r.msgs == ms[k..k'] && r.st.windowSize == st.windowSize
  {
    k' := k;
    PlaceInRange(st, ms, h, c, k);
    assert ms[k..k] == [];
    if Passes(st, h[i]) {
      if i == c {
        hide UpInv, InWindow, Deliver;
        NextPasses(st, ms, h, c, k);
        k' := NextDelivered(st, ms, h, c, k);
      } else {
        hide InWindow, Handle, Overlaps;
        EarlyPacketDropped(st, Wrap(h[i].pos), h[i].data, SizeField(ms, h[i]));
        if SizeField(ms, h[i]) != 0 { EarlyHeadDeclared(st, Wrap(h[i].pos), h[i].data, SizeField(ms, h[i])); }
      }
    }
  }

  /** A declaration ahead of its turn is a debt: no in-order view fits the state any more. */
  lemma HarmBreaks(st: UpState, ms: seq<Msg>, h: seq<Frag>, c: nat, k: nat, i: nat, c': nat, k': nat)
    requires UpInv(st, ms, h, c, k) && Sendable(ms, h) && i < |h| && !Harmless(st, ms, h, c, i)
    requires Wrap(h[i].pos) != st.seqNum
    ensures !UpInv(Deliver(st, ms, h[i]).st, ms, h, c', k')
  {
    hide InWindow, Handle, Overlaps;
    EarlyHeadDeclared(st, Wrap(h[i].pos), h[i].data, SizeField(ms, h[i]));
  }

  /**
   * Which packets the control can take, exactly: for every in-order state and
   * every fragment, unless another one's number is mistaken for the expected
   * one, some in-order view fits afterwards if and only if the packet was
   * harmless.
   */
  lemma StaysInOrderExactly(st: UpState, ms: seq<Msg>, h: seq<Frag>, c: nat, k: nat, i: nat)
    requires UpInv(st, ms, h, c, k) && Sendable(ms, h) && i < |h|
    requires i == c || Wrap(h[i].pos) != st.seqNum || !Passes(st, h[i])
    ensures (exists c', k' :: UpInv(Deliver(st, ms, h[i]).st, ms, h, c', k')) <==> Harmless(st, ms, h, c, i)
  {
    hide UpInv, Deliver, Passes;
    if Harmless(st, ms, h, c, i) {
      var k' := HarmlessKeeps(st, ms, h, c, k, i);
    } else {
      forall c', k' ensures !UpInv(Deliver(st, ms, h[i]).st, ms, h, c', k') {
        HarmBreaks(st, ms, h, c, k, i, c', k');
      }
    }
  }

  lemma FragmentSize(ms: seq<Msg>, h: seq<Frag>, i: nat)
    requires Tiles(ms, h) && Sendable(ms, h) && i < |h|
    ensures 0 < |h[i].data| < 0x10000 && h[i].pos == Edge(h, i)
  {
    assert Fits(ms, h[i]);
  }

  /** In absolute positions less than 2^16 apart: behind the window, beyond it, or no head. */
  lemma HarmlessWhen(st: UpState, ms: seq<Msg>, h: seq<Frag>, c: nat, k: nat, i: nat)
    requires UpInv(st, ms, h, c, k) && Sendable(ms, h) && i < |h|
    requires i < c ==> Edge(h, c) - h[i].pos < 0x10000 - st.windowSize + |h[i].data|
    requires i > c ==> h[i].pos - Edge(h, c) < 0x10000 &&
                       (SizeField(ms, h[i]) == 0 || Edge(h, c) + st.windowSize < h[i].End())
    ensures Harmless(st, ms, h, c, i)
    ensures i == c || Wrap(h[i].pos) != st.seqNum || !Passes(st, h[i])
  {
    hide InWindow, Received, DoneAt, Overlaps, Tiles, NonEmpty;
    FragmentSize(ms, h, i);
    WindowExact(st, h[i].pos, |h[i].data|);
    if i < c {
      EdgeMonotone(ms, h, i + 1, c);
      Behind(Edge(h, c), h[i].pos, |h[i].data|, st.windowSize);
    } else if i > c {
      EdgeMonotone(ms, h, c + 1, i);
      FragmentSize(ms, h, c);
      AheadBy(Edge(h, c), h[i].pos);
    }
  }

  lemma Behind(now: int, pos: int, size: nat, window: nat)
    requires pos + size <= now && 0 < size && now - pos < 0x10000 - window + size && window < 0x10000
    ensures Wrap(Wrap(pos) - Wrap(now)) + size > window
  {
    if now - pos < 0x10000 { RelFaithful(now - 0x10000, pos); }
  }

  lemma AheadBy(now: int, pos: int)
    requires now < pos < now + 0x10000
    ensures Wrap(Wrap(pos) - Wrap(now)) == pos - now && Wrap(pos) != Wrap(now)
  {
  }

  // -------------------------------------------------------------- whole runs

  datatype UpRun = UpRun(st: UpState, returned: seq<Msg>)

  ghost function Arrive(r: UpRun, ms: seq<Msg>, f: Frag): UpRun
    requires f.msg < |ms| && |ms[f.msg]| < 0x10000
  {
    var d := Deliver(r.st, ms, f);
    UpRun(d.st, r.returned + d.msgs)
  }

  ghost predicate Indices(h: seq<Frag>, order: seq<nat>) { forall j :: 0 <= j < |order| ==> order[j] < |h| }

  ghost function Run(r: UpRun, ms: seq<Msg>, h: seq<Frag>, order: seq<nat>): UpRun
    requires Sendable(ms, h) && Indices(h, order)
    decreases |order|
  {
    if order == [] then r else Run(Arrive(r, ms, h[order[0]]), ms, h, order[1..])
  }

  /** The next fragment to consume, after a delivery. */
  ghost function After(st: UpState, h: seq<Frag>, c: nat, i: nat): nat
    requires i < |h|
  {
    if i == c && Passes(st, h[i]) then c + 1 else c
  }

  /** Every delivery of the order is harmless in the state it meets. */
  ghost predicate InOrder(r: UpRun, ms: seq<Msg>, h: seq<Frag>, order: seq<nat>, c: nat)
    requires Sendable(ms, h) && Indices(h, order)
    decreases |order|
  {
    order != [] ==>
      var i := order[0];
      && Harmless(r.st, ms, h, c, i)
      && (i == c || Wrap(h[i].pos) != r.st.seqNum || !Passes(r.st, h[i]))
      && InOrder(Arrive(r, ms, h[i]), ms, h, order[1..], After(r.st, h, c, i))
  }

  /** How many fragments a delivery consumes. */
  ghost function Consumed(r: UpRun, ms: seq<Msg>, h: seq<Frag>, order: seq<nat>, c: nat): nat
    requires Sendable(ms, h) && Indices(h, order)
    decreases |order|
  {
    if order == [] then c
    else Consumed(Arrive(r, ms, h[order[0]]), ms, h, order[1..], After(r.st, h, c, order[0]))
  }

  lemma {:induction false} RunInOrder(r: UpRun, ms: seq<Msg>, h: seq<Frag>, c: nat, k: nat, order: seq<nat>)
    returns (k': nat)
    requires UpInv(r.st, ms, h, c, k) && Sendable(ms, h) && Indices(h, order)
    requires InOrder(r, ms, h, order, c) && r.returned == ms[..k]
    ensures var r', c' := Run(r, ms, h, order), Consumed(r, ms, h, order, c);
            UpInv(r'.st, ms, h, c', k') && k' <= |ms| && r'.returned == ms[..k']
    decreases |order|
  {
    hide UpInv, Deliver, Passes, Harmless;
    k' := k;
    PlaceInRange(r.st, ms, h, c, k);
    if order != [] {
      var i := order[0];
      var k1 := HarmlessKeeps(r.st, ms, h, c, k, i);
      assert ms[..k] + ms[k..k1] == ms[..k1];
      k' := RunInOrder(Arrive(r, ms, h[i]), ms, h, After(r.st, h, c, i), k1, order[1..]);
    }
  }

  lemma PlaceInRange(st: UpState, ms: seq<Msg>, h: seq<Frag>, c: nat, k: nat)
    requires UpInv(st, ms, h, c, k)
    ensures k <= |ms|
  {
  }

  /**
   * The uplink, over streams of any length and any number of 16-bit wraps:
   * for every delivery whose packets are harmless, with repeats, losses to be
   * sent again, early continuations and packets outside the window among
   * them, the messages returned are exactly those wholly inside the consumed
   * prefix, byte for byte, and no fragment is ever left pending.
   */
  lemma InOrderUplink(ms: seq<Msg>, h: seq<Frag>, windowSize: nat, order: seq<nat>) returns (k: nat)
    requires NonEmpty(ms) && Tiles(ms, h) && windowSize < 0x10000
    requires forall j :: 0 <= j < |ms| ==> |ms[j]| < 0x10000
    requires Sendable(ms, h) && Indices(h, order)
    requires InOrder(UpRun(Init(windowSize), []), ms, h, order, 0)
    ensures var begin := UpRun(Init(windowSize), []);
            var r, c := Run(begin, ms, h, order), Consumed(begin, ms, h, order, 0);
            && c <= |h| && DoneAt(ms, k, Edge(h, c)) && r.returned == ms[..k]
            && r.st.seqNum == Wrap(Edge(h, c)) && r.st.fragments == []
            && r.st.msgData == Received(ms, k, Edge(h, c))
  {
    assert UpInv(Init(windowSize), ms, h, 0, 0);
    hide InOrder, Run, Consumed;
    k := RunInOrder(UpRun(Init(windowSize), []), ms, h, 0, 0, order);
  }

  // ---------------------------------------------------------------- the code

  class SlidingWindowRxControl {
    var seqNum: U16
    var windowSize: nat
    var msgData: seq<byte>
    var fragments: seq<UpFrag>
    var msgInfo: seq<Info>

    ghost function State(): UpState
      reads this
    {
      UpState(seqNum, windowSize, msgData, fragments, msgInfo)
    }

    constructor (windowSize: nat)
      ensures State() == Init(windowSize)
    {
      seqNum, this.windowSize, msgData, fragments, msgInfo := 0, windowSize, [], [], [];
    }

    /** The loops that look for the place to insert at. */
    method FindPlace(begins: seq<U16>, packetSeqNum: U16) returns (i: nat)
      ensures i == Place(begins, seqNum, packetSeqNum, 0)
    {
      i := 0;
      for k := 0 to |begins|
        invariant i == if k == 0 then 0 else k - 1
        invariant Place(begins, seqNum, packetSeqNum, 0) == Place(begins, seqNum, packetSeqNum, k)
      {
        i := k;
        if Rel(seqNum, packetSeqNum) < Rel(seqNum, begins[i]) { break; }
      }
    }

    method HandlePacket(packetSeqNum: U16, data: seq<byte>, newMsgSize: U16) returns (newMsgs: seq<Msg>)
      modifies this
      ensures UpResult(State(), newMsgs) == Handle(old(State()), packetSeqNum, data, newMsgSize)
    {
      hide Place, InWindow, Assemble;
      if !InWindow(seqNum, windowSize, packetSeqNum, |data|) { return []; }
      if newMsgSize != 0 {
        var i := FindPlace(InfoBegins(msgInfo), packetSeqNum);
        if i < |msgInfo| && Rel(seqNum, Wrap(packetSeqNum + newMsgSize)) > Rel(seqNum, msgInfo[i].begin) { return []; }
        msgInfo := InsertAt(msgInfo, i, Info(packetSeqNum, newMsgSize));
      }
      var i := FindPlace(FragBegins(fragments), packetSeqNum);
      if i < |fragments| && Rel(seqNum, Wrap(packetSeqNum + |data|)) > Rel(seqNum, fragments[i].seqNum) { return []; }
      fragments := InsertAt(fragments, i, UpFrag(packetSeqNum, data));
      newMsgs := AssembleFragments();
    }

    /** Assemble, then pop as many fragments as the index says. */
    method AssembleFragments() returns (newMsgs: seq<Msg>)
      modifies this
      ensures UpResult(State(), newMsgs) == Assemble(old(State()), 0, [])
    {
      hide Assemble, MessageEnds;
      newMsgs := [];
      ghost var all := Assemble(State(), 0, []);
      var count, i, more := 0, 0, true;
      while more && i < |fragments|
        invariant i <= |fragments| && fragments == old(fragments)
        invariant more ==> count == i && all == Assemble(State(), i, newMsgs)
        invariant !more ==> count <= |fragments| && all == UpResult(State().(fragments := fragments[count..]), newMsgs)
        decreases more, |fragments| - i
      {
        AssembleUnfolds(State(), i, newMsgs);
        count := i + 1;
        if fragments[i].seqNum == seqNum {
          newMsgs := TakeFragment(fragments[i], newMsgs);
          i := i + 1;
        } else {
          more := false;
        }
      }
      if more { AssembleUnfolds(State(), i, newMsgs); }
      fragments := fragments[count..];
    }

    /** Append the data of the next fragment, and complete the message if this was its end. */
    method TakeFragment(fragment: UpFrag, newMsgs: seq<Msg>) returns (msgs: seq<Msg>)
      modifies this`msgData, this`seqNum, this`msgInfo
      ensures var s := Taken(old(State()), fragment);
              && State() == (if MessageEnds(s) then s.(msgData := [], msgInfo := s.msgInfo[1..]) else s)
              && msgs == if MessageEnds(s) then newMsgs + [s.msgData] else newMsgs
    {
      msgs := newMsgs;
      msgData := msgData + fragment.data;
      seqNum := Wrap(seqNum + |fragment.data|);
      if msgInfo != [] && seqNum == Wrap(msgInfo[0].begin + msgInfo[0].size) {
        msgs := msgs + [msgData];
        msgData := [];
        msgInfo := msgInfo[1..];
      }
    }
  }

  /** One turn of the assembling loop. */
  lemma AssembleUnfolds(st: UpState, i: nat, msgs: seq<Msg>)
    requires i <= |st.fragments|
    ensures i == |st.fragments| ==> Assemble(st, i, msgs) == UpResult(st.(fragments := []), msgs)
    ensures i < |st.fragments| && st.fragments[i].seqNum != st.seqNum ==>
              Assemble(st, i, msgs) == UpResult(st.(fragments := st.fragments[i + 1..]), msgs)
    ensures i < |st.fragments| && st.fragments[i].seqNum == st.seqNum ==>
              var s := Taken(st, st.fragments[i]);
              Assemble(st, i, msgs) ==
              if MessageEnds(s) then Assemble(s.(msgData := [], msgInfo := s.msgInfo[1..]), i + 1, msgs + [s.msgData])
              else Assemble(s, i + 1, msgs)
  {
  }
}
