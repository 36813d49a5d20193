/**
 * When get_write_data raises (server/wtp/wtp/transmission.py): a cut limited
 * strictly by the window makes the cut position a cyclic integer, which the
 * next cut from the same message subtracts from the length of the message.
 */
module WindowCut {
  import opened Base
  import opened Cyclic
  import opened Stream
  import opened TxSpec
  import opened TxProof
  import opened TxRuns
  import opened SendPlan

  /** The next cut is limited by the window, strictly. */
  predicate WindowLimited(st: TxState, avail: int) {
    st.messages != [] && PieceSize(st, avail) > 0 && ByWindow(st, avail)
  }

  /**
   * In absolute positions: the window ends inside the message being cut,
   * beyond what is cut of it, and the packet would have held more.
   */
  lemma WindowLimitedIff(st: TxState, g: TxGhost, avail: int)
    requires TxCore(st, g) && st.messages != []
    ensures var cut, edge := Edge(g.hist, |g.hist|), Acked(g) + st.windowSize;
            && g.cur < |g.msgs|
            && (WindowLimited(st, avail) <==>
                  cut < edge < Start(g.msgs, g.cur) + |g.msgs[g.cur]| && edge - cut < Space(st, avail))
  {
    hide Tiles, Start;
    assert g.msgs[g.cur] == st.messages[0];
    RoomIs(st, g);
  }

  /** The window room, in absolute positions. */
  lemma RoomIs(st: TxState, g: TxGhost)
    requires TxCore(st, g)
    ensures g.base <= |g.hist| && Room(st) == Acked(g) + st.windowSize - Edge(g.hist, |g.hist|)
  {
    hide Tiles, Start;
    EdgeMonotone(g.msgs, g.hist, g.base, |g.hist|);
    RoomExact(Acked(g), Edge(g.hist, |g.hist|), st.windowSize);
    WrapAdd(Start(g.msgs, g.cur), st.msgFragmented);
  }

  lemma RoomExact(acked: int, cut: int, window: nat)
    requires acked <= cut <= acked + window && window < 0x10000
    ensures Wrap(Wrap(acked) + window - Wrap(cut)) == acked + window - cut
  {
  }

  /**
   * When a call raises, on the state before it: when all control packets and
   * all due fragments fit, and then either the cut position is cyclic already
   * or the cuts planned come to one limited strictly by the window.
   */
  lemma RaisesIff(st: TxState)
    requires Within(st)
    ensures GetWriteData(st).raised <==>
              var n, due := Fitting(st.packets, st.writeSize), Due(st.fragments);
              var space := st.writeSize - Lengths(st.packets[..n]);
              && n == |st.packets| && FittingData(due, space) == |due|
              && (st.cyclicCut ||
                  var s := Current(st);
                  && Within(s)
                  && var c := CutsFrom(Rests(s), s.msgFragmented == 0, space - Estimate(due), Room(s), ChecksumSize(s));
                     c.ending.Raises?)
  {
    hide GetWriteData, Lengths, Estimate, Uncounted, Due, FittingData, Fitting, CutsFrom, Rests, Room, Counted, Extra;
    CallPlanned(st);
    CurrentWithin(st);
    var due := Due(st.fragments);
    assert due[..|due|] == due;
    CyclicStays(st);
  }

  lemma CyclicStays(st: TxState)
    requires Within(st)
    ensures Current(st).cyclicCut <==> st.cyclicCut
    ensures st.cyclicCut ==> Current(st) == st && st.messages != []
  {
  }

  /** Messages that end within the window never make it raise. */
  lemma NeverWithinWindow(st: TxState, g: TxGhost)
    requires TxCore(st, g) && Within(st) && !st.cyclicCut && Total(g.msgs) <= Acked(g) + st.windowSize
    ensures !GetWriteData(st).raised
  {
    hide GetWriteData, Lengths, Estimate, Due, FittingData, Fitting, CutsFrom, Room, TxCore;
    RaisesIff(st);
    var s := Current(st);
    CurrentWithin(st);
    var g' := CurrentCore(st, g);
    RoomIs(s, g');
    RestsSum(s, g');
    var n, due := Fitting(st.packets, st.writeSize), Due(st.fragments);
    var space := st.writeSize - Lengths(st.packets[..n]) - Estimate(due);
    NeverRaises(Rests(s), s.msgFragmented == 0, space, Room(s), ChecksumSize(s));
  }

  lemma CurrentCore(st: TxState, g: TxGhost) returns (g': TxGhost)
    requires TxCore(st, g)
    ensures TxCore(Current(st), g') && g' == g.(cur := g'.cur)
  {
    g' := g;
    if st.messages != [] { g' := LoadNextInv(st, g); }
  }

  /** What is left to cut reaches from the cut position to the end of the stream. */
  lemma RestsSum(st: TxState, g: TxGhost)
    requires TxCore(st, g) && Within(st)
    ensures Sum(Rests(st)) == Total(g.msgs) - Edge(g.hist, |g.hist|)
  {
    if st.messages != [] {
      assert g.msgs[g.cur] == st.messages[0];
      assert st.messages[1..] == g.msgs[g.cur + 1..];
      SizesSum(g.msgs, g.cur + 1);
      assert Rests(st)[1..] == Sizes(st.messages[1..]);
    }
  }

  lemma {:induction false} SizesSum(ms: seq<Msg>, k: nat)
    requires k <= |ms|
    ensures Sum(Sizes(ms[k..])) == Total(ms) - Start(ms, k)
    decreases |ms| - k
  {
    if k < |ms| {
      SizesSum(ms, k + 1);
      assert Sizes(ms[k..])[1..] == Sizes(ms[k + 1..]);
    }
  }

  // -------------------------------------------------------------- whole runs

  /** Some write of the run raises. */
  function AnyRaised(r: TxRun, ops: seq<TxOp>): bool
    decreases |ops|
  {
    ops != [] && ((ops[0].Write? && GetWriteData(r.st).raised) || AnyRaised(Step(r, ops[0]), ops[1..]))
  }

  /** Only writes move the cut position. */
  lemma StepWithin(r: TxRun, op: TxOp)
    requires Within(r.st)
    ensures Within(Step(r, op).st)
    ensures Step(r, op).st.cyclicCut <==> r.st.cyclicCut || (op.Write? && GetWriteData(r.st).raised)
  {
    hide GetWriteData, HandleAck, Lengths, Estimate, Uncounted, PlanOf, Counted, Extra;
    if op.Write? { CallPlanned(r.st); }
    if op.Ack? { AckKeepsCut(r.st, op.seqNum); }
  }

  lemma AckKeepsCut(st: TxState, ack: int)
    requires Within(st)
    ensures Within(HandleAck(st, ack).st) && HandleAck(st, ack).st.cyclicCut == st.cyclicCut
  {
  }

  lemma {:induction false} RaisedTagged(r: TxRun, ops: seq<TxOp>)
    requires Within(r.st)
    ensures Within(Run(r, ops).st)
    ensures Run(r, ops).st.cyclicCut <==> r.st.cyclicCut || AnyRaised(r, ops)
    decreases |ops|
  {
    hide Within, Step, GetWriteData;
    if ops != [] {
      StepWithin(r, ops[0]);
      RaisedTagged(Step(r, ops[0]), ops[1..]);
    }
  }

  /**
   * Over every run: a write has raised if and only if the cut position has
   * become cyclic.  So up to the first cut limited strictly by the window
   * none raises; the write that makes it does; and from then on the position
   * is stuck inside its message, whatever is acknowledged.
   */
  lemma RaisedIffCyclic(writeSize: nat, windowSize: nat, checksum: bool, ops: seq<TxOp>)
    ensures var r := Run(Begin(writeSize, windowSize, checksum), ops);
            && Within(r.st)
            && (AnyRaised(Begin(writeSize, windowSize, checksum), ops) <==> r.st.cyclicCut)
  {
    RaisedTagged(Begin(writeSize, windowSize, checksum), ops);
  }

  // ------------------------------------------------------------- a long message

  /** One message being cut, under the server's window, with nothing due and nothing acknowledged. */
  ghost predicate Cutting(st: TxState, m: Msg, n: nat) {
    && st.messages == [m] && st.msgBegin == 0 && st.msgFragmented == n && st.seqNum == 0 && st.packets == []
    && st.windowSize == 64 && st.checksum && NoneWaiting(st.fragments) && !st.cyclicCut
  }

  /** The size of a piece that fills a write of its own. */
  function FullSize(n: nat, limit: nat): int { limit - if n == 0 then 7 else 5 }

  lemma FullWrite(st: TxState, m: Msg, n: nat)
    requires Cutting(st, m, n) && 0 < FullSize(n, st.writeSize)
    requires n + FullSize(n, st.writeSize) < |m| && n + FullSize(n, st.writeSize) <= 64
    ensures var w := GetWriteData(st);
            && Cutting(w.st, m, n + FullSize(n, st.writeSize)) && !w.raised && |w.data| == 1
            && w.st.writeSize == st.writeSize && w.control == []
  {
    hide MakeFragment;
    var size := FullSize(n, st.writeSize);
    FullCut(st, m, n);
    var t := st.(msgFragmented := n + size, fragments := st.fragments + [CutPiece(st, size).(armed := true)]);
    CutTurn(st, 0);
    CutTurn(t, 4 + size);
    assert ControlLoop([], 0, st.writeSize) == TxSpec.Control([], [], 0, false);
    assert st.(packets := []) == st;
  }

  lemma FullCut(st: TxState, m: Msg, n: nat)
    requires Cutting(st, m, n) && 0 < FullSize(n, st.writeSize)
    requires n + FullSize(n, st.writeSize) < |m| && n + FullSize(n, st.writeSize) <= 64
    ensures var size := FullSize(n, st.writeSize);
            var t := st.(msgFragmented := n + size, fragments := st.fragments + [CutPiece(st, size).(armed := true)]);
            && MakeFragment(st, st.writeSize) == Made(st.(msgFragmented := n + size), Some(CutPiece(st, size)), false)
            && MakeFragment(t, st.writeSize - 4 - size) == Made(t, None, false)
            && |CutPiece(st, size).data| == size
  {
  }

  /** The write at which the window is what limits the piece. */
  lemma WindowWrite(st: TxState, m: Msg, n: nat)
    requires Cutting(st, m, n) && n < 64 < |m| && 64 - n < FullSize(n, st.writeSize)
    ensures GetWriteData(st).raised
  {
    hide MakeFragment;
    WindowPiece(st, st.writeSize);
    var made := MakeFragment(st, st.writeSize);
    CutTurn(st, 0);
    CutTurn(Added(made.st, made.fragment.value), 4 + (64 - n));
    assert ControlLoop([], 0, st.writeSize) == TxSpec.Control([], [], 0, false);
    assert st.(packets := []) == st;
  }

  /**
   * Such a run from the start, at the server's first size limit and window:
   * of a message of more than 64 bytes three writes take 17, 19 and 19, the
   * window leaves 9, and the fourth raises.
   */
  lemma LongMessageRaises(m: Msg)
    requires 64 < |m| < 0x10000
    ensures var r := Run(Begin(24, 64, true), [Add(m), Write, Write, Write]);
            r.st.msgFragmented == 55 && !r.st.cyclicCut && GetWriteData(r.st).raised
  {
    hide GetWriteData;
    var r1 := Step(Begin(24, 64, true), Add(m));
    assert [] + [m] == [m];
    FullWrite(r1.st, m, 0);
    var r2 := Step(r1, Write);
    FullWrite(r2.st, m, 17);
    var r3 := Step(r2, Write);
    FullWrite(r3.st, m, 36);
    var r4 := Step(r3, Write);
    WindowWrite(r4.st, m, 55);
    RunFour(Begin(24, 64, true), Add(m));
  }

  lemma RunFour(r: TxRun, op: TxOp)
    ensures Run(r, [op, Write, Write, Write]) == Step(Step(Step(Step(r, op), Write), Write), Write)
  {
    hide Step;
    assert [op, Write, Write, Write][1..] == [Write, Write, Write];
    assert [Write, Write, Write][1..] == [Write, Write] && [Write, Write][1..] == [Write] && [Write][1..] == [];
    var none: seq<TxOp>, r' := [], Step(Step(Step(Step(r, op), Write), Write), Write);
    assert Run(r', none) == r';
  }
}
