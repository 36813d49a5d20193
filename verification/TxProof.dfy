/**
 * The transmit control cuts the message stream into a tiling, whatever the
 * number of 16-bit wraps, and acknowledgements retire exactly the fragments
 * and messages they cover.
 */
module TxProof {
  import opened Base
  import opened Cyclic
  import opened Stream
  import opened TxSpec
  import opened Wire

  /**
   * The absolute view of a transmit control: every message ever added, the
   * index of the message at the head of the queue, every fragment ever cut,
   * how many of those are acknowledged, and how many messages are.
   */
  datatype TxGhost = TxGhost(msgs: seq<Msg>, cur: nat, hist: seq<Frag>, base: nat, done: nat)

  ghost predicate Image(ms: seq<Msg>, f: Frag, t: TxFrag) {
    && f.msg < |ms|
    && t.seqNum == Wrap(f.pos)
    && t.data == f.data
    && t.msgSize == SizeField(ms, f)
  }

  ghost function Acked(g: TxGhost): nat
    requires g.base <= |g.hist|
  {
    Edge(g.hist, g.base)
  }

  ghost predicate Queue(st: TxState, g: TxGhost) {
    && g.cur <= |g.msgs|
    && st.messages == g.msgs[g.cur..]
    && st.msgBegin == Wrap(Start(g.msgs, g.cur))
    && st.msgFragmented <= (if g.cur < |g.msgs| then |g.msgs[g.cur]| else 0)
  }

  ghost predicate Window(st: TxState, g: TxGhost) {
    && g.cur <= |g.msgs|
    && Tiles(g.msgs, g.hist)
    && Edge(g.hist, |g.hist|) == Start(g.msgs, g.cur) + st.msgFragmented
    && g.base <= |g.hist|
    && st.seqNum == Wrap(Acked(g))
    && Edge(g.hist, |g.hist|) - Acked(g) <= st.windowSize < 0x10000
  }

  ghost predicate Outstanding(st: TxState, g: TxGhost) {
    && g.base <= |g.hist|
    && |st.fragments| == |g.hist| - g.base
    && forall i :: 0 <= i < |st.fragments| ==> Image(g.msgs, g.hist[g.base + i], st.fragments[i])
  }

  ghost predicate EndsFrom(ms: seq<Msg>, ends: seq<int>, done: nat, cur: nat) {
    && done <= cur <= |ms|
    && |ends| == cur - done
    && forall i :: 0 <= i < |ends| ==> ends[i] == Wrap(Start(ms, done + i + 1))
  }

  /** What holds of every run, empty messages included. */
  ghost predicate TxCore(st: TxState, g: TxGhost) {
    && Queue(st, g)
    && Window(st, g)
    && Outstanding(st, g)
    && EndsFrom(g.msgs, st.msgEnds, g.done, g.cur)
  }

  /** With non-empty messages, those reported are exactly those wholly acknowledged. */
  ghost predicate TxInv(st: TxState, g: TxGhost) {
    && TxCore(st, g)
    && NonEmpty(g.msgs)
    && DoneAt(g.msgs, g.done, Acked(g))
  }

  /** No message is fully cut without its end being recorded. */
  ghost predicate Settled(st: TxState) {
    st.messages != [] ==> st.msgFragmented < |st.messages[0]|
  }

  ghost predicate SettledIf(st: TxState, ms: seq<Msg>) { NonEmpty(ms) ==> Settled(st) }

  ghost predicate AllArmed(fs: seq<TxFrag>) { forall i :: 0 <= i < |fs| ==> fs[i].armed }

  ghost predicate NoneWaiting(fs: seq<TxFrag>) { forall i :: 0 <= i < |fs| ==> !fs[i].needSend }

  // ---------------------------------------------------------------- cutting

  lemma LoadNextInv(st: TxState, g: TxGhost) returns (g': TxGhost)
    requires TxCore(st, g) && st.messages != []
    ensures TxCore(LoadNext(st), g') && SettledIf(LoadNext(st), g.msgs)
    ensures g' == g.(cur := g'.cur)
  {
    g' := g;
    if st.msgFragmented >= |st.messages[0]| {
      g' := g.(cur := g.cur + 1);
      RetiredQueue(st, g);
      RetiredRest(st, g);
      RetiredSettled(LoadNext(st), g');
    }
  }

  /** The message at the head, fully cut, is retired. */
  lemma RetiredQueue(st: TxState, g: TxGhost)
    requires Queue(st, g) && st.messages != [] && st.msgFragmented >= |st.messages[0]|
    ensures g.cur < |g.msgs| && Queue(LoadNext(st), g.(cur := g.cur + 1))
    ensures Start(g.msgs, g.cur + 1) == Start(g.msgs, g.cur) + st.msgFragmented
    ensures LoadNext(st).msgEnds == st.msgEnds + [Wrap(Start(g.msgs, g.cur + 1))]
  {
    assert g.msgs[g.cur] == st.messages[0];
    assert LoadNext(st).messages == g.msgs[g.cur + 1..];
    WrapAdd(Start(g.msgs, g.cur), |st.messages[0]|);
  }

  lemma RetiredRest(st: TxState, g: TxGhost)
    requires TxCore(st, g) && st.messages != [] && st.msgFragmented >= |st.messages[0]|
    ensures Window(LoadNext(st), g.(cur := g.cur + 1)) && Outstanding(LoadNext(st), g.(cur := g.cur + 1))
    ensures EndsFrom(g.msgs, LoadNext(st).msgEnds, g.done, g.cur + 1)
  {
    RetiredQueue(st, g);
    hide Start, Tiles, Queue;
  }

  lemma RetiredSettled(s: TxState, g: TxGhost)
    requires Queue(s, g) && s.msgFragmented == 0
    ensures SettledIf(s, g.msgs)
  {
    if s.messages != [] { assert s.messages[0] == g.msgs[g.cur]; }
  }

  ghost function NextFrag(st: TxState, g: TxGhost, size: nat): Frag
    requires Queue(st, g) && st.messages != [] && st.msgFragmented + size <= |st.messages[0]|
  {
    Frag(Start(g.msgs, g.cur) + st.msgFragmented, g.cur, CutPiece(st, size).data)
  }

  lemma NextFragFits(st: TxState, g: TxGhost, size: nat)
    requires Queue(st, g) && st.messages != []
    requires 0 < size <= |st.messages[0]| - st.msgFragmented
    ensures Fits(g.msgs, NextFrag(st, g, size))
    ensures Image(g.msgs, NextFrag(st, g, size), CutPiece(st, size))
  {
    hide Start;
    WrapAdd(Start(g.msgs, g.cur), st.msgFragmented);
    assert g.msgs[g.cur] == st.messages[0];
  }

  lemma OutstandingAppend(st: TxState, g: TxGhost, f: Frag, t: TxFrag)
    requires Outstanding(st, g) && Image(g.msgs, f, t)
    ensures Outstanding(st.(fragments := st.fragments + [t]), g.(hist := g.hist + [f]))
  {
    var s, g' := st.(fragments := st.fragments + [t]), g.(hist := g.hist + [f]);
    forall i | 0 <= i < |s.fragments| ensures Image(g'.msgs, g'.hist[g'.base + i], s.fragments[i]) {
      if i < |st.fragments| {
        assert Image(g.msgs, g.hist[g.base + i], st.fragments[i]);
      }
    }
  }

  lemma CutInv(st: TxState, g: TxGhost, size: nat) returns (g': TxGhost)
    requires TxCore(st, g) && st.messages != []
    requires 0 < size <= |st.messages[0]| - st.msgFragmented
    requires size <= Wrap(st.seqNum + st.windowSize - Wrap(st.msgBegin + st.msgFragmented))
    ensures var s := st.(msgFragmented := st.msgFragmented + size, fragments := st.fragments + [CutPiece(st, size)]);
            TxCore(s, g')
    ensures g' == g.(hist := g.hist + [NextFrag(st, g, size)])
  {
    var f := NextFrag(st, g, size);
    NextFragFits(st, g, size);
    g' := g.(hist := g.hist + [f]);
    TilesAppendFrag(g.msgs, g.hist, f);
    EdgeMonotone(g.msgs, g.hist, g.base, |g.hist|);
    OutstandingAppend(st, g, f, CutPiece(st, size));
    var s := st.(msgFragmented := st.msgFragmented + size, fragments := st.fragments + [CutPiece(st, size)]);
    assert Acked(g') == Acked(g);
    assert Window(s, g') by { WindowRoom(Acked(g), f.pos, st.windowSize, size); }
    assert Queue(s, g');
  }

  /** The 16-bit window room is the real one, since the cut end never passes the window. */
  lemma WindowRoom(acked: int, next: int, window: nat, size: int)
    requires acked <= next <= acked + window && window < 0x10000
    requires size <= Wrap(Wrap(acked) + window - Wrap(next))
    ensures next + size - acked <= window
  {
  }

  lemma MakeFragmentInv(st: TxState, g: TxGhost, avail: int) returns (g': TxGhost)
    requires TxCore(st, g)
    ensures var made := MakeFragment(st, avail);
            var s, f := made.st, made.fragment;
            && g' == g.(cur := g'.cur, hist := g'.hist)
            && (f.None? ==> TxCore(s, g') && g'.hist == g.hist && s.fragments == st.fragments && SettledIf(s, g.msgs))
            && (f.Some? ==>
                  && TxCore(s.(fragments := s.fragments + [f.value]), g')
                  && s.fragments == st.fragments
                  && |g'.hist| == |g.hist| + 1 && g'.hist[..|g.hist|] == g.hist
                  && !f.value.needSend
                  && 4 + |f.value.data| <= avail)
  {
    g' := g;
    if st.messages != [] {
      g' := LoadNextInv(st, g);
      var s := LoadNext(st);
      if s.messages != [] && !s.cyclicCut {
        var size := PieceSize(s, avail);
        if size > 0 { g' := CutInv(s, g', size); }
      }
    }
  }

  // ---------------------------------------------------------------- sending

  ghost predicate Grows(g: TxGhost, g': TxGhost) {
    && g'.msgs == g.msgs && g'.base == g.base && g'.done == g.done
    && |g.hist| <= |g'.hist| && g'.hist[..|g.hist|] == g.hist
  }

  /** Flags are no part of the tiling. */
  lemma FlagsCore(st: TxState, g: TxGhost, k: nat, t: TxFrag)
    requires TxCore(st, g) && k < |st.fragments|
    requires t == st.fragments[k].(needSend := t.needSend, armed := t.armed)
    ensures TxCore(st.(fragments := st.fragments[k := t]), g)
  {
    var s := st.(fragments := st.fragments[k := t]);
    forall i | 0 <= i < |s.fragments|
      ensures Image(g.msgs, g.hist[g.base + i], s.fragments[i])
    {
      assert Image(g.msgs, g.hist[g.base + i], st.fragments[i]);
    }
  }

  lemma FlagsInv(st: TxState, g: TxGhost, k: nat, t: TxFrag)
    requires TxInv(st, g) && k < |st.fragments|
    requires t == st.fragments[k].(needSend := t.needSend, armed := t.armed)
    ensures TxInv(st.(fragments := st.fragments[k := t]), g)
  {
    hide TxCore;
    FlagsCore(st, g, k, t);
  }

  ghost predicate SelectPost(st: TxState, avail: int, p: Picked, g: TxGhost, g': TxGhost) {
    && TxCore(p.st, g') && Grows(g, g')
    && (p.Nothing? ==> SettledIf(p.st, g.msgs) && p.st.fragments == st.fragments)
    && (p.Picked? ==>
          && p.index < |p.st.fragments|
          && (forall i :: 0 <= i < |p.st.fragments| && i != p.index ==> p.st.fragments[i].armed)
          && (NoneWaiting(st.fragments) ==>
                NoneWaiting(p.st.fragments) && 4 + |p.st.fragments[p.index].data| <= avail)
          && (!NoneWaiting(st.fragments) ==>
                p.st == st.(fragments := p.st.fragments) && AllArmed(p.st.fragments)))
  }

  lemma SelectInv(st: TxState, g: TxGhost, avail: int) returns (g': TxGhost)
    requires TxCore(st, g) && AllArmed(st.fragments)
    ensures SelectPost(st, avail, Select(st, avail), g, g')
  {
    var k := FirstNeedSend(st.fragments, 0);
    if k < |st.fragments| {
      FlagsCore(st, g, k, st.fragments[k].(needSend := false));
      g' := g;
    } else {
      g' := MakeFragmentInv(st, g, avail);
    }
  }

  /** Each written fragment is an outstanding fragment of the tiling, exactly as cut. */
  ghost predicate FromTiling(g: TxGhost, out: seq<TxFrag>) {
    forall t :: t in out ==> exists i :: g.base <= i < |g.hist| && Image(g.msgs, g.hist[i], t)
  }

  /** Writing the selected fragment restores the invariant, timers included. */
  lemma ArmCore(st: TxState, avail: int, p: Picked, g: TxGhost, g': TxGhost)
    requires SelectPost(st, avail, p, g, g') && p.Picked?
    requires SettledIf(st, g.msgs) || NoneWaiting(st.fragments)
    ensures TxCore(Arm(p.st, p.index), g') && AllArmed(Arm(p.st, p.index).fragments)
    ensures SettledIf(Arm(p.st, p.index), g.msgs) || NoneWaiting(Arm(p.st, p.index).fragments)
  {
    FlagsCore(p.st, g', p.index, p.st.fragments[p.index].(armed := true));
  }

  ghost predicate SendCore(r: Sent, g: TxGhost, g': TxGhost) {
    && TxCore(r.st, g') && Grows(g, g') && FromTiling(g', r.out)
    && SettledIf(r.st, g.msgs) && AllArmed(r.st.fragments)
  }

  /** Only a retransmission can be too long, and then nothing was cut. */
  lemma TooLong(st: TxState, avail: int, p: Picked, g: TxGhost, g': TxGhost)
    requires SelectPost(st, avail, p, g, g') && p.Picked?
    requires SettledIf(st, g.msgs) || NoneWaiting(st.fragments)
    requires 4 + |p.st.fragments[p.index].data| > avail
    ensures SendCore(Sent(p.st, [], false), g, g')
  {
  }

  /** The fragment just written heads the output of the rest of the loop. */
  lemma PushCore(s: TxState, k: nat, r: Sent, g: TxGhost, g1: TxGhost, g': TxGhost)
    requires Outstanding(s, g1) && k < |s.fragments| && Grows(g, g1)
    requires SendCore(r, g1, g')
    ensures SendCore(Push(s.fragments[k], r), g, g')
  {
    var i := g1.base + k;
    assert Image(g1.msgs, g1.hist[i], s.fragments[k]);
    assert g'.hist[i] == g1.hist[i];
    GrowsTransitive(g, g1, g');
  }

  lemma {:induction false} SendLoopCore(st: TxState, estimate: nat, g: TxGhost) returns (g': TxGhost)
    requires estimate <= st.writeSize
    requires TxCore(st, g) && AllArmed(st.fragments)
    requires SettledIf(st, g.msgs) || NoneWaiting(st.fragments)
    ensures SendCore(SendLoop(st, estimate), g, g')
    decreases st.writeSize - estimate, 1
  {
    hide TxCore, Select, WritePicked, SelectPost, SendCore;
    var avail := st.writeSize - estimate;
    var g1 := SelectInv(st, g, avail);
    g' := WritePickedCore(st, Select(st, avail), estimate, g, g1);
  }

  lemma {:induction false} WritePickedCore(st: TxState, p: Picked, estimate: nat, g: TxGhost, g1: TxGhost)
    returns (g': TxGhost)
    requires estimate <= p.st.writeSize == st.writeSize
    requires SelectPost(st, st.writeSize - estimate, p, g, g1) && AllArmed(st.fragments)
    requires SettledIf(st, g.msgs) || NoneWaiting(st.fragments)
    ensures SendCore(WritePicked(p, estimate), g, g')
    decreases p.st.writeSize - estimate, 0, 1
  {
    g' := g1;
    if p.Nothing? {
      assert WritePicked(p, estimate) == Sent(p.st, [], p.raised);
    } else {
      var estimate' := estimate + 4 + |p.st.fragments[p.index].data|;
      if estimate' > p.st.writeSize {
        TooLong(st, st.writeSize - estimate, p, g, g1);
        assert WritePicked(p, estimate) == Sent(p.st, [], false);
      } else {
        g' := WriteOn(st, p, estimate, g, g1);
      }
    }
  }

  lemma {:induction false} WriteOn(st: TxState, p: Picked, estimate: nat, g: TxGhost, g1: TxGhost)
    returns (g': TxGhost)
    requires p.Picked? && SelectPost(st, st.writeSize - estimate, p, g, g1)
    requires SettledIf(st, g.msgs) || NoneWaiting(st.fragments)
    requires estimate + 4 + |p.st.fragments[p.index].data| <= p.st.writeSize == st.writeSize
    ensures SendCore(WritePicked(p, estimate), g, g')
    decreases p.st.writeSize - estimate, 0, 0
  {
    hide TxCore, SelectPost, SendCore, Outstanding, Grows, SettledIf, NoneWaiting, AllArmed, SendLoop, WritePicked, Arm;
    SelectedParts(st, st.writeSize - estimate, p, g, g1);
    ArmCore(st, st.writeSize - estimate, p, g, g1);
    PickedOn(p, estimate);
    var next, estimate' := Arm(p.st, p.index), estimate + 4 + |p.st.fragments[p.index].data|;
    g' := SendLoopCore(next, estimate', g1);
    var r := SendLoop(next, estimate');
    PushCore(p.st, p.index, r, g, g1, g');
  }

  lemma PickedOn(p: Picked, estimate: nat)
    requires p.Picked? && p.index < |p.st.fragments|
    requires estimate + 4 + |p.st.fragments[p.index].data| <= p.st.writeSize
    ensures WritePicked(p, estimate) ==
            Push(p.st.fragments[p.index],
                 SendLoop(Arm(p.st, p.index), estimate + 4 + |p.st.fragments[p.index].data|))
  {
  }

  lemma SelectedParts(st: TxState, avail: int, p: Picked, g: TxGhost, g1: TxGhost)
    requires SelectPost(st, avail, p, g, g1) && p.Picked?
    ensures Outstanding(p.st, g1) && Grows(g, g1) && g1.msgs == g.msgs && p.index < |p.st.fragments|
  {
  }

  lemma GrowsTransitive(a: TxGhost, b: TxGhost, c: TxGhost)
    requires Grows(a, b) && Grows(b, c)
    ensures Grows(a, c)
  {
    assert c.hist[..|a.hist|] == c.hist[..|b.hist|][..|a.hist|];
  }

  lemma GetWriteDataCore(st: TxState, g: TxGhost) returns (g': TxGhost)
    requires TxCore(st, g) && SettledIf(st, g.msgs) && AllArmed(st.fragments)
    ensures var w := GetWriteData(st); SendCore(Sent(w.st, w.data, w.raised), g, g')
  {
    var c := ControlLoop(st.packets, 0, st.writeSize);
    var s := st.(packets := c.rest);
    assert TxCore(s, g);
    g' := g;
    if !c.tooLong { g' := SendLoopCore(s, c.estimate, g); }
  }

  ghost predicate SendPost(r: Sent, g: TxGhost, g': TxGhost) {
    && TxInv(r.st, g') && Grows(g, g') && FromTiling(g', r.out)
    && Settled(r.st) && AllArmed(r.st.fragments)
  }

  lemma GetWriteDataInv(st: TxState, g: TxGhost) returns (g': TxGhost)
    requires TxInv(st, g) && Settled(st) && AllArmed(st.fragments)
    ensures var w := GetWriteData(st); SendPost(Sent(w.st, w.data, w.raised), g, g')
  {
    hide GetWriteData, FromTiling, Tiles;
    g' := GetWriteDataCore(st, g);
    AckedKept(g, g');
  }

  lemma AckedKept(g: TxGhost, g': TxGhost)
    requires Grows(g, g') && g.base <= |g.hist|
    ensures Acked(g') == Acked(g)
  {
    if g.base > 0 { assert g'.hist[g.base - 1] == g'.hist[..|g.hist|][g.base - 1]; }
  }

  // ---------------------------------------------------------- acknowledging

  /** How far past the acknowledged position fragment i of the outstanding ones ends. */
  ghost function Reach(g: TxGhost, i: nat): int
    requires g.base <= |g.hist| && g.base + i <= |g.hist|
  {
    Edge(g.hist, g.base + i) - Acked(g)
  }

  lemma ReachBounds(st: TxState, g: TxGhost, i: nat)
    requires Window(st, g) && Outstanding(st, g) && i <= |st.fragments|
    ensures 0 <= Reach(g, i) <= st.windowSize
    ensures i > 0 ==> Reach(g, i) > 0
    ensures Rel(st.seqNum, Wrap(Edge(g.hist, g.base + i))) == Reach(g, i)
  {
    EdgeMonotone(g.msgs, g.hist, g.base, g.base + i);
    EdgeMonotone(g.msgs, g.hist, g.base + i, |g.hist|);
    if i > 0 { assert Fits(g.msgs, g.hist[g.base]); EdgeMonotone(g.msgs, g.hist, g.base + 1, g.base + i); }
    RelFaithful(Acked(g), Edge(g.hist, g.base + i));
  }

  lemma ReachIncreases(st: TxState, g: TxGhost, i: nat, j: nat)
    requires Window(st, g) && Outstanding(st, g) && i < j <= |st.fragments|
    ensures Reach(g, i) < Reach(g, j)
  {
    assert Fits(g.msgs, g.hist[g.base + i]);
    EdgeMonotone(g.msgs, g.hist, g.base + i + 1, g.base + j);
  }

  lemma FragEnd(st: TxState, g: TxGhost, i: nat)
    requires Window(st, g) && Outstanding(st, g) && i < |st.fragments|
    ensures st.fragments[i].End() == Wrap(Edge(g.hist, g.base + i + 1))
    ensures Rel(st.seqNum, st.fragments[i].End()) == Reach(g, i + 1)
  {
    var f := g.hist[g.base + i];
    assert Image(g.msgs, f, st.fragments[i]);
    WrapAdd(f.pos, |f.data|);
    assert f.End() == Edge(g.hist, g.base + i + 1);
    ReachBounds(st, g, i + 1);
  }

  lemma NoneBeyond(st: TxState, g: TxGhost, ack: int, i: nat)
    requires Window(st, g) && Outstanding(st, g) && i < |st.fragments|
    requires Rel(st.seqNum, ack) < Reach(g, i + 1)
    ensures forall j :: i <= j < |st.fragments| ==> st.fragments[j].End() != ack
  {
    forall j | i <= j < |st.fragments| ensures st.fragments[j].End() != ack {
      FragEnd(st, g, j);
      if i < j { ReachIncreases(st, g, i + 1, j + 1); }
    }
  }

  /** The scan finds the one fragment ending at the acknowledged number, if there is one. */
  lemma {:induction false} AckScanFinds(st: TxState, g: TxGhost, ack: int, i: nat)
    requires Window(st, g) && Outstanding(st, g) && i <= |st.fragments|
    requires ack == Wrap(ack) && Rel(st.seqNum, ack) <= Reach(g, |st.fragments|)
    requires Reach(g, i) < Rel(st.seqNum, ack) || i == 0
    ensures var r := AckScan(st.fragments, st.seqNum, ack, i);
            && (r.Some? ==> Reach(g, r.value) == Rel(st.seqNum, ack))
            && (r.None? ==> forall j :: i <= j < |st.fragments| ==> st.fragments[j].End() != ack)
    decreases |st.fragments| - i
  {
    if i < |st.fragments| && st.fragments[i].End() != ack {
      FragEnd(st, g, i);
      if Reach(g, i + 1) > Rel(st.seqNum, ack) {
        NoneBeyond(st, g, ack, i);
      } else {
        RelDistinct(st.seqNum, st.fragments[i].End(), ack);
        AckScanFinds(st, g, ack, i + 1);
      }
    } else if i < |st.fragments| {
      FragEnd(st, g, i);
    }
  }

  /** The ends popped with the first n outstanding fragments are those of the messages they complete. */
  lemma {:induction false} PopEndsInv(st: TxState, g: TxGhost, n: nat, i: nat, ends: seq<int>, done: nat)
    returns (done': nat)
    requires Queue(st, g) && NonEmpty(g.msgs) && Settled(st) && Window(st, g) && Outstanding(st, g)
    requires i <= n <= |st.fragments|
    requires DoneAt(g.msgs, done, Edge(g.hist, g.base + i)) && EndsFrom(g.msgs, ends, done, g.cur)
    ensures var p := PopEnds(ends, st.fragments[i..n], st.seqNum);
            && done' == done + p.count
            && DoneAt(g.msgs, done', Edge(g.hist, g.base + n))
            && EndsFrom(g.msgs, p.ends, done', g.cur)
    decreases n - i
  {
    done' := done;
    if i < n {
      var fs := st.fragments[i..n];
      assert fs[0] == st.fragments[i] && fs[1..] == st.fragments[i + 1..n];
      var f := g.hist[g.base + i];
      assert Fits(g.msgs, f);
      FragmentCompletes(g.msgs, f, done);
      PopCondition(st, g, i, ends, done);
      if Start(g.msgs, done + 1) <= f.End() {
        done' := PopEndsInv(st, g, n, i + 1, ends[1..], done + 1);
      } else {
        done' := PopEndsInv(st, g, n, i + 1, ends, done);
      }
    }
  }

  /** A message whose end is unrecorded is not fully cut, so no fragment completes it. */
  lemma UnrecordedIsOpen(st: TxState, g: TxGhost, i: nat)
    requires Queue(st, g) && Settled(st) && Window(st, g) && g.cur < |g.msgs|
    requires g.base + i < |g.hist|
    ensures g.hist[g.base + i].End() < Start(g.msgs, g.cur + 1)
  {
    EdgeMonotone(g.msgs, g.hist, g.base + i + 1, |g.hist|);
    assert g.msgs[g.cur] == st.messages[0];
  }

  /** The oldest recorded end, relative to the acknowledged position. */
  lemma OldestEnd(st: TxState, g: TxGhost, i: nat, ends: seq<int>, done: nat)
    requires Window(st, g) && g.base + i <= |g.hist|
    requires DoneAt(g.msgs, done, Edge(g.hist, g.base + i))
    requires EndsFrom(g.msgs, ends, done, g.cur) && ends != []
    ensures Rel(st.seqNum, ends[0]) == Start(g.msgs, done + 1) - Acked(g)
  {
    var end := Start(g.msgs, done + 1);
    assert end == Start(g.msgs, done) + |g.msgs[done]|;
    EdgeMonotone(g.msgs, g.hist, g.base, g.base + i);
    assert Acked(g) <= end;
    StartMonotone(g.msgs, done + 1, g.cur);
    assert end <= Edge(g.hist, |g.hist|);
    RelFaithful(Acked(g), end);
  }

  /** The comparison made for each removed fragment: does it complete the oldest message? */
  lemma PopCondition(st: TxState, g: TxGhost, i: nat, ends: seq<int>, done: nat)
    requires Queue(st, g) && Settled(st) && Window(st, g) && Outstanding(st, g)
    requires i < |st.fragments| && done < |g.msgs|
    requires DoneAt(g.msgs, done, Edge(g.hist, g.base + i)) && EndsFrom(g.msgs, ends, done, g.cur)
    ensures (ends != [] && Rel(st.seqNum, ends[0]) <= Rel(st.seqNum, st.fragments[i].End()))
       <==> (Start(g.msgs, done + 1) <= g.hist[g.base + i].End())
  {
    FragEnd(st, g, i);
    assert Edge(g.hist, g.base + (i + 1)) == g.hist[g.base + i].End();
    if ends == [] {
      assert done == g.cur;
      UnrecordedIsOpen(st, g, i);
    } else {
      OldestEnd(st, g, i, ends, done);
    }
  }

  // ------------------------------------------------------------ whole calls

  /** The acknowledged part leaves; the rest is still the outstanding tail of the tiling. */
  lemma DropAcked(st: TxState, g: TxGhost, n: nat, sent: nat)
    requires TxCore(st, g) && n <= |st.fragments| && sent <= |st.msgEnds|
    ensures TxCore(st.(seqNum := Wrap(Edge(g.hist, g.base + n)), fragments := st.fragments[n..],
                       msgEnds := st.msgEnds[sent..]),
                   g.(base := g.base + n, done := g.done + sent))
  {
    var s := st.(seqNum := Wrap(Edge(g.hist, g.base + n)), fragments := st.fragments[n..],
                 msgEnds := st.msgEnds[sent..]);
    var g' := g.(base := g.base + n, done := g.done + sent);
    EdgeMonotone(g.msgs, g.hist, g.base, g.base + n);
    forall i | 0 <= i < |s.fragments| ensures Image(g'.msgs, g'.hist[g'.base + i], s.fragments[i]) {
      assert Image(g.msgs, g.hist[g.base + (n + i)], st.fragments[n + i]);
    }
  }

  /** Some outstanding fragment ends at the acknowledged number. */
  ghost predicate Acknowledges(st: TxState, seqNum: int) {
    exists i :: 0 <= i < |st.fragments| && st.fragments[i].End() == Wrap(seqNum)
  }

  /** The upper limit an ack is compared with is the end of the tiling. */
  lemma NextReach(st: TxState, g: TxGhost)
    requires Queue(st, g) && Window(st, g) && Outstanding(st, g)
    ensures Rel(st.seqNum, Wrap(st.msgBegin + st.msgFragmented)) == Reach(g, |st.fragments|)
  {
    WrapAdd(Start(g.msgs, g.cur), st.msgFragmented);
    ReachBounds(st, g, |st.fragments|);
  }

  lemma BeyondNext(st: TxState, g: TxGhost, ack: int)
    requires Window(st, g) && Outstanding(st, g)
    requires Rel(st.seqNum, ack) > Reach(g, |st.fragments|)
    ensures forall i :: 0 <= i < |st.fragments| ==> st.fragments[i].End() != ack
  {
    forall i | 0 <= i < |st.fragments| ensures st.fragments[i].End() != ack {
      FragEnd(st, g, i);
      if i + 1 < |st.fragments| { ReachIncreases(st, g, i + 1, |st.fragments|); }
    }
  }

  lemma {:induction false} PopEndsSuffix(ends: seq<int>, fs: seq<TxFrag>, zero: int)
    ensures var p := PopEnds(ends, fs, zero);
            p.count <= |ends| && p.ends == ends[p.count..]
    decreases |fs|
  {
    if fs != [] {
      if ends != [] && Rel(zero, ends[0]) <= Rel(zero, fs[0].End()) {
        PopEndsSuffix(ends[1..], fs[1..], zero);
      } else {
        PopEndsSuffix(ends, fs[1..], zero);
      }
    }
  }

  lemma AckCountFinds(st: TxState, g: TxGhost, ack: int)
    requires TxCore(st, g) && ack == Wrap(ack)
    ensures var n := AckCount(st, ack);
            && (n.Some? ==> Reach(g, n.value) == Rel(st.seqNum, ack))
            && (n.None? ==> forall i :: 0 <= i < |st.fragments| ==> st.fragments[i].End() != ack)
  {
    NextReach(st, g);
    if Rel(st.seqNum, ack) > Reach(g, |st.fragments|) {
      BeyondNext(st, g, ack);
    } else {
      AckScanFinds(st, g, ack, 0);
    }
  }

  /** An ack at the acknowledged position itself removes nothing and is the end of no fragment. */
  lemma AckNothing(st: TxState, g: TxGhost, ack: int)
    requires TxCore(st, g) && ack == Wrap(ack) && Rel(st.seqNum, ack) == 0
    ensures RemoveAcked(st, ack, 0) == AckResult(st, 0)
    ensures forall i :: 0 <= i < |st.fragments| ==> st.fragments[i].End() != ack
  {
    RelInjective(st.seqNum, st.seqNum, ack);
    assert st.fragments[..0] == [];
    if st.fragments != [] { ReachBounds(st, g, 1); NoneBeyond(st, g, ack, 0); }
  }

  lemma RemoveAckedCore(st: TxState, g: TxGhost, ack: int, n: nat) returns (g': TxGhost)
    requires TxCore(st, g) && 0 < n <= |st.fragments|
    requires ack == Wrap(ack) && Reach(g, n) == Rel(st.seqNum, ack)
    ensures var r := RemoveAcked(st, ack, n);
            && TxCore(r.st, g') && g' == g.(base := g.base + n, done := g.done + r.sent)
            && r.sent <= |st.msgEnds| && r.st.msgEnds == st.msgEnds[r.sent..]
    ensures st.fragments[n - 1].End() == ack
  {
    hide TxFrag.End;
    ReachBounds(st, g, n);
    RelInjective(st.seqNum, Wrap(Edge(g.hist, g.base + n)), ack);
    PopEndsSuffix(st.msgEnds, st.fragments[..n], st.seqNum);
    var sent := PopEnds(st.msgEnds, st.fragments[..n], st.seqNum).count;
    DropAcked(st, g, n, sent);
    g' := g.(base := g.base + n, done := g.done + sent);
    FragEnd(st, g, n - 1);
  }

  /**
   * Every 16-bit value is accounted for, in every run: an ack that is the
   * end of an outstanding fragment removes exactly the fragments up to that
   * one, and any other leaves the whole state as it was.
   */
  lemma HandleAckCore(st: TxState, g: TxGhost, seqNum: int) returns (g': TxGhost)
    requires TxCore(st, g)
    ensures var r := HandleAck(st, seqNum);
            && TxCore(r.st, g') && g.base <= g'.base <= g.base + |st.fragments|
            && g' == g.(base := g'.base, done := g.done + r.sent)
            && r.sent == PopEnds(st.msgEnds, st.fragments[..g'.base - g.base], st.seqNum).count
            && (!Acknowledges(st, seqNum) ==> r == AckResult(st, 0) && g' == g)
            && (Acknowledges(st, seqNum) ==>
                  var n := g'.base - g.base;
                  && 0 < n <= |st.fragments|
                  && st.fragments[n - 1].End() == Wrap(seqNum)
                  && r.sent <= |st.msgEnds|
                  && r.st == st.(seqNum := Wrap(seqNum), fragments := st.fragments[n..],
                                 msgEnds := st.msgEnds[r.sent..]))
  {
    hide TxCore;
    var ack := Wrap(seqNum);
    var n := AckCount(st, ack);
    g' := g;
    CoreBase(st, g);
    AckCountFinds(st, g, ack);
    assert st.fragments[..0] == [];
    if n == Some(0) {
      ReachNothing(g);
      AckNothing(st, g, ack);
    } else if n.Some? {
      g' := RemoveAckedCore(st, g, ack, n.value);
    }
  }

  lemma CoreBase(st: TxState, g: TxGhost)
    requires TxCore(st, g)
    ensures g.base <= |g.hist| && |st.fragments| == |g.hist| - g.base
  {
  }

  lemma ReachNothing(g: TxGhost)
    requires g.base <= |g.hist|
    ensures Reach(g, 0) == 0
  {
  }

  /** With non-empty messages, the count is that of the messages completed. */
  lemma AckCompletes(st: TxState, g: TxGhost, n: nat)
    requires TxInv(st, g) && Settled(st) && n <= |st.fragments|
    ensures DoneAt(g.msgs, g.done + PopEnds(st.msgEnds, st.fragments[..n], st.seqNum).count, Edge(g.hist, g.base + n))
  {
    assert st.fragments[0..n] == st.fragments[..n];
    var done := PopEndsInv(st, g, n, 0, st.msgEnds, g.done);
  }

  /** The same with non-empty messages: what is reported is exactly what is wholly acknowledged. */
  lemma HandleAckTotal(st: TxState, g: TxGhost, seqNum: int) returns (g': TxGhost)
    requires TxInv(st, g) && Settled(st)
    ensures var r := HandleAck(st, seqNum);
            && TxInv(r.st, g') && Settled(r.st)
            && g' == g.(base := g'.base, done := g.done + r.sent)
            && (!Acknowledges(st, seqNum) ==> r == AckResult(st, 0) && g' == g)
            && (Acknowledges(st, seqNum) ==>
                  var n := g'.base - g.base;
                  && 0 < n <= |st.fragments|
                  && st.fragments[n - 1].End() == Wrap(seqNum)
                  && r.st == st.(seqNum := Wrap(seqNum), fragments := st.fragments[n..],
                                 msgEnds := st.msgEnds[r.sent..]))
  {
    hide TxCore, HandleAck;
    g' := HandleAckCore(st, g, seqNum);
    CoreBase(st, g);
    AckCompletes(st, g, g'.base - g.base);
  }

  lemma StaleEndsNowhere(st: TxState, g: TxGhost, pos: int, i: nat)
    requires Window(st, g) && Outstanding(st, g) && i < |st.fragments|
    requires Acked(g) - (0x10000 - st.windowSize) < pos <= Acked(g)
    ensures st.fragments[i].End() != Wrap(pos)
  {
    FragEnd(st, g, i);
    ReachBounds(st, g, i + 1);
    StaleDistance(Acked(g), pos, st.windowSize);
  }

  /** An acknowledgement that was overtaken changes nothing while it is less than 2^16 - window bytes old. */
  lemma StaleAckIgnored(st: TxState, g: TxGhost, pos: int)
    requires TxInv(st, g) && Settled(st)
    requires Acked(g) - (0x10000 - st.windowSize) < pos <= Acked(g)
    ensures HandleAck(st, Wrap(pos)) == AckResult(st, 0)
  {
    hide Window, Outstanding, Queue, HandleAck, TxFrag.End;
    forall i | 0 <= i < |st.fragments| ensures st.fragments[i].End() != Wrap(pos) {
      StaleEndsNowhere(st, g, pos, i);
    }
    var g' := HandleAckTotal(st, g, Wrap(pos));
  }

  lemma StaleDistance(acked: int, pos: int, window: nat)
    requires acked - (0x10000 - window) < pos <= acked && window < 0x10000
    ensures Rel(Wrap(acked), Wrap(pos)) == 0 || Rel(Wrap(acked), Wrap(pos)) > window
  {
    if pos < acked { RelFaithful(acked, pos + 0x10000); }
  }

  // ---------------------------------------------------------- new messages

  lemma StartsAppend(ms: seq<Msg>, m: Msg)
    ensures forall k :: 0 <= k <= |ms| ==> Start(ms + [m], k) == Start(ms, k)
  {
    forall k | 0 <= k <= |ms| ensures Start(ms + [m], k) == Start(ms, k) { StartAppend(ms, m, k); }
  }

  lemma ImagesAppend(ms: seq<Msg>, m: Msg, h: seq<Frag>, fs: seq<TxFrag>, base: nat)
    requires Tiles(ms, h) && base + |fs| <= |h|
    requires forall i :: 0 <= i < |fs| ==> Image(ms, h[base + i], fs[i])
    ensures forall i :: 0 <= i < |fs| ==> Image(ms + [m], h[base + i], fs[i])
  {
    TilesAppendMsg(ms, m, h);
    forall i | 0 <= i < |fs| ensures Image(ms + [m], h[base + i], fs[i]) {
      assert Image(ms, h[base + i], fs[i]);
    }
  }

  lemma AddQueue(st: TxState, g: TxGhost, m: Msg)
    requires Queue(st, g)
    ensures Queue(AddMsg(st, m), g.(msgs := g.msgs + [m]))
  {
    var ms := g.msgs + [m];
    StartAppend(g.msgs, m, g.cur);
    assert AddMsg(st, m).messages == ms[g.cur..];
  }

  lemma AddWindow(st: TxState, g: TxGhost, m: Msg)
    requires Window(st, g) && Outstanding(st, g)
    ensures Window(AddMsg(st, m), g.(msgs := g.msgs + [m]))
    ensures Outstanding(AddMsg(st, m), g.(msgs := g.msgs + [m]))
  {
    TilesAppendMsg(g.msgs, m, g.hist);
    StartAppend(g.msgs, m, g.cur);
    ImagesAppend(g.msgs, m, g.hist, st.fragments, g.base);
  }

  lemma AddCore(st: TxState, g: TxGhost, m: Msg)
    requires TxCore(st, g)
    ensures TxCore(AddMsg(st, m), g.(msgs := g.msgs + [m]))
  {
    AddQueue(st, g, m);
    AddWindow(st, g, m);
    StartsAppend(g.msgs, m);
  }

  lemma AddDone(st: TxState, g: TxGhost, m: Msg)
    requires TxInv(st, g) && m != []
    ensures DoneAt(g.msgs + [m], g.done, Acked(g))
  {
    StartsAppend(g.msgs, m);
    EdgeMonotone(g.msgs, g.hist, g.base, |g.hist|);
  }

  lemma AddInv(st: TxState, g: TxGhost, m: Msg)
    requires TxInv(st, g) && Settled(st) && m != []
    ensures TxInv(AddMsg(st, m), g.(msgs := g.msgs + [m])) && Settled(AddMsg(st, m))
  {
    hide TxCore, Settled, DoneAt;
    AddCore(st, g, m);
    AddDone(st, g, m);
    AddSettled(st, g, m);
    assert forall k :: 0 <= k < |g.msgs| ==> (g.msgs + [m])[k] == g.msgs[k];
  }

  // ------------------------------------------------- every run, in one view

  /** The tiling of every run, and exact completion as long as messages are non-empty. */
  ghost predicate TxSound(st: TxState, g: TxGhost) {
    && TxCore(st, g) && SettledIf(st, g.msgs)
    && (NonEmpty(g.msgs) ==> g.base <= |g.hist| && DoneAt(g.msgs, g.done, Acked(g)))
  }

  lemma AddSettled(st: TxState, g: TxGhost, m: Msg)
    requires TxCore(st, g) && SettledIf(st, g.msgs)
    ensures SettledIf(AddMsg(st, m), g.msgs + [m])
    ensures NonEmpty(g.msgs + [m]) ==> NonEmpty(g.msgs) && m != []
  {
    if NonEmpty(g.msgs + [m]) {
      assert (g.msgs + [m])[|g.msgs|] == m;
      assert forall k :: 0 <= k < |g.msgs| ==> (g.msgs + [m])[k] == g.msgs[k];
    }
  }

  lemma AddSound(st: TxState, g: TxGhost, m: Msg)
    requires TxSound(st, g)
    ensures TxSound(AddMsg(st, m), g.(msgs := g.msgs + [m]))
  {
    hide TxCore;
    AddCore(st, g, m);
    AddSettled(st, g, m);
    if NonEmpty(g.msgs + [m]) { AddInv(st, g, m); }
  }

  lemma GetWriteDataSound(st: TxState, g: TxGhost) returns (g': TxGhost)
    requires TxSound(st, g) && AllArmed(st.fragments)
    ensures var w := GetWriteData(st);
            SendCore(Sent(w.st, w.data, w.raised), g, g') && TxSound(w.st, g')
  {
    hide TxCore, GetWriteData, FromTiling;
    CoreBase(st, g);
    g' := GetWriteDataCore(st, g);
    AckedKept(g, g');
  }

  lemma HandleAckSound(st: TxState, g: TxGhost, seqNum: int) returns (g': TxGhost)
    requires TxSound(st, g)
    ensures var r := HandleAck(st, seqNum);
            && TxSound(r.st, g') && g.base <= g'.base <= g.base + |st.fragments|
            && g' == g.(base := g'.base, done := g.done + r.sent)
            && r.st.fragments == st.fragments[g'.base - g.base..]
  {
    hide TxCore, HandleAck;
    CoreBase(st, g);
    g' := HandleAckCore(st, g, seqNum);
    CoreBase(HandleAck(st, seqNum).st, g');
    if NonEmpty(g.msgs) { AckCompletes(st, g, g'.base - g.base); }
  }

  /** Outstanding fragments have sizes and numbers that fit their header fields. */
  lemma OutstandingEncodable(st: TxState, g: TxGhost, i: nat, t: TxFrag)
    requires Window(st, g) && st.windowSize < 0x100
    requires forall k :: 0 <= k < |g.msgs| ==> |g.msgs[k]| < 0x10000
    requires g.base <= i < |g.hist| && Image(g.msgs, g.hist[i], t)
    ensures Encodable(t)
  {
    EdgeMonotone(g.msgs, g.hist, g.base, i);
    EdgeMonotone(g.msgs, g.hist, i + 1, |g.hist|);
    assert Fits(g.msgs, g.hist[i]);
  }
}
