/**
 * What empty messages do to send completion.  They are cut into no
 * fragment, while each fragment removed retires at most one recorded end.
 */
module TxEmpty {
  import opened Base
  import opened Cyclic
  import opened Stream
  import opened TxSpec
  import opened TxProof
  import opened TxRuns

  // ------------------------------------------- one fragment for every report

  /** Each message reported had its own fragment, acknowledged and ending no earlier than the message. */
  ghost predicate Paired(g: TxGhost, via: seq<nat>) {
    && g.base <= |g.hist| && g.done <= |g.msgs| && |via| == g.done
    && (forall i, j :: 0 <= i < j < |via| ==> via[i] < via[j])
    && (forall i :: 0 <= i < |via| ==> via[i] < g.base)
    && forall i :: 0 <= i < |via| ==> Start(g.msgs, i + 1) <= g.hist[via[i]].End()
  }

  /** A fragment never retires an end beyond its own. */
  lemma PopNotBeyond(st: TxState, g: TxGhost, i: nat, ends: seq<int>, done: nat)
    requires TxCore(st, g) && i < |st.fragments| && EndsFrom(g.msgs, ends, done, g.cur) && ends != []
    requires Rel(st.seqNum, ends[0]) <= Rel(st.seqNum, st.fragments[i].End())
    ensures Start(g.msgs, done + 1) <= g.hist[g.base + i].End()
  {
    var e := Start(g.msgs, done + 1);
    FragEnd(st, g, i);
    ReachBounds(st, g, i + 1);
    if Acked(g) <= e {
      StartMonotone(g.msgs, done + 1, g.cur);
      RelFaithful(Acked(g), e);
    }
  }

  lemma {:induction false} PopsPaired(st: TxState, g: TxGhost, n: nat, i: nat, ends: seq<int>, via: seq<nat>)
    returns (via': seq<nat>)
    requires TxCore(st, g) && i <= n <= |st.fragments| && EndsFrom(g.msgs, ends, |via|, g.cur)
    requires Paired(g.(base := g.base + i, done := |via|), via)
    ensures |via'| == |via| + PopEnds(ends, st.fragments[i..n], st.seqNum).count
    ensures Paired(g.(base := g.base + n, done := |via'|), via')
    decreases n - i
  {
    hide TxCore, TxFrag.End;
    CoreBase(st, g);
    via' := via;
    if i < n {
      var fs := st.fragments[i..n];
      assert fs[0] == st.fragments[i] && fs[1..] == st.fragments[i + 1..n];
      if ends != [] && Rel(st.seqNum, ends[0]) <= Rel(st.seqNum, fs[0].End()) {
        PopNotBeyond(st, g, i, ends, |via|);
        via' := PopsPaired(st, g, n, i + 1, ends[1..], via + [g.base + i]);
      } else {
        via' := PopsPaired(st, g, n, i + 1, ends, via);
      }
    }
  }

  lemma PairedGrows(g: TxGhost, g': TxGhost, via: seq<nat>)
    requires Paired(g, via) && Grows(g, g')
    ensures Paired(g', via)
  {
    forall i | 0 <= i < |via| ensures Start(g'.msgs, i + 1) <= g'.hist[via[i]].End() {
      assert g'.hist[via[i]] == g'.hist[..|g.hist|][via[i]];
    }
  }

  lemma PairedAdds(g: TxGhost, m: Msg, via: seq<nat>)
    requires Paired(g, via)
    ensures Paired(g.(msgs := g.msgs + [m]), via)
  {
    StartsAppend(g.msgs, m);
  }

  lemma PairedAcks(st: TxState, g: TxGhost, g': TxGhost, via: seq<nat>) returns (via': seq<nat>)
    requires TxCore(st, g) && Paired(g, via)
    requires g.base <= g'.base && g' == g.(base := g'.base, done := g'.done) && g'.base - g.base <= |st.fragments|
    requires g'.done == g.done + PopEnds(st.msgEnds, st.fragments[..g'.base - g.base], st.seqNum).count
    ensures Paired(g', via')
  {
    var n := g'.base - g.base;
    assert st.fragments[0..n] == st.fragments[..n];
    via' := PopsPaired(st, g, n, 0, st.msgEnds, via);
  }

  lemma StepPairs(r: TxRun, g: TxGhost, via: seq<nat>, op: TxOp) returns (g': TxGhost, via': seq<nat>)
    requires ExplainsCore(r, g) && Paired(g, via)
    ensures ExplainsCore(Step(r, op), g') && Paired(g', via')
  {
    hide TxCore, Paired, Step, Grows;
    g' := StepExplainsCore(r, g, op);
    via' := via;
    match op
    case Add(m) => PairedAdds(g, m, via);
    case Write => PairedGrows(g, g', via);
    case Ack(a) => via' := PairedAcks(r.st, g, g', via);
    case _ =>
  }

  lemma {:induction false} RunPairs(r: TxRun, g: TxGhost, via: seq<nat>, ops: seq<TxOp>)
    returns (g': TxGhost, via': seq<nat>)
    requires ExplainsCore(r, g) && Paired(g, via)
    ensures ExplainsCore(Run(r, ops), g') && Paired(g', via')
    decreases |ops|
  {
    hide ExplainsCore, Paired, Step;
    g', via' := g, via;
    if ops != [] {
      var g1, via1 := StepPairs(r, g, via, ops[0]);
      g', via' := RunPairs(Step(r, ops[0]), g1, via1, ops[1..]);
    }
  }

  /** An empty last message and the last non-empty one would need the same fragment. */
  lemma LastEmptyOpen(g: TxGhost, via: seq<nat>)
    requires Tiles(g.msgs, g.hist) && Paired(g, via)
    requires g.msgs != [] && g.msgs[|g.msgs| - 1] == []
    ensures g.done < |g.msgs|
  {
    var n := |g.msgs| - 1;
    if g.done == |g.msgs| {
      var f := g.hist[via[n]];
      assert Fits(g.msgs, f);
      StartMonotone(g.msgs, f.msg + 1, |g.msgs|);
      assert f.End() == Start(g.msgs, f.msg + 1) == Total(g.msgs);
      EdgeMonotone(g.msgs, g.hist, via[f.msg] + 1, via[n]);
      assert false;
    }
  }

  /**
   * In every run whatever, as long as the last message given is empty, not
   * all messages are reported, though their streams may be acknowledged to
   * the last byte.
   */
  lemma LastEmptyUnreported(writeSize: nat, windowSize: nat, checksum: bool, ops: seq<TxOp>)
    requires windowSize < 0x10000
    ensures var r := Run(Begin(writeSize, windowSize, checksum), ops);
            r.msgs != [] && r.msgs[|r.msgs| - 1] == [] ==> r.reported < |r.msgs|
  {
    hide ExplainsCore, Paired, Run;
    BeginPairs(writeSize, windowSize, checksum);
    var begin := Begin(writeSize, windowSize, checksum);
    var g, via := RunPairs(begin, TxGhost([], 0, [], 0, 0), [], ops);
    CoreTiles(Run(begin, ops), g);
    if g.msgs != [] && g.msgs[|g.msgs| - 1] == [] { LastEmptyOpen(g, via); }
  }

  lemma BeginPairs(writeSize: nat, windowSize: nat, checksum: bool)
    requires windowSize < 0x10000
    ensures ExplainsCore(Begin(writeSize, windowSize, checksum), TxGhost([], 0, [], 0, 0))
    ensures Paired(TxGhost([], 0, [], 0, 0), [])
  {
    BeginExplains(writeSize, windowSize, checksum);
  }

  lemma CoreTiles(r: TxRun, g: TxGhost)
    requires ExplainsCore(r, g)
    ensures Tiles(g.msgs, g.hist) && g.msgs == r.msgs && g.done == r.reported
  {
  }

  // -------------------------------------------------- an end left behind

  lemma {:induction false} PopsNothing(ends: seq<int>, fs: seq<TxFrag>, zero: int)
    requires ends != []
    ensures PopEnds(ends, fs, zero).count == 0 <==>
            forall j :: 0 <= j < |fs| ==> Rel(zero, ends[0]) > Rel(zero, fs[j].End())
    decreases |fs|
  {
    hide TxFrag.End;
    if fs != [] && !(Rel(zero, ends[0]) <= Rel(zero, fs[0].End())) {
      PopsNothing(ends, fs[1..], zero);
      assert forall j :: 0 < j < |fs| ==> fs[j] == fs[1..][j - 1];
      assert forall j :: 0 <= j < |fs| - 1 ==> fs[1..][j] == fs[j + 1];
    }
  }

  lemma EndsAre(st: TxState, g: TxGhost)
    requires TxCore(st, g) && st.msgEnds != []
    ensures g.done < |g.msgs| && st.msgEnds[0] == Wrap(Start(g.msgs, g.done + 1))
    ensures g.base <= |g.hist| && st.seqNum == Wrap(Acked(g))
  {
  }

  lemma LapLater(zero: int, e: int)
    requires 0 < zero - e < 0x10000
    ensures Rel(Wrap(zero), Wrap(e)) == e + 0x10000 - zero
  {
  }

  /** The recorded end of a message already acknowledged, seen from the acknowledged position. */
  lemma BehindIsFar(st: TxState, g: TxGhost, i: nat)
    requires TxCore(st, g) && st.msgEnds != [] && i < |st.fragments|
    requires 0 < Acked(g) - Start(g.msgs, g.done + 1) < 0x10000
    ensures g.base + i < |g.hist|
    ensures Rel(st.seqNum, st.msgEnds[0]) > Rel(st.seqNum, st.fragments[i].End())
       <==> g.hist[g.base + i].End() < Start(g.msgs, g.done + 1) + 0x10000
  {
    CoreBase(st, g);
    EndsAre(st, g);
    FragEnd(st, g, i);
    hide TxFrag.End, TxCore, Rel, Start, Wrap;
    LapLater(Acked(g), Start(g.msgs, g.done + 1));
    assert Edge(g.hist, g.base + (i + 1)) == g.hist[g.base + i].End();
  }

  /**
   * An end left behind the acknowledged position blocks every completion, of
   * whatever messages, until an ack reaches 2^16 bytes beyond it.
   */
  lemma EndBehindBlocks(st: TxState, g: TxGhost, seqNum: int)
    requires TxCore(st, g) && st.msgEnds != []
    requires 0 < Acked(g) - Start(g.msgs, g.done + 1) < 0x10000
    ensures var r := HandleAck(st, seqNum);
            var n := |st.fragments| - |r.st.fragments|;
            && 0 <= n && g.base + n <= |g.hist|
            && (r.sent == 0 <==> n == 0 || Edge(g.hist, g.base + n) < Start(g.msgs, g.done + 1) + 0x10000)
  {
    hide HandleAck, TxFrag.End, TxCore;
    var g' := HandleAckCore(st, g, seqNum);
    var n := g'.base - g.base;
    BlockedBy(st, g, n);
    CoreBase(st, g);
    CoreBase(HandleAck(st, seqNum).st, g');
  }

  lemma BlockedBy(st: TxState, g: TxGhost, n: nat)
    requires TxCore(st, g) && st.msgEnds != [] && n <= |st.fragments|
    requires 0 < Acked(g) - Start(g.msgs, g.done + 1) < 0x10000
    ensures PopEnds(st.msgEnds, st.fragments[..n], st.seqNum).count == 0
       <==> n == 0 || Edge(g.hist, g.base + n) < Start(g.msgs, g.done + 1) + 0x10000
  {
    hide TxFrag.End, PopEnds;
    var fs := st.fragments[..n];
    PopsNothing(st.msgEnds, fs, st.seqNum);
    forall j | 0 <= j < n
      ensures Rel(st.seqNum, st.msgEnds[0]) > Rel(st.seqNum, fs[j].End())
         <==> g.hist[g.base + j].End() < Start(g.msgs, g.done + 1) + 0x10000
      ensures g.hist[g.base + j].End() <= Edge(g.hist, g.base + n)
    {
      BehindIsFar(st, g, j);
      EdgeMonotone(g.msgs, g.hist, g.base + j + 1, g.base + n);
    }
    if n > 0 {
      assert g.hist[g.base + (n - 1)].End() == Edge(g.hist, g.base + n);
      assert Rel(st.seqNum, fs[n - 1].End()) == Rel(st.seqNum, st.fragments[n - 1].End());
    }
  }

  // ---------------------------------------------- a run with empty messages

  /** With nothing waiting, a write cuts at most what MakeFragment gives; here nothing. */
  lemma WritesNothing(st: TxState)
    requires st.packets == [] && NoneWaiting(st.fragments)
    requires MakeFragment(st, st.writeSize).fragment.None?
    ensures GetWriteData(st).st == MakeFragment(st, st.writeSize).st
  {
    assert SendLoop(st, 0) == WritePicked(Select(st, st.writeSize), 0);
  }

  /** Here one fragment. */
  lemma WritesOne(st: TxState, f: TxFrag, s: TxState)
    requires st.packets == [] && NoneWaiting(st.fragments)
    requires MakeFragment(st, st.writeSize) == Made(s, Some(f), false) && 4 + |f.data| <= st.writeSize == s.writeSize
    requires !f.needSend
    requires var t := s.(fragments := st.fragments + [f.(armed := true)]);
             MakeFragment(t, st.writeSize - 4 - |f.data|).fragment.None?
    ensures var t := s.(fragments := st.fragments + [f.(armed := true)]);
            GetWriteData(st).st == MakeFragment(t, st.writeSize - 4 - |f.data|).st
  {
    hide MakeFragment;
    var t := s.(fragments := st.fragments + [f.(armed := true)]);
    var p := Select(st, st.writeSize);
    assert p == Picked(s.(fragments := st.fragments + [f]), |st.fragments|);
    assert Arm(p.st, p.index) == t;
    var e := 4 + |f.data|;
    assert SendLoop(t, e) == WritePicked(Select(t, t.writeSize - e), e);
    assert SendLoop(st, 0) == WritePicked(p, 0);
  }

  function Sender(seqNum: int, msgs: seq<Msg>, begin: int, ends: seq<int>, fs: seq<TxFrag>): TxState {
    TxState(seqNum, [], msgs, begin, 0, ends, fs, 24, 64, true, false)
  }

  function Cut(at: int, m: Msg): TxFrag { TxFrag(at, |m|, m, false, true) }

  /** A message of a few bytes goes out whole. */
  lemma CutsWhole(seqNum: int, m: Msg, rest: seq<Msg>, begin: int, ends: seq<int>, fs: seq<TxFrag>)
    requires 0 < |m| <= 8 && 0 <= seqNum <= begin <= seqNum + 32 && seqNum < 0x8000
    requires NoneWaiting(fs) && (rest != [] ==> rest[0] == [])
    ensures GetWriteData(Sender(seqNum, [m] + rest, begin, ends, fs)).st ==
            Sender(seqNum, rest, begin + |m|, ends + [begin + |m|], fs + [Cut(begin, m)])
  {
    var st := Sender(seqNum, [m] + rest, begin, ends, fs);
    var f, s := TxFrag(begin, |m|, m, false, false), st.(msgFragmented := |m|);
    assert m[0..|m|] == m;
    assert MakeFragment(st, 24) == Made(s, Some(f), false);
    var t := s.(fragments := fs + [Cut(begin, m)]);
    assert ([m] + rest)[1..] == rest;
    assert LoadNext(t) == Sender(seqNum, rest, begin + |m|, ends + [begin + |m|], fs + [Cut(begin, m)]);
    assert MakeFragment(t, 20 - |m|) == Made(LoadNext(t), None, false);
    WritesOne(st, f, s);
  }

  /** An empty message only has its end recorded. */
  lemma PassesEmpty(seqNum: int, rest: seq<Msg>, begin: int, ends: seq<int>, fs: seq<TxFrag>)
    requires 0 <= begin < 0x8000 && NoneWaiting(fs) && rest != [] && rest[0] == []
    ensures GetWriteData(Sender(seqNum, [[]] + rest, begin, ends, fs)).st ==
            Sender(seqNum, rest, begin, ends + [begin], fs)
  {
    var st := Sender(seqNum, [[]] + rest, begin, ends, fs);
    assert ([[]] + rest)[1..] == rest;
    assert MakeFragment(st, 24) == Made(LoadNext(st), None, false);
    WritesNothing(st);
  }

  /** The second of two empty messages, with one of a few bytes behind it. */
  lemma PassesAndCuts(seqNum: int, m: Msg, begin: int, ends: seq<int>, fs: seq<TxFrag>)
    requires 0 < |m| <= 8 && 0 <= seqNum <= begin <= seqNum + 32 && seqNum < 0x8000 && NoneWaiting(fs)
    ensures GetWriteData(Sender(seqNum, [[], m], begin, ends, fs)).st ==
            Sender(seqNum, [], begin + |m|, ends + [begin, begin + |m|], fs + [Cut(begin, m)])
  {
    var st := Sender(seqNum, [[], m], begin, ends, fs);
    var f := TxFrag(begin, |m|, m, false, false);
    var s := Sender(seqNum, [m], begin, ends + [begin], fs).(msgFragmented := |m|);
    assert m[0..|m|] == m;
    assert LoadNext(st) == Sender(seqNum, [m], begin, ends + [begin], fs);
    assert MakeFragment(st, 24) == Made(s, Some(f), false);
    var t := s.(fragments := fs + [Cut(begin, m)]);
    assert LoadNext(t) == Sender(seqNum, [], begin + |m|, ends + [begin] + [begin + |m|], fs + [Cut(begin, m)]);
    assert ends + [begin] + [begin + |m|] == ends + [begin, begin + |m|];
    assert MakeFragment(t, 20 - |m|) == Made(LoadNext(t), None, false);
    WritesOne(st, f, s);
  }

  /** An ack for the oldest fragment retires the oldest end, unless that lies behind. */
  lemma AcksOldest(at: nat, m: Msg, msgs: seq<Msg>, begin: int, end: nat, ends: seq<int>, fs: seq<TxFrag>)
    requires 0 < |m| <= 8 && at + |m| <= begin < 0x4000 && end <= at + |m|
    ensures HandleAck(Sender(at, msgs, begin, [end] + ends, [Cut(at, m)] + fs), at + |m|) ==
            if at <= end then AckResult(Sender(at + |m|, msgs, begin, ends, fs), 1)
            else AckResult(Sender(at + |m|, msgs, begin, [end] + ends, fs), 0)
  {
    var st := Sender(at, msgs, begin, [end] + ends, [Cut(at, m)] + fs);
    assert st.fragments[..1] == [Cut(at, m)] && st.fragments[1..] == fs;
    assert [Cut(at, m)][1..] == [] && ([end] + ends)[1..] == ends;
    assert AckScan(st.fragments, at, at + |m|, 0) == Some(1);
    assert PopEnds([end] + ends, [Cut(at, m)], at) ==
           if at <= end then Popped(ends, 1) else Popped([end] + ends, 0);
  }

  lemma {:induction false} RunAppend(r: TxRun, ops: seq<TxOp>, more: seq<TxOp>)
    ensures Run(r, ops + more) == Run(Run(r, ops), more)
    decreases |ops|
  {
    hide Step;
    if ops == [] {
      assert ops + more == more;
    } else {
      assert (ops + more)[1..] == ops[1..] + more;
      RunAppend(Step(r, ops[0]), ops[1..], more);
    }
  }

  lemma RunTwo(r: TxRun, op: TxOp, last: TxOp)
    ensures Run(r, [op, last]) == Step(Step(r, op), last)
  {
    hide Step;
    assert [op, last][1..] == [last] && [last][1..] == [];
    assert Run(Step(r, op), [last]) == Run(Step(Step(r, op), last), []);
  }

  lemma TwoAdds(r: TxRun, m: Msg, n: Msg)
    ensures Run(r, [Add(m), Add(n)]) ==
            r.(st := r.st.(messages := r.st.messages + [m, n]), msgs := r.msgs + [m, n])
  {
    RunTwo(r, Add(m), Add(n));
    assert r.st.messages + [m] + [n] == r.st.messages + [m, n];
    assert r.msgs + [m] + [n] == r.msgs + [m, n];
  }

  lemma FirstWrites(r: TxRun, a: Msg, b: Msg)
    requires 0 < |a| <= 8 && r.st == Sender(0, [a, [], [], b], 0, [], [])
    ensures var r' := Run(r, [Write, Write]);
            && r'.st == Sender(0, [[], b], |a|, [|a|, |a|], [Cut(0, a)])
            && r'.msgs == r.msgs && r'.reported == r.reported
  {
    hide GetWriteData;
    RunTwo(r, Write, Write);
    assert [a] + [[], [], b] == [a, [], [], b] && [[]] + [[], b] == [[], [], b];
    assert [] + [|a|] == [|a|] && [] + [Cut(0, a)] == [Cut(0, a)];
    CutsWhole(0, a, [[], [], b], 0, [], []);
    PassesEmpty(0, [[], b], |a|, [|a|], [Cut(0, a)]);
    assert [|a|] + [|a|] == [|a|, |a|];
  }

  lemma ThirdWriteAndAck(r: TxRun, a: Msg, b: Msg)
    requires 0 < |a| <= 8 && 0 < |b| <= 8
    requires r.st == Sender(0, [[], b], |a|, [|a|, |a|], [Cut(0, a)])
    ensures var r' := Run(r, [Write, Ack(|a|)]);
            && r'.st == Sender(|a|, [], |a| + |b|, [|a|, |a|, |a| + |b|], [Cut(|a|, b)])
            && r'.msgs == r.msgs && r'.reported == r.reported + 1
  {
    hide GetWriteData, HandleAck;
    RunTwo(r, Write, Ack(|a|));
    PassesAndCuts(0, b, |a|, [|a|, |a|], [Cut(0, a)]);
    var end, ends := |a| + |b|, [|a|, |a|, |a| + |b|];
    assert [|a|, |a|] + [|a|, end] == [|a|] + ends;
    AcksOldest(0, a, [], end, |a|, ends, [Cut(|a|, b)]);
  }

  lemma AckAndAdd(r: TxRun, a: Msg, b: Msg, c: Msg)
    requires 0 < |a| <= 8 && 0 < |b| <= 8
    requires r.st == Sender(|a|, [], |a| + |b|, [|a|, |a|, |a| + |b|], [Cut(|a|, b)])
    ensures var r' := Run(r, [Ack(|a| + |b|), Add(c)]);
            && r'.st == Sender(|a| + |b|, [c], |a| + |b|, [|a|, |a| + |b|], [])
            && r'.msgs == r.msgs + [c] && r'.reported == r.reported + 1
  {
    hide HandleAck;
    RunTwo(r, Ack(|a| + |b|), Add(c));
    assert [|a|] + [|a|, |a| + |b|] == [|a|, |a|, |a| + |b|] && [Cut(|a|, b)] + [] == [Cut(|a|, b)];
    AcksOldest(|a|, b, [], |a| + |b|, |a|, [|a|, |a| + |b|], []);
    assert [] + [c] == [c];
  }

  lemma LastWriteAndAck(r: TxRun, a: Msg, b: Msg, c: Msg)
    requires 0 < |a| <= 8 && 0 < |b| <= 8 && 0 < |c| <= 8
    requires r.st == Sender(|a| + |b|, [c], |a| + |b|, [|a|, |a| + |b|], [])
    ensures var r', end := Run(r, [Write, Ack(|a| + |b| + |c|)]), |a| + |b| + |c|;
            && r'.st == Sender(end, [], end, [|a|, |a| + |b|, end], [])
            && r'.msgs == r.msgs && r'.reported == r.reported
  {
    hide GetWriteData, HandleAck;
    var at, end := |a| + |b|, |a| + |b| + |c|;
    RunTwo(r, Write, Ack(end));
    assert [c] + [] == [c] && [] + [Cut(at, c)] == [Cut(at, c)] && [Cut(at, c)] + [] == [Cut(at, c)];
    CutsWhole(at, c, [], at, [|a|, at], []);
    assert [|a|, at] + [end] == [|a|] + [at, end];
    AcksOldest(at, c, [], end, |a|, [at, end], []);
    assert [|a|] + [at, end] == [|a|, at, end];
  }

  /**
   * Two empty messages in a row: when everything is acknowledged, the second
   * one's end lies behind and blocks the message added after that, although
   * it is not empty and is acknowledged to the last byte.
   */
  lemma TwoEmptyBlock(a: Msg, b: Msg, c: Msg)
    requires 0 < |a| <= 8 && 0 < |b| <= 8 && 0 < |c| <= 8
    ensures var end := |a| + |b| + |c|;
            var ops := [Add(a), Add([]), Add([]), Add(b), Write, Write, Write, Ack(|a|), Ack(|a| + |b|),
                        Add(c), Write, Ack(end)];
            var r := Run(Begin(24, 64, true), ops);
            && r.msgs == [a, [], [], b, c] && r.st.seqNum == end == Total(r.msgs)
            && r.st.messages == [] && r.st.fragments == [] && r.reported == 2
  {
    hide Run, Step;
    var end := |a| + |b| + |c|;
    var o1, o2: seq<TxOp>, o3: seq<TxOp> := [Add(a), Add([])], [Add([]), Add(b)], [Write, Write];
    var o4, o5, o6 := [Write, Ack(|a|)], [Ack(|a| + |b|), Add(c)], [Write, Ack(end)];
    var r0 := Begin(24, 64, true);
    var r1 := Run(r0, o1);
    TwoAdds(r0, a, []);
    var r2 := Run(r1, o2);
    TwoAdds(r1, [], b);
    assert [] + [a, []] == [a, []] && [a, []] + [[], b] == [a, [], [], b];
    FirstWrites(r2, a, b);
    var r3 := Run(r2, o3);
    ThirdWriteAndAck(r3, a, b);
    var r4 := Run(r3, o4);
    AckAndAdd(r4, a, b, c);
    var r5 := Run(r4, o5);
    LastWriteAndAck(r5, a, b, c);
    RunAppend(r0, o1, o2);
    RunAppend(r0, o1 + o2, o3);
    RunAppend(r0, o1 + o2 + o3, o4);
    RunAppend(r0, o1 + o2 + o3 + o4, o5);
    RunAppend(r0, o1 + o2 + o3 + o4 + o5, o6);
    assert o1 + o2 + o3 + o4 + o5 + o6 ==
           [Add(a), Add([]), Add([]), Add(b), Write, Write, Write, Ack(|a|), Ack(|a| + |b|), Add(c), Write, Ack(end)];
    TotalFive(a, b, c);
    assert [a, [], [], b] + [c] == [a, [], [], b, c];
  }

  lemma TotalFive(a: Msg, b: Msg, c: Msg)
    ensures Total([a, [], [], b, c]) == |a| + |b| + |c|
  {
    var ms := [a, [], [], b, c];
    assert Start(ms, 1) == |a| && Start(ms, 2) == |a| && Start(ms, 3) == |a|;
    assert Start(ms, 4) == |a| + |b|;
  }

  // ---------------------------------------------------- the exact condition

  /** All acknowledged, nothing queued but messages, and the cut position a plain integer. */
  ghost predicate Quiet(r: TxRun, g: TxGhost, windowSize: nat) {
    && Explains(r, g) && r.st.fragments == [] && r.st.packets == []
    && 0 < r.st.windowSize == windowSize && !r.st.cyclicCut
  }

  /** The size limit that leaves space for one byte of data. */
  function OneByteLimit(st: TxState): nat { 1 + (if st.msgFragmented == 0 then 6 else 4) + ChecksumSize(st) }

  /** With room in the window, a write of that limit sends one byte as long as there is something to send. */
  lemma WriteSends(st: TxState, g: TxGhost)
    requires TxInv(st, g) && Settled(st) && st.fragments == [] && st.packets == [] && !st.cyclicCut
    requires st.writeSize == OneByteLimit(st) && 0 < st.windowSize && Acked(g) < Total(g.msgs)
    ensures GetWriteData(st).st.fragments != [] && !GetWriteData(st).st.cyclicCut && GetWriteData(st).st.packets == []
  {
    assert g.cur < |g.msgs|;
    RoomWhenQuiet(Acked(g), st.windowSize);
    assert Room(st) == st.windowSize by { WrapAdd(Start(g.msgs, g.cur), st.msgFragmented); }
    OneByteCut(st);
  }

  lemma OneByteCut(st: TxState)
    requires st.messages != [] && Settled(st) && st.fragments == [] && st.packets == [] && !st.cyclicCut
    requires st.writeSize == OneByteLimit(st) && 0 < Room(st)
    ensures GetWriteData(st).st.fragments != [] && !GetWriteData(st).st.cyclicCut && GetWriteData(st).st.packets == []
  {
    hide Room;
    var f, s := CutPiece(st, 1), st.(msgFragmented := st.msgFragmented + 1);
    assert MakeFragment(st, st.writeSize) == Made(s, Some(f), false);
    var t := s.(fragments := st.fragments + [f.(armed := true)]);
    var made := MakeFragment(t, st.writeSize - 5);
    assert made.fragment.None? && made.st == LoadNext(t);
    WritesOne(st, f, s);
  }

  lemma RoomWhenQuiet(at: int, window: nat)
    requires window < 0x10000
    ensures Wrap(Wrap(at) + window - Wrap(at)) == window
  {
  }

  lemma CoreParts(st: TxState, g: TxGhost)
    requires TxCore(st, g)
    ensures Window(st, g) && Outstanding(st, g) && Tiles(g.msgs, g.hist) && g.cur <= |g.msgs|
    ensures Edge(g.hist, |g.hist|) <= Total(g.msgs)
  {
    StartMonotone(g.msgs, g.cur, |g.msgs|);
    if g.cur < |g.msgs| { StartMonotone(g.msgs, g.cur + 1, |g.msgs|); }
  }

  /** Only the last outstanding fragment ends where the tiling ends. */
  lemma EndsAtLast(st: TxState, g: TxGhost, n: nat)
    requires Window(st, g) && Outstanding(st, g) && 0 < n <= |st.fragments|
    requires st.fragments[n - 1].End() == Wrap(Edge(g.hist, |g.hist|))
    ensures n == |st.fragments|
  {
    hide TxFrag.End;
    FragEnd(st, g, n - 1);
    FragEnd(st, g, |st.fragments| - 1);
    if n < |st.fragments| { ReachIncreases(st, g, n, |st.fragments|); }
  }

  /** An ack for everything sent leaves nothing outstanding. */
  lemma AckAll(st: TxState, g: TxGhost) returns (g': TxGhost)
    requires TxCore(st, g) && st.fragments != []
    ensures var r := HandleAck(st, Wrap(Edge(g.hist, |g.hist|)));
            && r.st == st.(seqNum := r.st.seqNum, fragments := [], msgEnds := r.st.msgEnds)
            && TxCore(r.st, g') && g' == g.(base := |g.hist|, done := g'.done)
            && Acked(g) < Acked(g')
  {
    hide TxCore, HandleAck, TxFrag.End, Window, Outstanding;
    var a := Wrap(Edge(g.hist, |g.hist|));
    CoreBase(st, g);
    CoreParts(st, g);
    g' := HandleAckCore(st, g, a);
    var last := |st.fragments| - 1;
    FragEnd(st, g, last);
    assert st.fragments[last].End() == Wrap(a);
    EndsAtLast(st, g, g'.base - g.base);
    ReachIncreases(st, g, 0, last + 1);
  }

  lemma QuietParts(r: TxRun, g: TxGhost)
    requires Explains(r, g)
    ensures TxInv(r.st, g) && TxCore(r.st, g) && Settled(r.st) && g.msgs == r.msgs && g.base <= |g.hist|
    ensures |r.st.fragments| == |g.hist| - g.base && NonEmpty(g.msgs)
  {
  }

  lemma QuietWrite(r: TxRun, g: TxGhost, windowSize: nat) returns (g': TxGhost)
    requires Quiet(r, g, windowSize) && r.st.writeSize == OneByteLimit(r.st) && Acked(g) < Total(g.msgs)
    ensures var r' := Step(r, Write);
            && Explains(r', g') && g'.msgs == g.msgs && Acked(g') == Acked(g)
            && r'.st.fragments != [] && r'.st.packets == [] && r'.st.windowSize == windowSize && !r'.st.cyclicCut
  {
    hide TxInv, TxCore, ExplainsCore, Completes, Settled, SendLoop;
    QuietParts(r, g);
    WriteSends(r.st, g);
    g' := StepExplainsCore(r, g, Write);
    AckedKept(g, g');
  }

  lemma QuietAck(r: TxRun, g: TxGhost) returns (g': TxGhost)
    requires Explains(r, g) && r.st.fragments != []
    ensures var r' := Step(r, Ack(Wrap(Edge(g.hist, |g.hist|))));
            && Explains(r', g') && g'.msgs == g.msgs && Acked(g) < Acked(g')
            && r'.st.fragments == [] && r'.st.packets == r.st.packets && r'.st.windowSize == r.st.windowSize
            && r'.st.cyclicCut == r.st.cyclicCut
  {
    hide TxInv, TxCore, ExplainsCore, Completes, Settled, HandleAck;
    var a := Wrap(Edge(g.hist, |g.hist|));
    QuietParts(r, g);
    var acked := AckAll(r.st, g);
    g' := StepExplainsCore(r, g, Ack(a));
    QuietParts(Step(r, Ack(a)), g');
    assert g'.base == acked.base;
  }

  lemma RunOne(r: TxRun, op: TxOp)
    ensures Run(r, [op]) == Step(r, op)
  {
    assert [op][1..] == [];
  }

  /** One write and one ack move a quiet sender on. */
  lemma QuietMoves(r: TxRun, g: TxGhost, windowSize: nat) returns (ops: seq<TxOp>, g': TxGhost)
    requires Quiet(r, g, windowSize) && Acked(g) < Total(g.msgs)
    ensures Quiet(Run(r, ops), g', windowSize) && g'.msgs == g.msgs && Acked(g) < Acked(g')
  {
    hide ExplainsCore, Completes, GetWriteData, HandleAck, Run;
    var r1 := Step(r, Resize(OneByteLimit(r.st)));
    var g1 := StepExplainsCore(r, g, Resize(OneByteLimit(r.st)));
    var g2 := QuietWrite(r1, g1, windowSize);
    var a := Wrap(Edge(g2.hist, |g2.hist|));
    g' := QuietAck(Step(r1, Write), g2);
    RunOne(r, Resize(OneByteLimit(r.st)));
    RunTwo(r1, Write, Ack(a));
    RunAppend(r, [Resize(OneByteLimit(r.st))], [Write, Ack(a)]);
    ops := [Resize(OneByteLimit(r.st))] + [Write, Ack(a)];
  }

  lemma AckedInRange(r: TxRun, g: TxGhost)
    requires Explains(r, g)
    ensures g.base <= |g.hist| && Acked(g) <= Total(g.msgs)
  {
    CoreParts(r.st, g);
    EdgeMonotone(g.msgs, g.hist, g.base, |g.hist|);
  }

  lemma QuietBegin(writeSize: nat, windowSize: nat, checksum: bool)
    requires 0 < windowSize < 0x10000
    ensures var r, g := Begin(writeSize, windowSize, checksum), TxGhost([], 0, [], 0, 0);
            Quiet(r, g, windowSize) && g.base <= |g.hist| && Acked(g) == Total([])
  {
    BeginExplains(writeSize, windowSize, checksum);
  }

  lemma QuietAdds(r: TxRun, g: TxGhost, windowSize: nat, m: Msg)
    requires Quiet(r, g, windowSize) && m != []
    ensures Quiet(Run(r, [Add(m)]), g.(msgs := g.msgs + [m]), windowSize)
  {
    hide ExplainsCore, Completes, Run;
    RunOne(r, Add(m));
    var g' := StepExplainsCore(r, g, Add(m));
  }

  lemma {:induction false} QuietDrains(r: TxRun, g: TxGhost, windowSize: nat) returns (ops: seq<TxOp>, g': TxGhost)
    requires Quiet(r, g, windowSize)
    ensures Quiet(Run(r, ops), g', windowSize) && g'.msgs == g.msgs
    ensures g'.base <= |g'.hist| && Acked(g') == Total(g.msgs)
    decreases Total(g.msgs) - Acked(g)
  {
    hide ExplainsCore, Completes, Step;
    AckedInRange(r, g);
    ops, g' := [], g;
    if Acked(g) < Total(g.msgs) {
      var first, g1 := QuietMoves(r, g, windowSize);
      AckedInRange(Run(r, first), g1);
      var rest, g2 := QuietDrains(Run(r, first), g1, windowSize);
      RunAppend(r, first, rest);
      ops, g' := first + rest, g2;
    }
  }

  /** Some run gives exactly these messages and has them all acknowledged. */
  lemma {:induction false} AllAcknowledged(ms: seq<Msg>, writeSize: nat, windowSize: nat, checksum: bool)
    returns (ops: seq<TxOp>, g: TxGhost)
    requires NonEmpty(ms) && 0 < windowSize < 0x10000
    ensures Quiet(Run(Begin(writeSize, windowSize, checksum), ops), g, windowSize)
    ensures g.msgs == ms && g.base <= |g.hist| && Acked(g) == Total(ms)
    decreases |ms|
  {
    hide Explains, Step, Run, Begin;
    var begin := Begin(writeSize, windowSize, checksum);
    if ms == [] {
      QuietBegin(writeSize, windowSize, checksum);
      RunNothing(begin);
      ops, g := [], TxGhost([], 0, [], 0, 0);
    } else {
      var n := |ms| - 1;
      var before, g1 := AllAcknowledged(ms[..n], writeSize, windowSize, checksum);
      var r1 := Run(begin, before);
      QuietAdds(r1, g1, windowSize, ms[n]);
      assert ms[..n] + [ms[n]] == ms;
      var rest, g4 := QuietDrains(Run(r1, [Add(ms[n])]), g1.(msgs := ms), windowSize);
      RunAppend(begin, before, [Add(ms[n])]);
      RunAppend(begin, before + [Add(ms[n])], rest);
      ops, g := before + [Add(ms[n])] + rest, g4;
    }
  }

  lemma RunNothing(r: TxRun)
    ensures Run(r, []) == r
  {
  }

  /** Adding messages changes neither what was cut nor what was reported. */
  function Adds(ms: seq<Msg>): (ops: seq<TxOp>)
    ensures |ops| == |ms|
  {
    seq(|ms|, i requires 0 <= i < |ms| => Add(ms[i]))
  }

  lemma {:induction false} RunAdds(r: TxRun, ms: seq<Msg>)
    ensures var r' := Run(r, Adds(ms));
            r'.msgs == r.msgs + ms && r'.cut == r.cut && r'.removed == r.removed && r'.reported == r.reported
    decreases |ms|
  {
    if ms == [] {
      assert r.msgs + ms == r.msgs;
    } else {
      assert Adds(ms)[1..] == Adds(ms[1..]);
      RunAdds(Step(r, Add(ms[0])), ms[1..]);
      assert r.msgs + [ms[0]] + ms[1..] == r.msgs + ms;
    }
  }

  lemma {:induction false} AddedStay(r: TxRun, ops: seq<TxOp>)
    ensures |r.msgs| <= |Run(r, ops).msgs| && Run(r, ops).msgs[..|r.msgs|] == r.msgs
    ensures NonEmpty(Run(r, ops).msgs) ==> MessagesNonEmpty(ops)
    decreases |ops|
  {
    hide GetWriteData, HandleAck;
    if ops != [] {
      var r1 := Step(r, ops[0]);
      AddedStay(r1, ops[1..]);
      var all := Run(r, ops).msgs;
      assert all[..|r1.msgs|] == r1.msgs && r1.msgs[..|r.msgs|] == r.msgs;
      assert all[..|r.msgs|] == all[..|r1.msgs|][..|r.msgs|];
      if ops[0].Add? { assert all[|r.msgs|] == all[..|r1.msgs|][|r.msgs|] == ops[0].msg; }
      assert forall i :: 0 < i < |ops| ==> ops[i] == ops[1..][i - 1];
    }
  }

  lemma {:induction false} StartOfPrefix(ms: seq<Msg>, j: nat, k: nat)
    requires k <= j <= |ms|
    ensures Start(ms[..j], k) == Start(ms, k)
    decreases k
  {
    if k > 0 { StartOfPrefix(ms, j, k - 1); }
  }

  /** A run in which the first empty message is left unreported below the acknowledged position. */
  lemma EmptyFails(ms: seq<Msg>, j: nat, writeSize: nat, windowSize: nat, checksum: bool) returns (ops: seq<TxOp>)
    requires j < |ms| && ms[j] == [] && NonEmpty(ms[..j]) && 0 < windowSize < 0x10000
    ensures var r := Run(Begin(writeSize, windowSize, checksum), ops); r.msgs == ms && !SeenCompletion(r)
  {
    hide Run, Explains, Begin;
    var begin := Begin(writeSize, windowSize, checksum);
    var first, g := AllAcknowledged(ms[..j], writeSize, windowSize, checksum);
    var r1 := Run(begin, first);
    QuietSeen(r1, g);
    ops := first + Adds(ms[j..]);
    RunAppend(begin, first, Adds(ms[j..]));
    RunAdds(r1, ms[j..]);
    var r := Run(begin, ops);
    assert r.msgs == ms[..j] + ms[j..] == ms;
    StartOfPrefix(ms, j, j);
    assert Start(r.msgs, j) + |r.msgs[j]| <= |Payload(r.cut, r.removed)|;
  }

  /** With everything acknowledged, everything is reported. */
  lemma QuietSeen(r: TxRun, g: TxGhost)
    requires Explains(r, g) && g.base <= |g.hist| && Acked(g) == Total(g.msgs)
    ensures r.removed <= |r.cut| && r.msgs == g.msgs
    ensures r.reported == |g.msgs| && |Payload(r.cut, r.removed)| == Total(g.msgs)
  {
    TilingSeen(r, g);
    AllReported(g.msgs, g.done);
  }

  lemma {:induction false} FirstEmpty(ms: seq<Msg>) returns (j: nat)
    requires !NonEmpty(ms)
    ensures j < |ms| && ms[j] == [] && NonEmpty(ms[..j])
    decreases |ms|
  {
    var n := |ms| - 1;
    if NonEmpty(ms[..n]) {
      assert forall k :: 0 <= k < n ==> ms[k] == ms[..n][k];
      j := n;
    } else {
      j := FirstEmpty(ms[..n]);
      assert ms[..n][..j] == ms[..j];
    }
  }

  /**
   * The exact condition: send completion is exact in all runs that give these
   * messages if and only if none of them is empty.
   */
  lemma CompletionExactIff(ms: seq<Msg>, writeSize: nat, windowSize: nat, checksum: bool)
    requires 0 < windowSize < 0x10000
    ensures NonEmpty(ms) <==>
            forall ops: seq<TxOp> {:trigger Run(Begin(writeSize, windowSize, checksum), ops)} ::
              Run(Begin(writeSize, windowSize, checksum), ops).msgs == ms ==>
                SeenCompletion(Run(Begin(writeSize, windowSize, checksum), ops))
  {
    hide Run, SeenCompletion;
    var begin := Begin(writeSize, windowSize, checksum);
    if NonEmpty(ms) {
      forall ops: seq<TxOp> {:trigger Run(begin, ops)} | Run(begin, ops).msgs == ms
        ensures SeenCompletion(Run(begin, ops))
      {
        AddedStay(begin, ops);
        SenderRun(writeSize, windowSize, checksum, ops);
      }
    } else {
      var j := FirstEmpty(ms);
      var ops := EmptyFails(ms, j, writeSize, windowSize, checksum);
    }
  }
}
