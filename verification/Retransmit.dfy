/**
 * Retransmission (server/wtp/wtp/transmission.py): what a fired timer leads
 * to, which fragments a write sends again, and what becomes of each flag.
 */
module Retransmit {
  import opened Base
  import opened Cyclic
  import opened Stream
  import opened TxSpec
  import opened TxProof
  import opened SendPlan
  import TxRuns
  import AccessLoop
  import Downlink
  import RxProof

  /** How many fragments in front of this one are due. */
  ghost function Rank(fs: seq<TxFrag>, i: nat): nat
    requires i <= |fs|
  {
    |Due(fs[..i])|
  }

  lemma {:induction false} DueAppend(a: seq<TxFrag>, b: seq<TxFrag>)
    ensures Due(a + b) == Due(a) + Due(b)
    decreases |a|
  {
    if a == [] {
      assert a + b == b;
    } else {
      var first := if a[0].needSend then [a[0]] else [];
      assert (a + b)[1..] == a[1..] + b;
      DueAppend(a[1..], b);
      assert first + (Due(a[1..]) + Due(b)) == (first + Due(a[1..])) + Due(b);
    }
  }

  lemma DueOne(f: TxFrag)
    requires f.needSend
    ensures Due([f]) == [f]
  {
    assert [f][1..] == [];
  }

  /** A due fragment stands among the due ones at its rank. */
  lemma {:induction false} DueAtRank(fs: seq<TxFrag>, i: nat)
    requires i < |fs| && fs[i].needSend
    ensures Rank(fs, i) < |Due(fs)| && Due(fs)[Rank(fs, i)] == fs[i]
    ensures Due(fs)[..Rank(fs, i)] == Due(fs[..i])
  {
    hide Due;
    assert fs == (fs[..i] + [fs[i]]) + fs[i + 1..];
    DueAppend(fs[..i] + [fs[i]], fs[i + 1..]);
    DueAppend(fs[..i], [fs[i]]);
    DueOne(fs[i]);
  }

  /** The first due one selected and sent, the others move up by one. */
  lemma RankAfter(fs: seq<TxFrag>, k: nat, f: TxFrag, i: nat)
    requires k == FirstNeedSend(fs, 0) < |fs| && !f.needSend && i <= |fs|
    ensures i <= k ==> Rank(fs, i) == 0
    ensures i > k ==> Rank(fs, i) == 1 + Rank(fs[k := f], i)
  {
    hide FirstNeedSend;
    if i <= k {
      WaitingIff(fs[..i]);
    } else {
      var front := fs[..i];
      assert front[k] == fs[k] && forall j :: 0 <= j < k ==> front[j] == fs[j];
      assert FirstNeedSend(front, 0) == k;
      DueAfter(front, k, f);
      assert front[k := f] == fs[k := f][..i];
    }
  }

  // -------------------------------------------------------------- the data part

  /**
   * What became of the flags when k due fragments were sent: those are clear,
   * the next one's is clear too although it was not sent, and those behind it
   * are still set; else the fragments outstanding before are as they were.
   */
  ghost predicate Cleared(fs: seq<TxFrag>, fs': seq<TxFrag>, k: nat) {
    && |fs| <= |fs'|
    && forall i :: 0 <= i < |fs| ==>
         fs'[i] == fs[i].(needSend := fs[i].needSend && Rank(fs, i) > k, armed := fs'[i].armed)
  }

  /** The fragments written: the first k due ones in order, then those newly cut, in order. */
  ghost predicate SentAs(fs: seq<TxFrag>, fs': seq<TxFrag>, out: seq<TxFrag>, k: nat)
    requires |fs| <= |fs'| && k <= |Due(fs)|
  {
    && |out| == k + |fs'| - |fs|
    && (k < |Due(fs)| ==> |fs'| == |fs|)
    && (forall j :: 0 <= j < k ==> out[j] == Due(fs)[j].(needSend := false))
    && (forall j :: |fs| <= j < |fs'| ==> !fs'[j].needSend && out[k + j - |fs|] == fs'[j].(armed := false))
  }

  ghost predicate Outcome(st: TxState, room: nat, r: Sent) {
    var k := FittingData(Due(st.fragments), room);
    Cleared(st.fragments, r.st.fragments, k) && SentAs(st.fragments, r.st.fragments, r.out, k)
  }

  /** With nothing due only new fragments go out, and the others stay as they are. */
  ghost predicate OnlyNew(fs: seq<TxFrag>, fs': seq<TxFrag>, out: seq<TxFrag>) {
    && |fs| <= |fs'| && fs'[..|fs|] == fs && |out| == |fs'| - |fs|
    && forall j :: |fs| <= j < |fs'| ==> !fs'[j].needSend && out[j - |fs|] == fs'[j].(armed := false)
  }

  lemma NewPushed(fs: seq<TxFrag>, f: TxFrag, fs': seq<TxFrag>, out: seq<TxFrag>)
    requires !f.needSend && !f.armed && OnlyNew(fs + [f.(armed := true)], fs', out)
    ensures OnlyNew(fs, fs', [f] + out)
  {
    var n := |fs|;
    assert fs'[..n + 1][..n] == fs'[..n];
    assert fs'[n] == fs'[..n + 1][n] == f.(armed := true);
    forall j | n <= j < |fs'| ensures !fs'[j].needSend && ([f] + out)[j - n] == fs'[j].(armed := false) {
      if j > n { assert ([f] + out)[j - n] == out[j - (n + 1)]; }
    }
  }

  lemma NewMade(st: TxState, avail: int)
    ensures MakeFragment(st, avail).fragment.Some? ==> !MakeFragment(st, avail).fragment.value.armed
  {
  }

  lemma {:induction false} NothingDueSent(st: TxState, estimate: nat)
    requires estimate <= st.writeSize && NoneWaiting(st.fragments)
    ensures var r := SendLoop(st, estimate); OnlyNew(st.fragments, r.st.fragments, r.out)
    decreases st.writeSize - estimate
  {
    hide MakeFragment, SendLoop, NoneWaiting, OnlyNew;
    CutTurn(st, estimate);
    var avail := st.writeSize - estimate;
    var made := MakeFragment(st, avail);
    if made.fragment.Some? {
      var f := made.fragment.value;
      MadeFits(st, avail);
      NewMade(st, avail);
      NothingDueSent(Added(made.st, f), estimate + 4 + |f.data|);
      var r := SendLoop(Added(made.st, f), estimate + 4 + |f.data|);
      NewPushed(st.fragments, f, r.st.fragments, r.out);
    } else {
      NoneNew(st.fragments);
    }
  }

  lemma NoneNew(fs: seq<TxFrag>)
    ensures OnlyNew(fs, fs, [])
  {
  }

  lemma NoneDueOutcome(st: TxState, room: nat, r: Sent)
    requires NoneWaiting(st.fragments) && OnlyNew(st.fragments, r.st.fragments, r.out)
    ensures Outcome(st, room, r)
  {
    hide Due;
    var fs, fs' := st.fragments, r.st.fragments;
    WaitingIff(fs);
    assert FittingData(Due(fs), room) == 0;
    forall i | 0 <= i < |fs|
      ensures fs'[i] == fs[i].(needSend := fs[i].needSend && Rank(fs, i) > 0, armed := fs'[i].armed)
    {
      assert fs'[i] == fs'[..|fs|][i];
    }
  }

  /** The due fragment that does not fit: its flag is cleared, and nothing is sent. */
  lemma TooLongOutcome(st: TxState, estimate: nat)
    requires estimate <= st.writeSize && FirstNeedSend(st.fragments, 0) < |st.fragments|
    requires estimate + 4 + |st.fragments[FirstNeedSend(st.fragments, 0)].data| > st.writeSize
    ensures Outcome(st, st.writeSize - estimate, SendLoop(st, estimate))
  {
    hide FirstNeedSend, Due;
    var fs, k := st.fragments, FirstNeedSend(st.fragments, 0);
    var t := fs[k := fs[k].(needSend := false)];
    assert SendLoop(st, estimate) == Sent(st.(fragments := t), [], false);
    DueAfter(fs, k, fs[k].(needSend := false));
    assert FittingData(Due(fs), st.writeSize - estimate) == 0;
    forall i | 0 <= i < |fs|
      ensures t[i] == fs[i].(needSend := fs[i].needSend && Rank(fs, i) > 0, armed := t[i].armed)
    {
      RankAfter(fs, k, fs[k].(needSend := false), i);
    }
  }

  /** The first due fragment sent, and the outcome of the rest. */
  lemma DuePushed(st: TxState, k: nat, room: nat, r: Sent)
    requires k == FirstNeedSend(st.fragments, 0) < |st.fragments| && 4 + |st.fragments[k].data| <= room
    requires Outcome(FirstSent(st, k), room - 4 - |st.fragments[k].data|, r)
    ensures Outcome(st, room, Push(st.fragments[k].(needSend := false), r))
  {
    hide FirstNeedSend, Due, Rank;
    var fs, t := st.fragments, FirstSent(st, k).fragments;
    DueAfter(fs, k, t[k]);
    assert Due(fs)[1..] == Due(t);
    var n := FittingData(Due(t), room - 4 - |fs[k].data|);
    assert FittingData(Due(fs), room) == 1 + n;
    ClearedOneMore(fs, k, t[k], r.st.fragments, n);
    SentOneMore(fs, k, t[k], r.st.fragments, r.out, n);
  }

  lemma ClearedOneMore(fs: seq<TxFrag>, k: nat, f: TxFrag, fs': seq<TxFrag>, n: nat)
    requires k == FirstNeedSend(fs, 0) < |fs| && f == fs[k].(needSend := false, armed := true)
    requires Cleared(fs[k := f], fs', n)
    ensures Cleared(fs, fs', 1 + n)
  {
    hide FirstNeedSend, Due, Rank;
    var t := fs[k := f];
    forall i | 0 <= i < |fs|
      ensures fs'[i] == fs[i].(needSend := fs[i].needSend && Rank(fs, i) > 1 + n, armed := fs'[i].armed)
    {
      RankAfter(fs, k, f, i);
      assert fs'[i] == t[i].(needSend := t[i].needSend && Rank(t, i) > n, armed := fs'[i].armed);
    }
  }

  lemma SentOneMore(fs: seq<TxFrag>, k: nat, f: TxFrag, fs': seq<TxFrag>, out: seq<TxFrag>, n: nat)
    requires k == FirstNeedSend(fs, 0) < |fs| && f == fs[k].(needSend := false, armed := true)
    requires |fs| <= |fs'| && n <= |Due(fs[k := f])| && SentAs(fs[k := f], fs', out, n)
    requires Due(fs) == [fs[k]] + Due(fs[k := f])
    ensures SentAs(fs, fs', [fs[k].(needSend := false)] + out, 1 + n)
  {
    hide FirstNeedSend, Due;
    var more := [fs[k].(needSend := false)] + out;
    forall j | |fs| <= j < |fs'| ensures !fs'[j].needSend && more[1 + n + j - |fs|] == fs'[j].(armed := false) {
      assert more[1 + n + j - |fs|] == out[n + j - |fs|];
    }
  }

  lemma {:induction false} DataOutcome(st: TxState, estimate: nat)
    requires estimate <= st.writeSize
    ensures Outcome(st, st.writeSize - estimate, SendLoop(st, estimate))
    decreases st.writeSize - estimate
  {
    hide Due, FirstNeedSend, SendLoop, Outcome, OnlyNew;
    var fs := st.fragments;
    WaitingIff(fs);
    if NoneWaiting(fs) {
      NothingDueSent(st, estimate);
      NoneDueOutcome(st, st.writeSize - estimate, SendLoop(st, estimate));
    } else {
      var k := FirstNeedSend(fs, 0);
      var estimate' := estimate + 4 + |fs[k].data|;
      if estimate' <= st.writeSize {
        DueTurn(st, estimate);
        DataOutcome(FirstSent(st, k), estimate');
        DuePushed(st, k, st.writeSize - estimate, SendLoop(FirstSent(st, k), estimate'));
      } else {
        TooLongOutcome(st, estimate);
      }
    }
  }

  // ---------------------------------------------------------------- the whole call

  lemma {:induction false} FitsIff(fs: seq<TxFrag>, room: nat, r: nat)
    requires r <= |fs|
    ensures FittingData(fs, room) >= r <==> Estimate(fs[..r]) <= room
    decreases r
  {
    if r == 0 {
      assert fs[..0] == [];
    } else {
      assert fs[..r][1..] == fs[1..][..r - 1];
      if 4 + |fs[0].data| <= room { FitsIff(fs[1..], room - 4 - |fs[0].data|, r - 1); }
    }
  }

  lemma {:induction false} AllFitIff(packets: seq<seq<byte>>, room: nat)
    ensures Fitting(packets, room) == |packets| <==> Lengths(packets) <= room
    decreases |packets|
  {
    if packets != [] && |packets[0]| <= room { AllFitIff(packets[1..], room - |packets[0]|); }
  }

  /**
   * The whole call: with control packets longer than the limit the fragments
   * stay as they are; otherwise the outcome of the data part in the room they
   * leave.
   */
  lemma CallOutcome(st: TxState)
    ensures var w := GetWriteData(st);
            if Lengths(st.packets) > st.writeSize then
              w.data == [] && w.st.fragments == st.fragments && !w.raised
            else Outcome(st, st.writeSize - Lengths(st.packets), Sent(w.st, w.data, w.raised))
  {
    hide SendLoop, ControlLoop, Lengths, Due, FittingData, Fitting, Rank;
    var c := ControlLoop(st.packets, 0, st.writeSize);
    ControlFitting(st.packets, 0, st.writeSize);
    AllFitIff(st.packets, st.writeSize);
    if !c.tooLong { DataOutcome(st.(packets := c.rest), c.estimate); }
  }

  /** What the estimate counts in front of a due fragment: the control packets and the due fragments before it. */
  ghost function Ahead(st: TxState, i: nat): nat
    requires i <= |st.fragments|
  {
    Lengths(st.packets) + Estimate(Due(st.fragments[..i]))
  }

  /**
   * The fate of a due fragment, on the state before the call: written as it
   * was cut, at its place behind the due ones in front of it, if and only if
   * all of that fits the limit together; its flag cleared without its being
   * written, and the write ended there, if only what is ahead of it fits;
   * still due if not even that does.
   */
  ghost predicate Fate(st: TxState, i: nat, w: Written)
    requires i < |st.fragments|
  {
    var f, r, ahead := st.fragments[i], Rank(st.fragments, i), Ahead(st, i);
    && i < |w.st.fragments|
    && w.st.fragments[i] == f.(needSend := ahead > st.writeSize, armed := w.st.fragments[i].armed)
    && (|w.data| > r <==> ahead + 4 + |f.data| <= st.writeSize)
    && (|w.data| > r ==> w.data[r] == f.(needSend := false))
    && (ahead <= st.writeSize < ahead + 4 + |f.data| ==> |w.data| == r && |w.st.fragments| == |st.fragments|)
  }

  lemma DueFate(st: TxState, i: nat)
    requires i < |st.fragments| && st.fragments[i].needSend
    ensures Fate(st, i, GetWriteData(st))
  {
    hide GetWriteData, Lengths, Estimate, Due, FittingData;
    CallOutcome(st);
    DueAtRank(st.fragments, i);
    var fs, r := st.fragments, Rank(st.fragments, i);
    EstimateAtRank(fs, i);
    if Lengths(st.packets) <= st.writeSize {
      var room := st.writeSize - Lengths(st.packets);
      FitsIff(Due(fs), room, r);
      FitsIff(Due(fs), room, r + 1);
    }
  }

  lemma EstimateAtRank(fs: seq<TxFrag>, i: nat)
    requires i < |fs| && fs[i].needSend
    ensures Rank(fs, i) < |Due(fs)| && Due(fs)[..Rank(fs, i)] == Due(fs[..i])
    ensures Estimate(Due(fs)[..Rank(fs, i) + 1]) == Estimate(Due(fs[..i])) + 4 + |fs[i].data|
  {
    hide Estimate;
    DueAtRank(fs, i);
    var due, r := Due(fs), Rank(fs, i);
    assert due[..r + 1] == due[..r] + [due[r]];
    EstimateNext(due[..r], due[r]);
  }

  lemma {:induction false} EstimateNext(fs: seq<TxFrag>, f: TxFrag)
    ensures Estimate(fs + [f]) == Estimate(fs) + 4 + |f.data|
  {
    if fs != [] {
      assert (fs + [f])[1..] == fs[1..] + [f];
      EstimateNext(fs[1..], f);
    } else {
      assert [] + [f] == [f] && [f][1..] == [];
    }
  }

  // ------------------------------------------------------------------------ runs

  /** A fired timer makes its fragment due and changes nothing else; the next write decides its fate. */
  lemma TimerFires(st: TxState, i: nat)
    requires i < |st.fragments|
    ensures var t := Timeout(st, i);
            && t == st.(fragments := t.fragments) && |t.fragments| == |st.fragments|
            && t.fragments[i].needSend && Fate(t, i, GetWriteData(t))
            && forall j :: 0 <= j < |st.fragments| ==>
                 t.fragments[j] == st.fragments[j].(needSend := st.fragments[j].needSend || j == i)
  {
    hide GetWriteData, Fate;
    DueFate(Timeout(st, i), i);
  }

  /**
   * Over every run of the transmit control, empty messages and wraps
   * included: an outstanding fragment whose timer fires is due, with the
   * number, size field and bytes it was first cut with, and the next write
   * decides its fate.
   */
  lemma ExpiredIsDue(writeSize: nat, windowSize: nat, checksum: bool, ops: seq<TxRuns.TxOp>, i: nat)
    requires windowSize < 0x10000
    requires i < |TxRuns.Run(TxRuns.Begin(writeSize, windowSize, checksum), ops).st.fragments|
    ensures var r := TxRuns.Run(TxRuns.Begin(writeSize, windowSize, checksum), ops);
            var t := TxRuns.Step(r, TxRuns.Expire(i)).st;
            && r.removed + i < |r.cut| && i < |t.fragments|
            && TxRuns.SameFragment(t.fragments[i], r.cut[r.removed + i])
            && t.fragments[i].needSend && Fate(t, i, GetWriteData(t))
  {
    hide TxRuns.Run, GetWriteData, Fate, TxRuns.SeenTiling, TxRuns.SeenCompletion, Timeout;
    TxRuns.SenderRun(writeSize, windowSize, checksum, ops);
    var r := TxRuns.Run(TxRuns.Begin(writeSize, windowSize, checksum), ops);
    AsFirstCut(r, i);
    TimerFires(r.st, i);
  }

  lemma AsFirstCut(r: TxRuns.TxRun, i: nat)
    requires TxRuns.SeenTiling(r) && i < |r.st.fragments|
    ensures r.removed + i < |r.cut| && TxRuns.SameFragment(r.st.fragments[i], r.cut[r.removed + i])
  {
  }

  /** What is due stays due through everything but a write that comes to it or an ack that covers it. */
  lemma DueUntilReached(r: TxRuns.TxRun, op: TxRuns.TxOp, i: nat)
    requires i < |r.st.fragments| && r.st.fragments[i].needSend
    ensures var t := TxRuns.Step(r, op).st;
            match op
            case Write => Fate(r.st, i, GetWriteData(r.st)) && t == GetWriteData(r.st).st
            case Ack(_) =>
              var n := |r.st.fragments| - |t.fragments|;
              0 <= n && (n <= i ==> t.fragments[i - n] == r.st.fragments[i])
            case _ => i < |t.fragments| && t.fragments[i] == r.st.fragments[i]
  {
    hide GetWriteData, Fate, AckCount, PopEnds;
    DueFate(r.st, i);
  }

  /** The end to end view: in every legal run of the downlink it goes on the air again if the write comes to it. */
  lemma ResentOnAir(writeSize: nat, windowSize: nat, checksum: bool, slots: nat, capacity: nat,
                    acts: seq<Downlink.Action>, i: nat)
    requires 0 < windowSize < 0x10000
    requires Downlink.Legal(Downlink.Begin(writeSize, windowSize, checksum, slots, capacity), acts)
    requires i < |Downlink.Run(Downlink.Begin(writeSize, windowSize, checksum, slots, capacity), acts).tx.fragments|
    ensures var s := Downlink.Run(Downlink.Begin(writeSize, windowSize, checksum, slots, capacity), acts);
            var f, t := s.tx.fragments[i], Downlink.Step(s, Downlink.Expire(i));
            && i < |t.tx.fragments| && Downlink.PacketOf(t.tx.fragments[i]) == Downlink.PacketOf(f)
            && 0 <= f.seqNum && f.seqNum + |f.data| <= Total(s.given)
            && f.data == Bytes(s.given)[f.seqNum..f.seqNum + |f.data|]
            && (Ahead(t.tx, i) + 4 + |f.data| <= t.tx.writeSize && !GetWriteData(t.tx).raised ==>
                  var t' := Downlink.Step(t, Downlink.Send);
                  && Downlink.PacketOf(f) in t'.air
                  && i < |t'.tx.fragments| && !t'.tx.fragments[i].needSend)
  {
    hide Downlink.SysInv, Downlink.Run, GetWriteData, Ahead, Rank, Total;
    var s0 := Downlink.Begin(writeSize, windowSize, checksum, slots, capacity);
    Downlink.BeginInv(writeSize, windowSize, checksum, slots, capacity);
    var tg, rg := Downlink.RunInv(s0, TxGhost([], 0, [], 0, 0), RxProof.RxGhost(0, 0, [], []), acts);
    var s := Downlink.Run(s0, acts);
    OutstandingBytes(s, tg, rg, i);
    TimerFires(s.tx, i);
    var t := Downlink.Step(s, Downlink.Expire(i));
    var w, r := GetWriteData(t.tx), Rank(t.tx.fragments, i);
    if Ahead(t.tx, i) + 4 + |s.tx.fragments[i].data| <= t.tx.writeSize && !w.raised {
      assert w.data[r] in w.data;
      assert Downlink.PacketOf(w.data[r]) in Downlink.PacketsOf(w.data);
    }
  }

  /** An outstanding fragment carries the bytes of the stream at its number. */
  lemma OutstandingBytes(s: Downlink.Sys, tg: TxGhost, rg: RxProof.RxGhost, i: nat)
    requires Downlink.SysInv(s, tg, rg) && i < |s.tx.fragments|
    ensures var f := s.tx.fragments[i];
            && 0 <= f.seqNum && f.seqNum + |f.data| <= Total(s.given)
            && f.data == Bytes(s.given)[f.seqNum..f.seqNum + |f.data|]
  {
    hide RxProof.RxInv, Downlink.AirOk, Downlink.AcksOk;
    Downlink.StreamFits(s, tg, rg);
    var h := tg.hist[tg.base + i];
    assert Image(tg.msgs, h, s.tx.fragments[i]);
    assert Fits(tg.msgs, h);
    FragInStream(tg.msgs, h);
  }

  /**
   * The connection's view: a timer that fires while an AccessSpec is under
   * way only makes its fragment due; with none under way and no Read pending,
   * the reader is asked for a Write that holds the fragment, if it fits
   * behind what is ahead of it and nothing raises.
   */
  lemma TimerAsks(l: AccessLoop.Link, i: nat)
    requires i < |l.st.fragments|
    ensures var t := Timeout(l.st, i);
            var w, l' := GetWriteData(t), AccessLoop.Step(l, AccessLoop.Expire(i)).link;
            && t.fragments[i].needSend
            && (l.ongoing ==> l' == l.(st := t))
            && (!l.ongoing && l.readSizes == [] && !w.raised
                && Ahead(t, i) + 4 + |l.st.fragments[i].data| <= t.writeSize ==>
                  && l'.asked == l.asked + [AccessLoop.Write(w)] && l'.flying
                  && |w.data| > Rank(t.fragments, i) && i < |l'.st.fragments| && !l'.st.fragments[i].needSend
                  && w.data[Rank(t.fragments, i)] == l.st.fragments[i].(needSend := false))
  {
    hide GetWriteData, Ahead, Rank;
    TimerFires(l.st, i);
  }

  // ------------------------------------------------------- without a timer

  /** Every fragment put on a stream by these writes. */
  function WrittenBy(r: TxRuns.TxRun, ops: seq<TxRuns.TxOp>): seq<TxFrag>
    decreases |ops|
  {
    if ops == [] then [] else
    (if ops[0].Write? then GetWriteData(r.st).data else []) + WrittenBy(TxRuns.Step(r, ops[0]), ops[1..])
  }

  predicate NoTimer(ops: seq<TxRuns.TxOp>) { forall i :: 0 <= i < |ops| ==> !ops[i].Expire? }

  predicate SameFragments(a: seq<TxFrag>, b: seq<TxFrag>) {
    |a| == |b| && forall i :: 0 <= i < |a| ==> TxRuns.SameFragment(a[i], b[i])
  }

  lemma QuietStep(r: TxRuns.TxRun, op: TxRuns.TxOp)
    requires NoneWaiting(r.st.fragments) && !op.Expire?
    ensures var r' := TxRuns.Step(r, op);
            && NoneWaiting(r'.st.fragments) && |r.cut| <= |r'.cut| && r'.cut[..|r.cut|] == r.cut
            && SameFragments(if op.Write? then GetWriteData(r.st).data else [], r'.cut[|r.cut|..])
  {
    hide GetWriteData, AckCount, PopEnds;
    if op.Write? { QuietWrite(r); }
  }

  lemma QuietWrite(r: TxRuns.TxRun)
    requires NoneWaiting(r.st.fragments)
    ensures var w, r' := GetWriteData(r.st), TxRuns.Step(r, TxRuns.Write);
            && NoneWaiting(r'.st.fragments) && |r.cut| <= |r'.cut| && r'.cut[..|r.cut|] == r.cut
            && SameFragments(w.data, r'.cut[|r.cut|..])
  {
    hide GetWriteData, Due, FittingData, Lengths, Rank;
    CallOutcome(r.st);
    WaitingIff(r.st.fragments);
    var fs, w := r.st.fragments, GetWriteData(r.st);
    var fs' := w.st.fragments;
    assert FittingData([], 0) == 0;
    var r' := TxRuns.Step(r, TxRuns.Write);
    assert r'.cut == r.cut + fs'[|fs|..];
    assert r'.cut[|r.cut|..] == fs'[|fs|..];
    if Lengths(r.st.packets) <= r.st.writeSize {
      forall j | 0 <= j < |w.data| ensures TxRuns.SameFragment(w.data[j], fs'[|fs|..][j]) {
        assert w.data[0 + (|fs| + j) - |fs|] == fs'[|fs| + j].(armed := false);
      }
      forall j | 0 <= j < |fs'| ensures !fs'[j].needSend { if j < |fs| { assert !fs[j].needSend; } }
    }
  }

  /** Without a fired timer, whatever is written is written once, in the order it is cut. */
  lemma {:induction false} WrittenOnce(r: TxRuns.TxRun, ops: seq<TxRuns.TxOp>)
    requires NoneWaiting(r.st.fragments) && NoTimer(ops)
    ensures var r' := TxRuns.Run(r, ops);
            && NoneWaiting(r'.st.fragments) && |r.cut| <= |r'.cut| && r'.cut[..|r.cut|] == r.cut
            && SameFragments(WrittenBy(r, ops), r'.cut[|r.cut|..])
    decreases |ops|
  {
    hide GetWriteData, TxRuns.Step, NoneWaiting, SameFragments;
    if ops != [] {
      var t := TxRuns.Step(r, ops[0]);
      QuietStep(r, ops[0]);
      WrittenOnce(t, ops[1..]);
      var r' := TxRuns.Run(t, ops[1..]);
      Joins(r.cut, t.cut, r'.cut);
      SameJoined(if ops[0].Write? then GetWriteData(r.st).data else [], t.cut[|r.cut|..],
                 WrittenBy(t, ops[1..]), r'.cut[|t.cut|..]);
    } else {
      assert r.cut[|r.cut|..] == [] && SameFragments([], []) by { SameNothing(); }
    }
  }

  lemma SameNothing()
    ensures SameFragments([], [])
  {
  }

  lemma SameJoined(a: seq<TxFrag>, b: seq<TxFrag>, c: seq<TxFrag>, d: seq<TxFrag>)
    requires SameFragments(a, b) && SameFragments(c, d)
    ensures SameFragments(a + c, b + d)
  {
  }

  lemma Joins(a: seq<TxFrag>, b: seq<TxFrag>, c: seq<TxFrag>)
    requires |a| <= |b| <= |c| && b[..|a|] == a && c[..|b|] == b
    ensures c[..|a|] == a && c[|a|..] == b[|a|..] + c[|b|..]
  {
    assert c[..|b|][..|a|] == c[..|a|];
  }

  lemma FirstMade(m: Msg)
    requires 0 < |m| <= 17
    ensures var st := AddMsg(TxSpec.Init(24, 64, true), m);
            var f := TxFrag(0, |m|, m, false, false);
            && MakeFragment(st, 24) == Made(st.(msgFragmented := |m|), Some(f), false)
            && var t := Added(st.(msgFragmented := |m|), f);
               && MakeFragment(t, 20 - |m|).fragment.None? && !MakeFragment(t, 20 - |m|).raised
               && t.fragments == [f.(armed := true)]
  {
    assert [] + [m] == [m] && m[0..|m|] == m;
  }

  lemma FirstWhole(m: Msg)
    requires 0 < |m| <= 17
    ensures var w := GetWriteData(AddMsg(TxSpec.Init(24, 64, true), m));
            && w.st.fragments == [TxFrag(0, |m|, m, false, true)] && w.st.packets == [] && w.st.writeSize == 24
  {
    hide MakeFragment, SendLoop;
    var st := AddMsg(TxSpec.Init(24, 64, true), m);
    FirstMade(m);
    CutTurn(st, 0);
    CutTurn(Added(st.(msgFragmented := |m|), TxFrag(0, |m|, m, false, false)), 4 + |m|);
    assert st.(packets := []) == st;
  }

  /**
   * The retransmission that is lost: a message of up to 17 bytes is written
   * whole, its timer fires, and the next write comes with a size limit below
   * what the estimate counts for it.  That write is empty and clears the
   * flag; after that the message is never written again, in any run in which
   * no timer fires, although no write has set a new one.
   */
  lemma RetransmissionLost(m: Msg, size: nat, more: seq<TxRuns.TxOp>)
    requires 0 < |m| <= 17 && size < 4 + |m| && NoTimer(more)
    ensures var f := TxFrag(0, |m|, m, false, true);
            var r1 := TxRuns.Step(TxRuns.Step(TxRuns.Begin(24, 64, true), TxRuns.Add(m)), TxRuns.Write);
            var r2 := TxRuns.Step(TxRuns.Step(r1, TxRuns.Expire(0)), TxRuns.Resize(size));
            var r3 := TxRuns.Step(r2, TxRuns.Write);
            && r1.cut == [f] && r2.st.fragments == [f.(needSend := true)]
            && GetWriteData(r2.st).data == [] && r3.cut == r3.st.fragments == [f]
            && |TxRuns.Run(r3, more).cut| >= 1
            && SameFragments(WrittenBy(r3, more), TxRuns.Run(r3, more).cut[1..])
  {
    hide GetWriteData, TxRuns.Run, WrittenBy, SameFragments;
    var f := TxFrag(0, |m|, m, false, true);
    FirstWhole(m);
    var a := TxRuns.Step(TxRuns.Begin(24, 64, true), TxRuns.Add(m));
    var r1 := TxRuns.Step(a, TxRuns.Write);
    assert r1.st.fragments[0..] == [f] && r1.cut == [] + [f] == [f];
    var r2 := TxRuns.Step(TxRuns.Step(r1, TxRuns.Expire(0)), TxRuns.Resize(size));
    assert r2.st.fragments == [f.(needSend := true)];
    OnlyOneTooLong(r2.st, f);
    var r3 := TxRuns.Step(r2, TxRuns.Write);
    assert r3.st.fragments == [f] && r3.cut == [f] + [] == [f];
    WrittenOnce(r3, more);
  }

  lemma OnlyOneTooLong(st: TxState, f: TxFrag)
    requires st.packets == [] && st.fragments == [f.(needSend := true)] && st.writeSize < 4 + |f.data|
    requires !f.needSend
    ensures var w := GetWriteData(st); w.data == [] && w.st.fragments == [f]
  {
    hide MakeFragment;
    DueTurn(st, 0);
    assert st.(packets := []) == st;
    assert Select(st, st.writeSize) == Picked(st.(fragments := [f]), 0);
  }
}
