/**
 * Whether everything given can still be delivered, from any moment of any
 * run of the downlink.
 */
module Progress {
  import opened Base
  import opened Stream
  import opened Downlink
  import opened RxProof
  import TxSpec
  import TxProof
  import SendPlan
  import Retransmit
  import ControlQueue
  import AccessLoop
  import RxSlots

  // ------------------------------------------------------------ runs put together

  lemma {:induction false} RunsJoin(s: Sys, a: seq<Action>, b: seq<Action>)
    requires Legal(s, a) && Legal(Run(s, a), b)
    ensures Legal(s, a + b) && Run(s, a + b) == Run(Run(s, a), b)
    decreases |a|
  {
    hide Step, Enabled;
    if a == [] {
      assert a + b == b;
    } else {
      assert (a + b)[1..] == a[1..] + b;
      RunsJoin(Step(s, a[0]), a[1..], b);
    }
  }

  lemma OneStep(s: Sys, a: Action)
    requires Enabled(s, a)
    ensures Legal(s, [a]) && Run(s, [a]) == Step(s, a)
  {
    hide Step, Enabled;
    assert [a][1..] == [] && Run(Step(s, a), []) == Step(s, a) && Legal(Step(s, a), []);
  }

  // ------------------------------------------------------------- writes without cuts

  lemma NoCuts(rests: seq<nat>, head: bool, space: int, room: int, checksum: nat)
    requires space <= 0
    ensures SendPlan.CutsFrom(rests, head, space, room, checksum) == SendPlan.Cuts(0, 0, 0, head, SendPlan.Stops)
  {
  }

  lemma NoCutsPlanned(st: TxSpec.TxState, space: int)
    requires SendPlan.Within(st) && !st.cyclicCut && space <= 0
    ensures var c := SendPlan.CutsOf(st, space); c.ending.Stops? && c.Counted() == 0
  {
    hide SendPlan.CutsFrom, SendPlan.Rests, SendPlan.Within;
    SendPlan.CurrentWithin(st);
    var s := SendPlan.Current(st);
    NoCuts(SendPlan.Rests(s), s.msgFragmented == 0, space, TxSpec.Room(s), TxSpec.ChecksumSize(s));
  }

  /** A write with a limit of at most what is pending and due neither cuts nor raises. */
  lemma QuietWrite(st: TxSpec.TxState)
    requires SendPlan.Within(st) && !st.cyclicCut
    requires st.writeSize <= SendPlan.Lengths(st.packets) + SendPlan.Estimate(SendPlan.Due(st.fragments))
    ensures var w := TxSpec.GetWriteData(st);
            && !w.raised && !w.st.cyclicCut && SendPlan.Within(w.st)
            && (SendPlan.Due(st.fragments) == [] && st.writeSize == SendPlan.Lengths(st.packets) ==>
                  w.data == [] && w.st.packets == [])
  {
    hide TxSpec.GetWriteData, SendPlan.Lengths, SendPlan.Estimate, SendPlan.Uncounted, SendPlan.Due, SendPlan.Within,
      SendPlan.CutsOf, SendPlan.FittingData, SendPlan.Fitting;
    SendPlan.CallPlanned(st);
    var n, due := SendPlan.Fitting(st.packets, st.writeSize), SendPlan.Due(st.fragments);
    Retransmit.AllFitIff(st.packets, st.writeSize);
    assert st.packets[..|st.packets|] == st.packets && due[..|due|] == due;
    if n == |st.packets| {
      var space := st.writeSize - SendPlan.Lengths(st.packets);
      if SendPlan.FittingData(due, space) == |due| { NoCutsPlanned(st, space - SendPlan.Estimate(due)); }
      if due == [] {
        SendPlan.NothingSent();
        assert SendPlan.FittingData(due, space) == 0;
        NothingCounted(st);
      }
    }
  }

  lemma NothingCounted(st: TxSpec.TxState)
    requires SendPlan.Within(st) && SendPlan.Due(st.fragments) == [] && st.writeSize == SendPlan.Lengths(st.packets)
    requires !st.cyclicCut
    ensures TxSpec.GetWriteData(st).data == [] && TxSpec.GetWriteData(st).st.packets == []
  {
    hide TxSpec.GetWriteData, SendPlan.Lengths, SendPlan.Estimate, SendPlan.Uncounted, SendPlan.Within, SendPlan.CutsOf,
      SendPlan.Fitting;
    SendPlan.CallPlanned(st);
    Retransmit.AllFitIff(st.packets, st.writeSize);
    assert st.packets[..|st.packets|] == st.packets;
    SendPlan.NothingSent();
    NoCutsPlanned(st, 0);
    var w := TxSpec.GetWriteData(st);
    AccessLoop.CountsNothing(w.data);
    ControlQueue.ControlTaken(st);
  }

  // ------------------------------------------------------------ the sender's side

  /** The sender has not made its cut position cyclic, and the tag's view is that of the stream. */
  ghost predicate Going(s: Sys, tg: TxProof.TxGhost, rg: RxGhost) { SysInv(s, tg, rg) && !s.tx.cyclicCut }

  lemma GoingWithin(s: Sys, tg: TxProof.TxGhost, rg: RxGhost)
    requires Going(s, tg, rg)
    ensures SendPlan.Within(s.tx)
  {
    hide RxInv, AirOk, AcksOk;
    assert s.tx.messages == tg.msgs[tg.cur..];
    assert tg.cur < |tg.msgs| ==> s.tx.messages[0] == tg.msgs[tg.cur];
  }

  /** What the sender did meanwhile does not concern the tag. */
  predicate TagAsWas(s: Sys, t: Sys) {
    t.rx == s.rx && t.given == s.given && t.delivered == s.delivered && t.acks == s.acks
  }

  /** The next packet is on the air. */
  predicate Offered(s: Sys, p: Packet) { p in s.air && p.seqNum == s.rx.seqNum }

  lemma NextOutstanding(s: Sys, tg: TxProof.TxGhost, rg: RxGhost)
    requires SysInv(s, tg, rg) && rg.c < |tg.hist|
    ensures tg.base <= rg.c && rg.c - tg.base < |s.tx.fragments|
    ensures PacketOf(s.tx.fragments[rg.c - tg.base]).seqNum == s.rx.seqNum
  {
    hide RxInv, AirOk, AcksOk;
    RxAtEdge(s.rx, s.given, tg.hist, rg);
    TxTiles(s, tg);
    assert TxProof.Image(tg.msgs, tg.hist[tg.base + (rg.c - tg.base)], s.tx.fragments[rg.c - tg.base]);
    assert Fits(s.given, tg.hist[rg.c]);
  }

  /** A fragment already cut is sent again by itself: its timer, a limit that just reaches it, a write. */
  lemma Resend(s: Sys, tg: TxProof.TxGhost, rg: RxGhost) returns (acts: seq<Action>, p: Packet, tg': TxProof.TxGhost)
    requires Going(s, tg, rg) && rg.c < |tg.hist|
    ensures Legal(s, acts) && Going(Run(s, acts), tg', rg) && TagAsWas(s, Run(s, acts)) && Offered(Run(s, acts), p)
  {
    hide SysInv, TxSpec.GetWriteData, Run, Legal, TxSpec.Timeout;
    NextOutstanding(s, tg, rg);
    var i := rg.c - tg.base;
    p := PacketOf(s.tx.fragments[i]);
    var t := Step(s, Expire(i));
    Retransmit.TimerFires(s.tx, i);
    var n := Retransmit.Ahead(t.tx, i) + 4 + |s.tx.fragments[i].data|;
    var u := Step(t, Resize(n));
    var v := Step(u, Send);
    acts := [Expire(i)] + [Resize(n)] + [Send];
    LocalStep(s, tg, rg, Expire(i));
    LocalStep(t, tg, rg, Resize(n));
    tg' := SendStep(u, tg, rg);
    OneStep(s, Expire(i));
    OneStep(t, Resize(n));
    OneStep(u, Send);
    RunsJoin(s, [Expire(i)], [Resize(n)]);
    RunsJoin(s, [Expire(i)] + [Resize(n)], [Send]);
    assert Going(u, tg, rg) by { assert u.tx.cyclicCut == s.tx.cyclicCut by { TimerKeepsCut(s.tx, i); } }
    GoingWithin(u, tg, rg);
    LimitCovers(u.tx, i);
    QuietWrite(u.tx);
    Retransmit.DueFate(u.tx, i);
    SentIsOnAir(u, i);
  }

  lemma TimerKeepsCut(st: TxSpec.TxState, i: nat)
    requires i < |st.fragments|
    ensures TxSpec.Timeout(st, i).cyclicCut == st.cyclicCut
  {
  }

  lemma LimitCovers(st: TxSpec.TxState, i: nat)
    requires i < |st.fragments| && st.fragments[i].needSend
    ensures Retransmit.Ahead(st, i) + 4 + |st.fragments[i].data|
         <= SendPlan.Lengths(st.packets) + SendPlan.Estimate(SendPlan.Due(st.fragments))
  {
    hide SendPlan.Due, SendPlan.Estimate, SendPlan.Lengths;
    Retransmit.EstimateAtRank(st.fragments, i);
    var due, r := SendPlan.Due(st.fragments), Retransmit.Rank(st.fragments, i);
    PrefixEstimate(due, r + 1);
  }

  lemma {:induction false} PrefixEstimate(fs: seq<TxSpec.TxFrag>, n: nat)
    requires n <= |fs|
    ensures SendPlan.Estimate(fs[..n]) <= SendPlan.Estimate(fs)
    decreases n
  {
    if n == 0 {
      assert fs[..0] == [];
    } else {
      assert fs[..n][1..] == fs[1..][..n - 1];
      PrefixEstimate(fs[1..], n - 1);
    }
  }

  lemma SentIsOnAir(u: Sys, i: nat)
    requires i < |u.tx.fragments| && Retransmit.Fate(u.tx, i, TxSpec.GetWriteData(u.tx))
    requires Retransmit.Ahead(u.tx, i) + 4 + |u.tx.fragments[i].data| <= u.tx.writeSize
    requires !TxSpec.GetWriteData(u.tx).raised
    ensures PacketOf(u.tx.fragments[i]) in Step(u, Send).air
  {
    hide TxSpec.GetWriteData, Retransmit.Ahead, Retransmit.Rank;
    var w, r := TxSpec.GetWriteData(u.tx), Retransmit.Rank(u.tx.fragments, i);
    assert w.data[r] in w.data;
    assert PacketOf(w.data[r]) == PacketOf(u.tx.fragments[i]);
  }

  // ------------------------------------------------------- everything sent is consumed

  /** The tag has consumed all that was ever cut. */
  predicate Caught(s: Sys) { Next(s.tx) == s.rx.seqNum }

  lemma CaughtUp(s: Sys, tg: TxProof.TxGhost, rg: RxGhost)
    requires SysInv(s, tg, rg)
    ensures rg.c <= |tg.hist| && tg.base <= rg.c && (rg.c == |tg.hist| <==> Caught(s))
    ensures s.tx.seqNum == s.rx.seqNum ==> tg.base == rg.c
    ensures |s.tx.fragments| == |tg.hist| - tg.base && 0 <= s.tx.seqNum <= s.rx.seqNum
  {
    hide RxInv, AirOk, AcksOk;
    Numbers(s, tg, rg);
    TxTiles(s, tg);
    if Caught(s) { EdgeInjective(s.given, tg.hist, rg.c, |tg.hist|); }
    if s.tx.seqNum == s.rx.seqNum { EdgeInjective(s.given, tg.hist, tg.base, rg.c); }
  }

  /** The tag's last ack was sent, unless nothing was consumed yet. */
  predicate AckKnown(s: Sys) { s.rx.seqNum in s.acks || s.rx.seqNum == 0 }

  lemma {:induction false} AckKnownRun(s: Sys, acts: seq<Action>)
    requires AckKnown(s)
    ensures AckKnown(Run(s, acts))
    decreases |acts|
  {
    hide TxSpec.GetWriteData, TxSpec.HandleAck, Receive;
    if acts != [] { AckKnownRun(Step(s, acts[0]), acts[1..]); }
  }

  /** The tag as it was, but for acks taken by the sender. */
  lemma AckAll(s: Sys, tg: TxProof.TxGhost, rg: RxGhost) returns (acts: seq<Action>, tg': TxProof.TxGhost)
    requires Going(s, tg, rg) && Caught(s) && AckKnown(s)
    ensures var t := Run(s, acts);
            && Legal(s, acts) && Going(t, tg', rg) && TagAsWas(s, t) && Caught(t)
            && t.tx.seqNum == t.rx.seqNum && t.tx.fragments == []
  {
    hide SysInv, TxSpec.HandleAck, Run, Legal;
    CaughtUp(s, tg, rg);
    if s.tx.seqNum == s.rx.seqNum {
      acts, tg' := [], tg;
      assert Run(s, []) == s && Legal(s, []) by { NoSteps(s); }
    } else {
      acts := [Ack(s.rx.seqNum)];
      OneStep(s, Ack(s.rx.seqNum));
      AckKeepsNext(s, tg, rg);
      tg' := AckBringsSender(s, tg, rg);
      CaughtUp(Step(s, Ack(s.rx.seqNum)), tg', rg);
    }
  }

  lemma NoSteps(s: Sys)
    ensures Run(s, []) == s && Legal(s, [])
  {
  }

  lemma AckKeepsNext(s: Sys, tg: TxProof.TxGhost, rg: RxGhost)
    requires SysInv(s, tg, rg)
    ensures var t := TxSpec.HandleAck(s.tx, s.rx.seqNum).st; Next(t) == Next(s.tx) && t.cyclicCut == s.tx.cyclicCut
  {
    hide RxInv, AirOk, AcksOk, TxProof.TxCore;
    var tg' := TxProof.HandleAckTotal(s.tx, tg, s.rx.seqNum);
  }

  /** Nothing outstanding: pending control packets go out by themselves. */
  lemma Drain(s: Sys, tg: TxProof.TxGhost, rg: RxGhost) returns (acts: seq<Action>, tg': TxProof.TxGhost)
    requires Going(s, tg, rg) && s.tx.fragments == [] && s.tx.seqNum == s.rx.seqNum
    ensures var t := Run(s, acts);
            && Legal(s, acts) && Going(t, tg', rg) && TagAsWas(s, t) && t.tx.packets == []
            && t.tx.fragments == [] && t.tx.seqNum == t.rx.seqNum
  {
    hide SysInv, TxSpec.GetWriteData, Run, Legal, SendPlan.Lengths;
    var n := SendPlan.Lengths(s.tx.packets);
    var u := Step(s, Resize(n));
    acts := [Resize(n)] + [Send];
    LocalStep(s, tg, rg, Resize(n));
    tg' := SendStep(u, tg, rg);
    OneStep(s, Resize(n));
    OneStep(u, Send);
    RunsJoin(s, [Resize(n)], [Send]);
    GoingWithin(u, tg, rg);
    DrainQuiet(u.tx);
  }

  lemma DrainQuiet(st: TxSpec.TxState)
    requires SendPlan.Within(st) && !st.cyclicCut && st.fragments == [] && st.writeSize == SendPlan.Lengths(st.packets)
    ensures var w := TxSpec.GetWriteData(st);
            !w.st.cyclicCut && w.st.packets == [] && w.st.fragments == [] && w.st.seqNum == st.seqNum
  {
    hide TxSpec.GetWriteData, SendPlan.Lengths, SendPlan.Within;
    SendPlan.NothingSent();
    QuietWrite(st);
    Retransmit.CallOutcome(st);
    WriteKeepsSeq(st);
  }

  lemma WriteKeepsSeq(st: TxSpec.TxState)
    ensures TxSpec.GetWriteData(st).st.seqNum == st.seqNum
  {
    hide TxSpec.SendLoop, TxSpec.ControlLoop;
    var c := TxSpec.ControlLoop(st.packets, 0, st.writeSize);
    if !c.tooLong { LoopKeepsSeq(st.(packets := c.rest), c.estimate); }
  }

  lemma {:induction false} LoopKeepsSeq(st: TxSpec.TxState, estimate: nat)
    requires estimate <= st.writeSize
    ensures TxSpec.SendLoop(st, estimate).st.seqNum == st.seqNum
    decreases st.writeSize - estimate
  {
    hide TxSpec.MakeFragment;
    var p := TxSpec.Select(st, st.writeSize - estimate);
    SelectKeepsSeq(st, st.writeSize - estimate);
    if p.Picked? {
      var estimate' := estimate + 4 + |p.st.fragments[p.index].data|;
      if estimate' <= st.writeSize { LoopKeepsSeq(TxSpec.Arm(p.st, p.index), estimate'); }
    }
  }

  lemma SelectKeepsSeq(st: TxSpec.TxState, avail: int)
    ensures TxSpec.Select(st, avail).st.seqNum == st.seqNum
  {
  }

  // ------------------------------------------------------------- one byte at a time

  /** The limit that leaves space for one byte. */
  function OneByteLimit(st: TxSpec.TxState): nat {
    (if st.msgFragmented == 0 then 6 else 4) + 1 + TxSpec.ChecksumSize(st)
  }

  lemma OnePieceCut(rests: seq<nat>, head: bool, room: int, checksum: nat)
    requires rests != [] && rests[0] > 0 && room >= 1
    ensures var c := SendPlan.CutsFrom(rests, head, (if head then 6 else 4) + 1 + checksum, room, checksum);
            !c.ending.Raises? && c.Records() > 0
  {
    var space := (if head then 6 else 4) + 1 + checksum;
    if rests[0] == 1 { TooLittle(rests[1..], space - 5, room - 1, checksum); }
  }

  lemma TooLittle(rests: seq<nat>, space: int, room: int, checksum: nat)
    requires space <= 6 + checksum
    ensures SendPlan.CutsFrom(rests, true, space, room, checksum).ending.Stops?
  {
  }

  /** With nothing outstanding or pending and more to send, a write within that limit cuts and sends. */
  lemma CutsOne(s: Sys, tg: TxProof.TxGhost, rg: RxGhost)
    requires Going(s, tg, rg) && s.tx.fragments == [] && s.tx.packets == [] && s.tx.seqNum == s.rx.seqNum
    requires s.rx.seqNum < Total(s.given) && s.tx.writeSize == OneByteLimit(s.tx)
    ensures var w := TxSpec.GetWriteData(s.tx);
            && !w.raised && !w.st.cyclicCut && w.data != [] && |w.st.fragments| == |w.data|
            && w.data[0] == w.st.fragments[0].(armed := false)
  {
    hide SysInv, TxSpec.GetWriteData, SendPlan.CutsFrom, SendPlan.Estimate, SendPlan.Uncounted, SendPlan.Lengths;
    GoingWithin(s, tg, rg);
    var st := s.tx;
    SomethingLeft(s, tg, rg);
    OnePieceCut(SendPlan.Rests(st), st.msgFragmented == 0, TxSpec.Room(st), TxSpec.ChecksumSize(st));
    SendPlan.CallPlanned(st);
    OnlyCuts(st);
    Retransmit.CallOutcome(st);
    var w := TxSpec.GetWriteData(st);
    AccessLoop.CountsNothing(w.data);
    assert w.data[0] == w.data[0 + 0 - 0];
  }

  lemma OnlyCuts(st: TxSpec.TxState)
    requires SendPlan.Within(st) && st.packets == [] && st.fragments == []
    ensures SendPlan.PlanOf(st) == SendPlan.Plan(0, 0, Base.Some(SendPlan.CutsOf(st, st.writeSize)))
    ensures SendPlan.Lengths([]) == 0 && SendPlan.Estimate([]) == 0
    ensures SendPlan.Counted(st, SendPlan.PlanOf(st)) == SendPlan.CutsOf(st, st.writeSize).Counted()
  {
    hide SendPlan.CutsFrom, SendPlan.Within, SendPlan.Rests;
    assert st.packets[..0] == [] && SendPlan.Due(st.fragments) == [];
  }

  lemma SomethingLeft(s: Sys, tg: TxProof.TxGhost, rg: RxGhost)
    requires Going(s, tg, rg) && s.tx.fragments == [] && s.tx.seqNum == s.rx.seqNum && s.rx.seqNum < Total(s.given)
    ensures s.tx.messages != [] && SendPlan.Within(s.tx) && SendPlan.Current(s.tx) == s.tx
    ensures SendPlan.Rests(s.tx) != [] && SendPlan.Rests(s.tx)[0] > 0 && TxSpec.Room(s.tx) >= 1
  {
    hide RxInv, AirOk, AcksOk;
    GoingWithin(s, tg, rg);
    StreamFits(s, tg, rg);
    CaughtUp(s, tg, rg);
    Numbers(s, tg, rg);
    assert s.tx.messages == tg.msgs[tg.cur..];
  }

  /** A byte not cut yet is cut and sent. */
  lemma CutNext(s: Sys, tg: TxProof.TxGhost, rg: RxGhost) returns (acts: seq<Action>, p: Packet, tg': TxProof.TxGhost)
    requires Going(s, tg, rg) && s.tx.fragments == [] && s.tx.packets == [] && s.tx.seqNum == s.rx.seqNum
    requires s.rx.seqNum < Total(s.given)
    ensures Legal(s, acts) && Going(Run(s, acts), tg', rg) && TagAsWas(s, Run(s, acts)) && Offered(Run(s, acts), p)
  {
    hide SysInv, TxSpec.GetWriteData, Run, Legal, Total;
    var n := OneByteLimit(s.tx);
    var u := Step(s, Resize(n));
    var v := Step(u, Send);
    acts := [Resize(n)] + [Send];
    LocalStep(s, tg, rg, Resize(n));
    tg' := SendStep(u, tg, rg);
    OneStep(s, Resize(n));
    OneStep(u, Send);
    RunsJoin(s, [Resize(n)], [Send]);
    CutsOne(u, tg, rg);
    WriteKeepsSeq(u.tx);
    CaughtUp(v, tg', rg);
    NextOutstanding(v, tg', rg);
    p := PacketOf(v.tx.fragments[0]);
    var w := TxSpec.GetWriteData(u.tx);
    assert w.data[0] in w.data && PacketOf(w.data[0]) == p;
  }

  // ---------------------------------------------------------------- the tag's side

  /** A slot is free, or a message is in progress, which frees one. */
  ghost predicate Free(s: Sys) {
    |s.rx.infos| < s.rx.slots || (|s.delivered| <= |s.given| && Start(s.given, |s.delivered|) < s.rx.seqNum)
  }

  lemma DeliveredCount(s: Sys, tg: TxProof.TxGhost, rg: RxGhost)
    requires SysInv(s, tg, rg)
    ensures |s.delivered| == rg.k <= |s.given| && |s.rx.infos| == |rg.ids| && DoneAt(s.given, rg.k, s.rx.seqNum)
  {
    hide TxOk, AirOk, AcksOk;
  }

  /** The next packet, received while free, moves the tag on and leaves it free. */
  lemma TakeNext(s: Sys, tg: TxProof.TxGhost, rg: RxGhost, p: Packet) returns (rg': RxGhost)
    requires Going(s, tg, rg) && Offered(s, p) && Free(s)
    ensures var t := Step(s, Arrive(p));
            && Going(t, tg, rg') && t.rx.seqNum > s.rx.seqNum && Free(t) && AckKnown(t) && t.given == s.given
  {
    hide SysInv, Receive, Start;
    DeliveredCount(s, tg, rg);
    if p.msgSize != 0 { HeadAtStart(s, tg, rg, p); }
    RxSlots.NextArrival(s, tg, rg, p);
    rg' := ArriveStep(s, tg, rg, p);
    var t := Step(s, Arrive(p));
    DeliveredCount(t, tg, rg');
    ReceiveKeepsConfig(s.rx, p);
    if rg'.k > rg.k {
      assert |t.rx.infos| < t.rx.slots;
    } else {
      assert DoneAt(s.given, rg.k, s.rx.seqNum);
      StartBelow(s.given, rg.k, s.rx.seqNum);
    }
  }

  lemma StartBelow(ms: seq<Msg>, k: nat, pos: int)
    requires DoneAt(ms, k, pos)
    ensures Start(ms, k) <= pos
  {
  }

  lemma HeadAtStart(s: Sys, tg: TxProof.TxGhost, rg: RxGhost, p: Packet)
    requires SysInv(s, tg, rg) && Offered(s, p) && p.msgSize != 0
    ensures |s.delivered| <= |s.given| && Start(s.given, |s.delivered|) == s.rx.seqNum
  {
    hide TxOk, AirOk, AcksOk, RxInv;
    RxSlots.NextOnAir(s, tg, rg, p);
    StreamFits(s, tg, rg);
    var f := tg.hist[rg.c];
    RxAtEdge(s.rx, s.given, tg.hist, rg);
    TxTiles(s, tg);
    assert Fits(s.given, f);
    MessageAt(s.given, f.msg, rg.k, s.rx.seqNum);
  }

  lemma MessageAt(ms: seq<Msg>, x: nat, k: nat, pos: int)
    requires x < |ms| && Start(ms, x) == pos && DoneAt(ms, k, pos) && NonEmpty(ms)
    ensures x == k
  {
    if x < k { StartMonotone(ms, x, k); }
    if k < x { StartMonotone(ms, k, x); }
  }

  lemma ReceiveKeepsConfig(rx: Rx.RxState, p: Packet)
    ensures Rx.SameConfig(Receive(rx, p).rx, rx)
  {
    hide Rx.Assemble;
  }

  // ----------------------------------------------------------------- to the end

  /** Everything given is handed out, and reported. */
  predicate Finished(s: Sys) { s.delivered == s.given && s.reported == |s.given| }

  /** From the sender's side alone to the next packet on the air. */
  lemma OfferNext(s: Sys, tg: TxProof.TxGhost, rg: RxGhost) returns (acts: seq<Action>, p: Packet, tg': TxProof.TxGhost)
    requires Going(s, tg, rg) && AckKnown(s) && s.rx.seqNum < Total(s.given)
    ensures Legal(s, acts) && Going(Run(s, acts), tg', rg) && TagAsWas(s, Run(s, acts)) && Offered(Run(s, acts), p)
  {
    hide SysInv, Run, Legal, Total;
    CaughtUp(s, tg, rg);
    if rg.c < |tg.hist| {
      acts, p, tg' := Resend(s, tg, rg);
    } else {
      var a1, a2, a3;
      a1, tg' := AckAll(s, tg, rg);
      var t := Run(s, a1);
      a2, tg' := Drain(t, tg', rg);
      var u := Run(t, a2);
      a3, p, tg' := CutNext(u, tg', rg);
      RunsJoin(s, a1, a2);
      RunsJoin(s, a1 + a2, a3);
      acts := a1 + a2 + a3;
    }
  }

  /** With everything consumed, one ack finishes. */
  lemma AllConsumed(s: Sys, tg: TxProof.TxGhost, rg: RxGhost) returns (acts: seq<Action>)
    requires Going(s, tg, rg) && AckKnown(s) && s.rx.seqNum >= Total(s.given)
    ensures Legal(s, acts) && Finished(Run(s, acts)) && Run(s, acts).given == s.given
  {
    hide SysInv, Run, Legal, Start;
    CaughtUp(s, tg, rg);
    Numbers(s, tg, rg);
    StreamFits(s, tg, rg);
    EdgeBelow(s, tg, rg);
    var tg';
    acts, tg' := AckAll(s, tg, rg);
    var t := Run(s, acts);
    Prefixes(t, tg', rg);
    CaughtUp(t, tg', rg);
    AllDone(t.given, |t.delivered|, t.rx.seqNum);
    AllDone(t.given, t.reported, t.tx.seqNum);
  }

  lemma EdgeBelow(s: Sys, tg: TxProof.TxGhost, rg: RxGhost)
    requires SysInv(s, tg, rg)
    ensures Edge(tg.hist, |tg.hist|) <= Total(s.given)
  {
    hide RxInv, AirOk, AcksOk;
    TxTiles(s, tg);
    EdgeBelowTotal(s.given, tg.hist, |tg.hist|);
  }

  lemma AllDone(ms: seq<Msg>, done: nat, pos: int)
    requires DoneAt(ms, done, pos) && pos >= Total(ms)
    ensures done == |ms|
  {
    if done < |ms| { StartMonotone(ms, done + 1, |ms|); }
  }

  lemma {:induction false} CanFinish(s: Sys, tg: TxProof.TxGhost, rg: RxGhost) returns (acts: seq<Action>)
    requires Going(s, tg, rg) && AckKnown(s) && Free(s)
    ensures Legal(s, acts) && Finished(Run(s, acts)) && Run(s, acts).given == s.given
    decreases Total(s.given) - s.rx.seqNum
  {
    hide SysInv, Run, Legal, Total, Start, Going, AckKnown, Receive;
    if s.rx.seqNum >= Total(s.given) {
      acts := AllConsumed(s, tg, rg);
    } else {
      var a1, p, tg1 := OfferNext(s, tg, rg);
      var t := Run(s, a1);
      var rg1 := TakeNext(t, tg1, rg, p);
      OneStep(t, Arrive(p));
      var u := Step(t, Arrive(p));
      var a2 := CanFinish(u, tg1, rg1);
      RunsJoin(s, a1, [Arrive(p)]);
      RunsJoin(s, a1 + [Arrive(p)], a2);
      acts := a1 + [Arrive(p)] + a2;
    }
  }

  // ------------------------------------------------------------------ not free

  lemma NotFreeBlocked(s: Sys, tg: TxProof.TxGhost, rg: RxGhost)
    requires SysInv(s, tg, rg) && !Free(s) && 0 < s.rx.slots
    ensures RxSlots.Blocked(s.rx, s.given, tg.hist, rg.c) && |s.delivered| < |s.given|
  {
    hide TxOk, AirOk, AcksOk, Partial, Reach;
    StreamFits(s, tg, rg);
    TxTilesOf(s, tg, rg);
    var x := rg.ids[0];
    assert x in rg.ids;
    assert HeadPending(s.given, tg.hist, rg.fids, x);
    var y :| y in rg.fids && y < |tg.hist| && tg.hist[y].pos == Start(s.given, x);
    assert rg.c <= y;
    var f := tg.hist[rg.c];
    assert Fits(s.given, f);
    MessageHere(s.given, f, rg.k);
  }

  lemma TxTilesOf(s: Sys, tg: TxProof.TxGhost, rg: RxGhost)
    requires SysInv(s, tg, rg)
    ensures Tiles(s.given, tg.hist)
  {
    hide RxInv, AirOk, AcksOk;
    TxTiles(s, tg);
  }

  lemma MessageHere(ms: seq<Msg>, f: Frag, k: nat)
    requires Fits(ms, f) && NonEmpty(ms) && k <= |ms| && f.pos == Start(ms, k)
    ensures f.msg == k < |ms|
  {
    if f.msg < k { StartMonotone(ms, f.msg, k); }
    if k < f.msg { StartMonotone(ms, k, f.msg); }
  }

  lemma ArriveNotFree(s: Sys, tg: TxProof.TxGhost, rg: RxGhost, p: Packet)
    requires SysInv(s, tg, rg) && !Free(s) && 0 < s.rx.slots && p in s.air
    ensures var t := Step(s, Arrive(p)); !Free(t) && t.delivered == s.delivered && t.rx.slots == s.rx.slots
  {
    hide TxOk, AirOk, AcksOk, RxInv, Receive, Deliver;
    NotFreeBlocked(s, tg, rg);
    var i := ReceivesFragment(s, tg, rg, p);
    RxSlots.StaysBlocked(s.rx, s.given, tg.hist, rg, i);
    ReceiveKeepsConfig(s.rx, p);
  }

  lemma AddNotFree(s: Sys, m: Msg)
    requires !Free(s) && |s.delivered| <= |s.given|
    ensures !Free(Step(s, Add(m)))
  {
    StartAppend(s.given, m, |s.delivered|);
  }

  lemma {:induction false} NothingMore(s: Sys, tg: TxProof.TxGhost, rg: RxGhost, more: seq<Action>)
    requires SysInv(s, tg, rg) && !Free(s) && 0 < s.rx.slots && Legal(s, more)
    ensures Run(s, more).delivered == s.delivered
    decreases |more|
  {
    hide SysInv, TxSpec.GetWriteData, TxSpec.HandleAck, Receive, Start;
    if more != [] {
      DeliveredCount(s, tg, rg);
      var tg', rg' := StepInv(s, tg, rg, more[0]);
      match more[0] {
        case Arrive(p) => ArriveNotFree(s, tg, rg, p);
        case Add(m) => AddNotFree(s, m);
        case _ =>
      }
      NothingMore(Step(s, more[0]), tg', rg', more[1..]);
    }
  }

  /**
   * The end to end statement of progress.  At any moment of any legal run in
   * which no cut was limited strictly by the window: if the tag has a free
   * slot or is in the middle of a message, then there is a way on, without
   * any new message, to where everything given is handed out and reported;
   * if it has neither, then no way on ever hands out another message, though
   * there are some left to hand out.
   */
  lemma DeliverableIff(writeSize: nat, windowSize: nat, checksum: bool, slots: nat, capacity: nat, acts: seq<Action>)
    returns (more: seq<Action>)
    requires 0 < windowSize < 0x10000 && 0 < slots
    requires Legal(Begin(writeSize, windowSize, checksum, slots, capacity), acts)
    ensures var s := Run(Begin(writeSize, windowSize, checksum, slots, capacity), acts);
            && (Free(s) && !s.tx.cyclicCut ==>
                  Legal(s, more) && Finished(Run(s, more)) && Run(s, more).given == s.given)
            && (!Free(s) ==>
                  && |s.delivered| < |s.given|
                  && forall others | Legal(s, others) :: Run(s, others).delivered == s.delivered)
  {
    hide SysInv, Run, Legal, Free;
    var s0 := Begin(writeSize, windowSize, checksum, slots, capacity);
    BeginInv(writeSize, windowSize, checksum, slots, capacity);
    var tg, rg := RunInv(s0, TxProof.TxGhost([], 0, [], 0, 0), RxGhost(0, 0, [], []), acts);
    AckKnownRun(s0, acts);
    SlotsKept(s0, acts);
    var s := Run(s0, acts);
    more := [];
    if Free(s) {
      if !s.tx.cyclicCut { more := CanFinish(s, tg, rg); }
    } else {
      NotFreeBlocked(s, tg, rg);
      forall others | Legal(s, others) ensures Run(s, others).delivered == s.delivered {
        NothingMore(s, tg, rg, others);
      }
    }
  }

  lemma {:induction false} SlotsKept(s: Sys, acts: seq<Action>)
    ensures Run(s, acts).rx.slots == s.rx.slots
    decreases |acts|
  {
    hide TxSpec.GetWriteData, TxSpec.HandleAck, Receive;
    if acts != [] {
      if acts[0].Arrive? { ReceiveKeepsConfig(s.rx, acts[0].p); }
      SlotsKept(Step(s, acts[0]), acts[1..]);
    }
  }
}
