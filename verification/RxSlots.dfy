/**
 * The tag's slots for declared messages (client/wtp/wtp/transmission.c): when
 * they stand in the way of the next packet, and for how long.
 */
module RxSlots {
  import opened Base
  import opened Cyclic
  import opened Stream
  import opened RxSpec
  import opened RxProof
  import TxSpec
  import TxProof
  import Downlink
  import SendPlan

  /** The next fragment begins a message, and no slot is free to declare it. */
  ghost predicate Blocked(st: RxState, ms: seq<Msg>, h: seq<Frag>, c: nat) {
    c < |h| && IsHead(ms, h[c]) && |st.infos| >= st.slots
  }

  /** A fragment that is not the next one is at most put into the lists. */
  lemma JoinsLists(st: RxState, ms: seq<Msg>, h: seq<Frag>, g: RxGhost, i: nat)
    requires RxInv(st, ms, h, g) && i < |h| && Accepts(st, ms, h, g, i) && i != g.c
    ensures h[i].msg < |ms| && h[i].pos < 0x10000 && |ms[h[i].msg]| < 0x10000
    ensures var d := Deliver(st, ms, h[i]);
            d.msgs == [] && d.st.seqNum == st.seqNum && d.st.infos == Declared(st, ms, h[i]).infos
  {
    hide Assemble, Store, Linked, HandleFrag, Partial, Reach, InfoList;
    AcceptedSteps(st, ms, h, g, i);
    JoinAgrees(st, ms, h, g, i);
    ListsKnown(st, ms, h, g);
    var s, g1 := Store(Declared(st, ms, h[i]), h[i].pos, h[i].data).st, Joined(st, ms, h, g, i);
    assert AtGap(g1) by { BeyondNext(st, ms, h, g, g1, s.frags, i); }
    AssembleStops(s, ms, h, g1, 0);
  }

  lemma ListsKnown(st: RxState, ms: seq<Msg>, h: seq<Frag>, g: RxGhost)
    requires RxInv(st, ms, h, g)
    ensures |st.frags| == |g.fids| && |st.infos| == |g.ids|
  {
  }

  lemma BeyondNext(st: RxState, ms: seq<Msg>, h: seq<Frag>, g: RxGhost, g1: RxGhost, frags: seq<RxFrag>, i: nat)
    requires RxInv(st, ms, h, g) && g1.c == g.c && i != g.c
    requires FragList(h, frags, g1.c, g1.fids) && forall y :: y in g1.fids <==> y == i || y in g.fids
    ensures AtGap(g1)
  {
    hide Linked, Partial, Reach, InfoList;
    if g1.fids != [] {
      var y := g1.fids[0];
      assert y in g1.fids && y >= g.c;
      NextNotPending(g);
    }
  }

  lemma NextNotPending(g: RxGhost)
    requires Increasing(g.fids) && AtGap(g)
    ensures g.c !in g.fids
  {
    forall j | 0 <= j < |g.fids| ensures g.fids[j] != g.c { assert j > 0 ==> g.fids[0] < g.fids[j]; }
  }

  /** While blocked, no packet of the stream moves the position, frees a slot or completes a message. */
  lemma StaysBlocked(st: RxState, ms: seq<Msg>, h: seq<Frag>, g: RxGhost, i: nat)
    requires RxInv(st, ms, h, g) && i < |h| && Blocked(st, ms, h, g.c)
    ensures h[i].msg < |ms| && h[i].pos < 0x10000 && |ms[h[i].msg]| < 0x10000
    ensures var d := Deliver(st, ms, h[i]);
            d.msgs == [] && d.st.seqNum == st.seqNum && d.st.infos == st.infos
  {
    hide RxInv, Deliver, InsertAt;
    assert MessageFits(st, ms, h, g, i) by { FragmentFits(st, ms, h, g, i); }
    if Accepts(st, ms, h, g, i) {
      JoinsLists(st, ms, h, g, i);
    } else {
      NothingJoins(st, ms, h, g, i);
    }
  }

  ghost predicate MessageFits(st: RxState, ms: seq<Msg>, h: seq<Frag>, g: RxGhost, i: nat)
    requires i < |h|
  {
    h[i].msg < |ms| && h[i].pos < 0x10000 && |ms[h[i].msg]| < 0x10000
  }

  lemma FragmentFits(st: RxState, ms: seq<Msg>, h: seq<Frag>, g: RxGhost, i: nat)
    requires RxInv(st, ms, h, g) && i < |h|
    ensures MessageFits(st, ms, h, g, i)
  {
    MessageSize(ms, h, st.windowSize, i);
  }

  lemma NothingJoins(st: RxState, ms: seq<Msg>, h: seq<Frag>, g: RxGhost, i: nat)
    requires RxInv(st, ms, h, g) && i < |h| && !Accepts(st, ms, h, g, i)
    ensures h[i].msg < |ms| && h[i].pos < 0x10000 && |ms[h[i].msg]| < 0x10000
    ensures Deliver(st, ms, h[i]).st == st && Deliver(st, ms, h[i]).msgs == []
  {
    hide RxInv, HandleFrag;
    Rejected(st, ms, h, g, i);
  }

  /** The next fragment, inside the window, is taken in if and only if it is not blocked. */
  lemma NextTakenIff(st: RxState, ms: seq<Msg>, h: seq<Frag>, g: RxGhost)
    requires RxInv(st, ms, h, g) && BufferSuffices(st, ms) && g.c < |h| && |h[g.c].data| <= st.windowSize
    ensures h[g.c].msg < |ms| && h[g.c].pos < 0x10000 && |ms[h[g.c].msg]| < 0x10000
    ensures Deliver(st, ms, h[g.c]).st.seqNum > st.seqNum <==> !Blocked(st, ms, h, g.c)
  {
    hide Deliver, Agrees, Setting;
    var g' := DeliverInv(st, ms, h, g, g.c);
    NextAccepted(st, ms, h, g);
    if Blocked(st, ms, h, g.c) {
      StaysBlocked(st, ms, h, g, g.c);
    } else {
      assert Holds(g', g.c);
      NextConsumed(Deliver(st, ms, h[g.c]).st, st, ms, h, g', g);
    }
  }

  lemma NextAccepted(st: RxState, ms: seq<Msg>, h: seq<Frag>, g: RxGhost)
    requires RxInv(st, ms, h, g) && g.c < |h| && |h[g.c].data| <= st.windowSize
    ensures Accepts(st, ms, h, g, g.c) <==> !Blocked(st, ms, h, g.c)
  {
    hide Linked, Partial, Reach, InfoList;
    assert Fits(ms, h[g.c]);
    NextNotPending(g);
  }

  lemma NextConsumed(st': RxState, st: RxState, ms: seq<Msg>, h: seq<Frag>, g': RxGhost, g: RxGhost)
    requires RxInv(st, ms, h, g) && RxInv(st', ms, h, g') && g.c < |h| && g.c <= g'.c && Holds(g', g.c)
    ensures st'.seqNum > st.seqNum
  {
    hide Linked, Partial, Reach, InfoList;
    NextNotPending(g');
    assert Fits(ms, h[g.c]);
    EdgeMonotone(ms, h, g.c + 1, g'.c);
  }

  /**
   * Of any stream or none: a packet that announces a message which can be
   * declared, but whose data overlaps a pending fragment, is refused and yet
   * takes a slot for good; sent again, it is refused and changes nothing.
   */
  lemma RefusedTakesSlot(st: RxState, seqNum: U16, data: seq<byte>, size: U16)
    requires InWindow(st, seqNum, |data|) && size != 0 && seqNum + size < 0x10000
    requires Declare(st, seqNum, size).status == Ok && Store(st, seqNum, data).status != Ok
    ensures var r := Handle(st, seqNum, data, size);
            && r.status == Invalid && r.nMsgs == 0 && r.st == st.(infos := r.st.infos)
            && |r.st.infos| == |st.infos| + 1 && Info(seqNum, size) in r.st.infos
            && Handle(r.st, seqNum, data, size) == RxResult(r.st, Invalid, 0)
  {
    hide Assemble, FragPos;
    var p := InfoPos(st.infos, seqNum, 0);
    var infos := InsertAt(st.infos, p, Info(seqNum, size));
    assert infos[p] == Info(seqNum, size);
    assert forall j :: 0 <= j < p ==> infos[j] == st.infos[j];
    var q := InfoPos(infos, seqNum, 0);
    assert q <= p;
    assert q == p;
  }

  // ------------------------------------------------------------ the downlink

  /** The packet on the air with the tag's own number is the next fragment. */
  lemma NextOnAir(s: Downlink.Sys, tg: TxProof.TxGhost, rg: RxGhost, p: Downlink.Packet)
    requires Downlink.SysInv(s, tg, rg) && p in s.air && p.seqNum == s.rx.seqNum
    ensures rg.c < |tg.hist| && Downlink.Carries(s.given, p, tg.hist[rg.c])
    ensures IsHead(s.given, tg.hist[rg.c]) <==> p.msgSize != 0
    ensures |tg.hist[rg.c].data| <= s.rx.windowSize
  {
    hide RxInv, Downlink.TxOk, Downlink.AcksOk, Downlink.AirOk, Downlink.Receive, Deliver;
    var i := Downlink.ReceivesFragment(s, tg, rg, p);
    Downlink.TxTiles(s, tg);
    Downlink.RxAtEdge(s.rx, s.given, tg.hist, rg);
    Downlink.Numbers(s, tg, rg);
    assert Fits(s.given, tg.hist[i]);
    Downlink.EdgeInjective(s.given, tg.hist, i, rg.c);
    EdgeMonotone(s.given, tg.hist, rg.c + 1, |tg.hist|);
    SizeSaysHead(s, tg, rg, i);
  }

  lemma SizeSaysHead(s: Downlink.Sys, tg: TxProof.TxGhost, rg: RxGhost, i: nat)
    requires Downlink.SysInv(s, tg, rg) && i < |tg.hist|
    ensures tg.hist[i].msg < |s.given| && (SizeField(s.given, tg.hist[i]) != 0 <==> IsHead(s.given, tg.hist[i]))
  {
    MessageSize(s.given, tg.hist, s.rx.windowSize, i);
  }

  /**
   * A dead end: the tag waits for the first packet of a message that is
   * already on the air, with every slot taken by later messages.
   */
  predicate DeadEnd(s: Downlink.Sys, p: Downlink.Packet) {
    p in s.air && p.seqNum == s.rx.seqNum && p.msgSize != 0 && |s.rx.infos| >= s.rx.slots
  }

  /** The tag's position and what it has handed out. */
  predicate SamePosition(s: Downlink.Sys, s': Downlink.Sys) {
    s'.rx.seqNum == s.rx.seqNum && s'.delivered == s.delivered
  }

  lemma DeadEndArrival(s: Downlink.Sys, tg: TxProof.TxGhost, rg: RxGhost, p: Downlink.Packet, q: Downlink.Packet)
    requires Downlink.SysInv(s, tg, rg) && DeadEnd(s, p) && q in s.air
    ensures var s' := Downlink.Step(s, Downlink.Arrive(q)); DeadEnd(s', p) && SamePosition(s, s')
  {
    hide RxInv, Downlink.TxOk, Downlink.AcksOk, Downlink.AirOk, Downlink.Receive, Deliver;
    NextOnAir(s, tg, rg, p);
    var i := Downlink.ReceivesFragment(s, tg, rg, q);
    StaysBlocked(s.rx, s.given, tg.hist, rg, i);
    DeliverKeepsConfig(s.rx, s.given, tg.hist[i]);
  }

  lemma DeliverKeepsConfig(st: RxState, ms: seq<Msg>, f: Frag)
    requires f.msg < |ms| && f.pos < 0x10000 && |ms[f.msg]| < 0x10000
    ensures SameConfig(Deliver(st, ms, f).st, st)
  {
    hide Assemble;
  }

  lemma {:induction false} DeadEndStays(s: Downlink.Sys, tg: TxProof.TxGhost, rg: RxGhost, p: Downlink.Packet,
                                        more: seq<Downlink.Action>)
    requires Downlink.SysInv(s, tg, rg) && DeadEnd(s, p) && Downlink.Legal(s, more)
    ensures SamePosition(s, Downlink.Run(s, more))
    decreases |more|
  {
    hide Downlink.SysInv, TxSpec.GetWriteData, TxSpec.HandleAck, Downlink.Receive;
    if more != [] {
      var tg', rg' := Downlink.StepInv(s, tg, rg, more[0]);
      if more[0].Arrive? { DeadEndArrival(s, tg, rg, p, more[0].p); }
      DeadEndStays(Downlink.Step(s, more[0]), tg', rg', p, more[1..]);
    }
  }

  /** With the next packet on the air: it is taken in unless this is a dead end. */
  lemma NextArrival(s: Downlink.Sys, tg: TxProof.TxGhost, rg: RxGhost, p: Downlink.Packet)
    requires Downlink.SysInv(s, tg, rg) && p in s.air && p.seqNum == s.rx.seqNum
    ensures Downlink.Step(s, Downlink.Arrive(p)).rx.seqNum > s.rx.seqNum <==> !DeadEnd(s, p)
  {
    hide RxInv, Downlink.TxOk, Downlink.AcksOk, Downlink.AirOk, Downlink.Receive, Deliver;
    NextOnAir(s, tg, rg, p);
    var i := Downlink.ReceivesFragment(s, tg, rg, p);
    Downlink.TxTiles(s, tg);
    Downlink.RxAtEdge(s.rx, s.given, tg.hist, rg);
    assert Fits(s.given, tg.hist[i]);
    Downlink.EdgeInjective(s.given, tg.hist, i, rg.c);
    BufferKnown(s, tg, rg);
    NextTakenIff(s.rx, s.given, tg.hist, rg);
  }

  lemma BufferKnown(s: Downlink.Sys, tg: TxProof.TxGhost, rg: RxGhost)
    requires Downlink.SysInv(s, tg, rg)
    ensures RxInv(s.rx, s.given, tg.hist, rg) && BufferSuffices(s.rx, s.given)
  {
  }

  /**
   * In every legal run of the downlink, with the next packet on the air: its
   * arrival moves the tag on if and only if it continues a message or a slot
   * is free; and if not, then whatever is sent, resent, lost or acknowledged
   * from there on, the tag never moves and hands out nothing more.
   */
  lemma SlotsDecide(writeSize: nat, windowSize: nat, checksum: bool, slots: nat, capacity: nat,
                    acts: seq<Downlink.Action>, p: Downlink.Packet, more: seq<Downlink.Action>)
    requires 0 < windowSize < 0x10000
    requires Downlink.Legal(Downlink.Begin(writeSize, windowSize, checksum, slots, capacity), acts)
    requires var s := Downlink.Run(Downlink.Begin(writeSize, windowSize, checksum, slots, capacity), acts);
             p in s.air && p.seqNum == s.rx.seqNum && Downlink.Legal(s, more)
    ensures var s := Downlink.Run(Downlink.Begin(writeSize, windowSize, checksum, slots, capacity), acts);
            && (Downlink.Step(s, Downlink.Arrive(p)).rx.seqNum > s.rx.seqNum <==>
                  p.msgSize == 0 || |s.rx.infos| < s.rx.slots)
            && (p.msgSize != 0 && |s.rx.infos| >= s.rx.slots ==> SamePosition(s, Downlink.Run(s, more)))
  {
    hide Downlink.SysInv, Downlink.Run, Downlink.Legal, Downlink.Step;
    var s0 := Downlink.Begin(writeSize, windowSize, checksum, slots, capacity);
    Downlink.BeginInv(writeSize, windowSize, checksum, slots, capacity);
    var tg, rg := Downlink.RunInv(s0, TxProof.TxGhost([], 0, [], 0, 0), RxGhost(0, 0, [], []), acts);
    var s := Downlink.Run(s0, acts);
    NextArrival(s, tg, rg, p);
    if DeadEnd(s, p) { DeadEndStays(s, tg, rg, p, more); }
  }

  // ------------------------------------------------------- such a run, from the start

  /** Messages of one byte each. */
  function Ones(b: seq<byte>, k: nat): (ms: seq<Msg>)
    requires k <= |b|
    ensures |ms| == k && forall i :: 0 <= i < k ==> ms[i] == [b[i]]
  {
    seq(k, i requires 0 <= i < k => [b[i]])
  }

  lemma {:induction false} TotalOfOnes(b: seq<byte>, k: nat)
    requires k <= |b|
    ensures Total(Ones(b, k)) == k
  {
    if k > 0 {
      TotalOfOnes(b, k - 1);
      assert Ones(b, k) == Ones(b, k - 1) + [[b[k - 1]]];
      StartAppend(Ones(b, k - 1), [b[k - 1]], k - 1);
    }
  }

  /** The sender once the first k of them were given and written one by one. */
  function TxAfter(b: seq<byte>, k: nat): TxSpec.TxState
    requires k <= |b|
  {
    TxSpec.TxState(0, [], [], k, 0, seq(k, i => i + 1),
                   seq(k, i requires 0 <= i < k => TxSpec.TxFrag(i, 1, [b[i]], false, true)), 24, 64, true, false)
  }

  lemma OneCut(b: seq<byte>, k: nat)
    requires k < |b| && k < 64
    ensures var st := TxSpec.AddMsg(TxAfter(b, k), [b[k]]);
            var f := TxSpec.TxFrag(k, 1, [b[k]], false, false);
            && TxSpec.MakeFragment(st, 24) == TxSpec.Made(st.(msgFragmented := 1), Base.Some(f), false)
            && SendPlan.Added(st.(msgFragmented := 1), f).fragments == TxAfter(b, k + 1).fragments
  {
    assert [] + [[b[k]]] == [[b[k]]] && [b[k]][0..1] == [b[k]];
  }

  lemma OneRetired(b: seq<byte>, k: nat)
    requires k < |b| && k < 64
    ensures var ends := TxAfter(b, k).msgEnds;
            var st := TxAfter(b, k + 1).(messages := [[b[k]]], msgBegin := k, msgFragmented := 1, msgEnds := ends);
            TxSpec.MakeFragment(st, 19) == TxSpec.Made(TxAfter(b, k + 1), Base.None, false)
  {
    assert TxAfter(b, k).msgEnds + [k + 1] == TxAfter(b, k + 1).msgEnds;
  }

  lemma OneWritten(b: seq<byte>, k: nat)
    requires k < |b| && k < 64
    ensures var w := TxSpec.GetWriteData(TxSpec.AddMsg(TxAfter(b, k), [b[k]]));
            w.st == TxAfter(b, k + 1) && w.data == [TxSpec.TxFrag(k, 1, [b[k]], false, false)] && !w.raised
  {
    hide TxSpec.MakeFragment, TxSpec.SendLoop;
    var st := TxSpec.AddMsg(TxAfter(b, k), [b[k]]);
    var f := TxSpec.TxFrag(k, 1, [b[k]], false, false);
    OneCut(b, k);
    OneRetired(b, k);
    SendPlan.CutTurn(st, 0);
    var t := SendPlan.Added(st.(msgFragmented := 1), f);
    var ends := TxAfter(b, k).msgEnds;
    assert t == TxAfter(b, k + 1).(messages := [[b[k]]], msgBegin := k, msgFragmented := 1, msgEnds := ends);
    SendPlan.CutTurn(t, 5);
    assert st.(packets := []) == st;
  }

  function PacketAt(b: seq<byte>, k: nat): Downlink.Packet
    requires k < |b| && k < 64
  {
    Downlink.Packet(k, 1, [b[k]])
  }

  ghost function Air(b: seq<byte>, k: nat): set<Downlink.Packet>
    requires k <= |b| && k <= 64
  {
    set i | 0 <= i < k :: PacketAt(b, i)
  }

  /** Everything sent and nothing received. */
  ghost function SentSys(b: seq<byte>, k: nat, slots: nat, capacity: nat): Downlink.Sys
    requires k <= |b| && k <= 64
  {
    Downlink.Sys(TxAfter(b, k), RxSpec.Init(64, slots, capacity), Ones(b, k), Air(b, k), {}, [], 0)
  }

  lemma RunMore(s: Downlink.Sys, acts: seq<Downlink.Action>, a: Downlink.Action)
    requires Downlink.Legal(s, acts) && Downlink.Enabled(Downlink.Run(s, acts), a)
    ensures Downlink.Legal(s, acts + [a])
    ensures Downlink.Run(s, acts + [a]) == Downlink.Step(Downlink.Run(s, acts), a)
    decreases |acts|
  {
    hide Downlink.Step, Downlink.Enabled;
    if acts == [] {
      assert [] + [a] == [a] && [a][1..] == [];
    } else {
      assert (acts + [a])[1..] == acts[1..] + [a];
      RunMore(Downlink.Step(s, acts[0]), acts[1..], a);
    }
  }

  lemma {:induction false} SendsAll(b: seq<byte>, k: nat, slots: nat, capacity: nat)
    returns (acts: seq<Downlink.Action>)
    requires k <= |b| && k <= 64 && 64 + 2 * slots <= capacity
    ensures var begin := Downlink.Begin(24, 64, true, slots, capacity);
            Downlink.Legal(begin, acts) && Downlink.Run(begin, acts) == SentSys(b, k, slots, capacity)
  {
    hide Downlink.Run, Downlink.Legal, TxSpec.GetWriteData;
    var begin := Downlink.Begin(24, 64, true, slots, capacity);
    acts := [];
    if k == 0 {
      NothingSent(b, slots, capacity);
    } else {
      acts := SendsAll(b, k - 1, slots, capacity);
      var m := [b[k - 1]];
      TotalOfOnes(b, k);
      assert Ones(b, k - 1) + [m] == Ones(b, k);
      RunMore(begin, acts, Downlink.Add(m));
      RunMore(begin, acts + [Downlink.Add(m)], Downlink.Send);
      SendsNext(b, k - 1, slots, capacity);
      acts := acts + [Downlink.Add(m)] + [Downlink.Send];
    }
  }

  lemma NothingSent(b: seq<byte>, slots: nat, capacity: nat)
    ensures var begin := Downlink.Begin(24, 64, true, slots, capacity);
            Downlink.Legal(begin, []) && Downlink.Run(begin, []) == SentSys(b, 0, slots, capacity)
  {
  }

  lemma SendsNext(b: seq<byte>, k: nat, slots: nat, capacity: nat)
    requires k < |b| && k < 64
    ensures Downlink.Step(Downlink.Step(SentSys(b, k, slots, capacity), Downlink.Add([b[k]])), Downlink.Send)
         == SentSys(b, k + 1, slots, capacity)
  {
    hide TxSpec.GetWriteData;
    OneWritten(b, k);
    var f := TxSpec.TxFrag(k, 1, [b[k]], false, false);
    assert Downlink.PacketsOf([f]) == {Downlink.PacketOf(f)} == {PacketAt(b, k)};
    assert Air(b, k) + {PacketAt(b, k)} == Air(b, k + 1);
    assert Ones(b, k) + [[b[k]]] == Ones(b, k + 1);
  }

  /** The tag with the packets 1 to j declared and pending. */
  function RxAfter(b: seq<byte>, j: nat, slots: nat, capacity: nat): RxState
    requires j < |b| && j < 64
  {
    RxState(0, seq(j, i requires 0 <= i < j => Info(i + 1, 1)),
            seq(j, i requires 0 <= i < j => RxFrag(i + 1, [b[i + 1]])), [], 64, slots, capacity)
  }

  lemma OneMore(b: seq<byte>, j: nat, slots: nat, capacity: nat)
    requires j + 1 < |b| && j + 1 < 64 && j < slots
    ensures Handle(RxAfter(b, j, slots, capacity), j + 1, [b[j + 1]], 1)
         == RxResult(RxAfter(b, j + 1, slots, capacity), Ok, 0)
  {
    hide InfoPos, FragPos;
    var st := RxAfter(b, j, slots, capacity);
    assert InfoPos(st.infos, j + 1, 0) == j && FragPos(st.frags, j + 1, 0) == j;
    assert InsertAt(st.infos, j, Info(j + 1, 1)) == RxAfter(b, j + 1, slots, capacity).infos;
    assert InsertAt(st.frags, j, RxFrag(j + 1, [b[j + 1]])) == RxAfter(b, j + 1, slots, capacity).frags;
  }

  lemma {:induction false} OthersArrive(b: seq<byte>, n: nat, j: nat, slots: nat, capacity: nat)
    returns (acts: seq<Downlink.Action>)
    requires j < n <= |b| && n <= 64 && j <= slots && 64 + 2 * slots <= capacity
    ensures var begin := Downlink.Begin(24, 64, true, slots, capacity);
            var s := Downlink.Run(begin, acts);
            && Downlink.Legal(begin, acts) && s.rx == RxAfter(b, j, slots, capacity) && s.delivered == []
            && s.air == Air(b, n) && s.given == Ones(b, n)
    decreases j
  {
    hide Downlink.Run, Downlink.Legal, RxSpec.Handle;
    var begin := Downlink.Begin(24, 64, true, slots, capacity);
    if j == 0 {
      acts := SendsAll(b, n, slots, capacity);
    } else {
      acts := OthersArrive(b, n, j - 1, slots, capacity);
      OneMore(b, j - 1, slots, capacity);
      assert PacketAt(b, j) in Air(b, n);
      RunMore(begin, acts, Downlink.Arrive(PacketAt(b, j)));
      acts := acts + [Downlink.Arrive(PacketAt(b, j))];
    }
  }

  /**
   * With n slots and n + 1 messages of one byte sent, all within the window:
   * if the packet of the first is the one that is lost at first, every slot
   * is taken by the others, and whatever happens from then on, not one of the
   * messages is ever handed out.
   */
  lemma SlotDeadlock(b: seq<byte>, slots: nat, capacity: nat) returns (acts: seq<Downlink.Action>)
    requires |b| == slots + 1 <= 64 && 64 + 2 * slots <= capacity
    ensures var begin := Downlink.Begin(24, 64, true, slots, capacity);
            var s := Downlink.Run(begin, acts);
            && Downlink.Legal(begin, acts) && s.given == Ones(b, |b|) && PacketAt(b, 0) in s.air
            && forall more | Downlink.Legal(s, more) :: Downlink.Run(s, more).delivered == []
  {
    hide Downlink.Run, Downlink.Legal, Downlink.SysInv;
    acts := OthersArrive(b, slots + 1, slots, slots, capacity);
    var begin := Downlink.Begin(24, 64, true, slots, capacity);
    var s := Downlink.Run(begin, acts);
    Downlink.BeginInv(24, 64, true, slots, capacity);
    var tg, rg := Downlink.RunInv(begin, TxProof.TxGhost([], 0, [], 0, 0), RxGhost(0, 0, [], []), acts);
    assert PacketAt(b, 0) in Air(b, slots + 1);
    forall more | Downlink.Legal(s, more) ensures Downlink.Run(s, more).delivered == [] {
      DeadEndStays(s, tg, rg, PacketAt(b, 0), more);
    }
  }
}
