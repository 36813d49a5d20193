/**
 * The downlink end to end: the server's transmit control, a channel that may
 * lose, duplicate, delay and reorder packets and acknowledgements, and the
 * tag's receive control with the loop that hands messages out.
 */
module Downlink {
  import opened Base
  import opened Cyclic
  import opened Stream
  import opened TxSpec
  import opened TxProof
  import Rx = RxSpec
  import opened RxProof
  import TxRuns

  datatype Packet = Packet(seqNum: U16, msgSize: U16, data: seq<byte>)

  /**
   * Both endpoints and the channel.  Whatever was once sent stays available
   * for arrival: a packet may arrive never, once or many times, in any order.
   */
  datatype Sys = Sys(
    tx: TxState,
    rx: Rx.RxState,
    given: seq<Msg>,
    air: set<Packet>,
    acks: set<U16>,
    delivered: seq<Msg>,
    reported: nat)

  datatype Action =
    | Add(msg: Msg)
    | Control(packet: seq<byte>)
    | Expire(index: nat)
    | Resize(writeSize: nat)
    | Send
    | Arrive(p: Packet)
    | Ack(seqNum: U16)

  function Begin(writeSize: nat, windowSize: nat, checksum: bool, slots: nat, capacity: nat): Sys {
    Sys(TxSpec.Init(writeSize, windowSize, checksum), Rx.Init(windowSize, slots, capacity), [], {}, {}, [], 0)
  }

  function PacketOf(f: TxFrag): Packet { Packet(Wrap(f.seqNum), Wrap(f.msgSize), f.data) }

  function PacketsOf(fs: seq<TxFrag>): set<Packet> { set f | f in fs :: PacketOf(f) }

  datatype Received = Received(rx: Rx.RxState, status: Rx.Status, msgs: seq<Msg>, ok: bool)

  /** wtp_handle_msg_packet: handle the packet, then read out the completed messages. */
  function Receive(rx: Rx.RxState, p: Packet): Received {
    var r := Rx.Handle(rx, p.seqNum, p.data, p.msgSize);
    var d := Rx.Drain(r.st.buf, r.nMsgs);
    Received(r.st.(buf := d.rest), r.status, d.msgs, d.ok)
  }

  /** Only what was sent arrives; messages must suit the sequence space and the tag's buffer. */
  ghost predicate Enabled(s: Sys, a: Action) {
    match a
    case Add(m) =>
      && m != [] && Total(s.given + [m]) + s.tx.windowSize <= 0x10000
      && |m| - 1 + s.rx.windowSize + 2 * s.rx.slots <= s.rx.capacity
    case Arrive(p) => p in s.air
    case Ack(n) => n in s.acks
    case _ => true
  }

  function Step(s: Sys, a: Action): Sys {
    match a
    case Add(m) => s.(tx := AddMsg(s.tx, m), given := s.given + [m])
    case Control(p) => s.(tx := AddPacket(s.tx, p))
    case Expire(i) => if i < |s.tx.fragments| then s.(tx := Timeout(s.tx, i)) else s
    case Resize(n) => s.(tx := s.tx.(writeSize := n))
    case Send => var w := GetWriteData(s.tx); s.(tx := w.st, air := s.air + if w.raised then {} else PacketsOf(w.data))
    case Arrive(p) => AfterArrival(s, Receive(s.rx, p))
    case Ack(n) => var r := HandleAck(s.tx, n); s.(tx := r.st, reported := s.reported + r.sent)
  }

  /** Whatever became of the packet, the tag answers with its sequence number. */
  function AfterArrival(s: Sys, r: Received): Sys {
    s.(rx := r.rx, delivered := s.delivered + r.msgs, acks := s.acks + {r.rx.seqNum})
  }

  function Run(s: Sys, acts: seq<Action>): Sys
    decreases |acts|
  {
    if acts == [] then s else Run(Step(s, acts[0]), acts[1..])
  }

  ghost predicate Legal(s: Sys, acts: seq<Action>)
    decreases |acts|
  {
    acts != [] ==> Enabled(s, acts[0]) && Legal(Step(s, acts[0]), acts[1..])
  }

  // ---------------------------------------------------------- the invariant

  /** The packet carries fragment f of the tiling. */
  ghost predicate Carries(ms: seq<Msg>, p: Packet, f: Frag) {
    f.msg < |ms| && p.seqNum == f.pos && p.msgSize == SizeField(ms, f) && p.data == f.data
  }

  ghost predicate AirOk(ms: seq<Msg>, h: seq<Frag>, air: set<Packet>) {
    forall p | p in air :: exists i :: 0 <= i < |h| && Carries(ms, p, h[i])
  }

  ghost predicate AcksOk(h: seq<Frag>, acks: set<U16>, c: nat) {
    forall a | a in acks :: exists e: nat :: e <= c && e <= |h| && a == Edge(h, e)
  }

  ghost predicate TxOk(s: Sys, tg: TxGhost) {
    && TxInv(s.tx, tg) && Settled(s.tx) && AllArmed(s.tx.fragments)
    && tg.msgs == s.given && tg.done == s.reported
  }

  ghost predicate RxOk(s: Sys, h: seq<Frag>, rg: RxGhost) {
    && RxInv(s.rx, s.given, h, rg) && BufferSuffices(s.rx, s.given)
    && rg.k <= |s.given| && s.delivered == s.given[..rg.k]
  }

  ghost predicate SysInv(s: Sys, tg: TxGhost, rg: RxGhost) {
    && TxOk(s, tg) && RxOk(s, tg.hist, rg)
    && s.rx.windowSize == s.tx.windowSize
    && AirOk(s.given, tg.hist, s.air)
    && AcksOk(tg.hist, s.acks, rg.c)
    && tg.base <= rg.c
  }

  // ------------------------------------------------ what growth leaves alone

  lemma EdgesOfPrefix(h: seq<Frag>, h': seq<Frag>)
    requires |h| <= |h'| && h'[..|h|] == h
    ensures forall i :: 0 <= i < |h| ==> h'[i] == h[i]
    ensures forall i :: 0 <= i <= |h| ==> Edge(h', i) == Edge(h, i)
  {
    forall i | 0 <= i < |h| ensures h'[i] == h[i] { assert h'[i] == h'[..|h|][i]; }
  }

  /** New fragments behind the known ones do not concern the receiver yet. */
  lemma RxInvGrowsTiling(st: Rx.RxState, ms: seq<Msg>, h: seq<Frag>, h': seq<Frag>, g: RxGhost)
    requires RxInv(st, ms, h, g) && |h| <= |h'| && h'[..|h|] == h && Tiles(ms, h')
    ensures RxInv(st, ms, h', g)
  {
    EdgesOfPrefix(h, h');
    assert Linked(ms, h', st.seqNum, g) by {
      forall x | x in g.ids && x < |ms| && (x == g.k ==> st.seqNum == Start(ms, x))
        ensures HeadPending(ms, h', g.fids, x)
      {
        assert HeadPending(ms, h, g.fids, x);
        var y :| y in g.fids && y < |h| && h[y].pos == Start(ms, x);
        assert h'[y].pos == Start(ms, x);
      }
      forall y | y in g.fids && y < |h'| && IsHead(ms, h'[y]) ensures h'[y].msg in g.ids {
        assert y < |h|;
      }
    }
  }

  lemma LinkedGrowsStream(ms: seq<Msg>, m: Msg, h: seq<Frag>, seqNum: int, g: RxGhost)
    requires Linked(ms, h, seqNum, g) && NonEmpty(ms) && Tiles(ms, h)
    requires forall x :: x in g.ids ==> x < |ms|
    ensures Linked(ms + [m], h, seqNum, g)
  {
    StartsAppend(ms, m);
    forall x | x in g.ids && x < |ms + [m]| && (x == g.k ==> seqNum == Start(ms + [m], x))
      ensures HeadPending(ms + [m], h, g.fids, x)
    {
      assert HeadPending(ms, h, g.fids, x);
    }
    forall y | y in g.fids && y < |h| && IsHead(ms + [m], h[y]) ensures h[y].msg in g.ids {
      assert Fits(ms, h[y]);
      assert IsHead(ms, h[y]);
    }
  }

  lemma PositionGrowsStream(ms: seq<Msg>, m: Msg, h: seq<Frag>, k: nat, c: nat)
    requires Tiles(ms, h) && c <= |h| && DoneAt(ms, k, Edge(h, c)) && m != []
    ensures DoneAt(ms + [m], k, Edge(h, c))
    ensures Partial(ms + [m], k, Edge(h, c)) == Partial(ms, k, Edge(h, c))
  {
    StartAppend(ms, m, k);
    if c > 0 { assert Fits(ms, h[c - 1]); BelowTotal(ms, h[c - 1]); }
  }

  /** A message added behind the others does not concern the receiver yet. */
  lemma RxInvGrowsStream(st: Rx.RxState, ms: seq<Msg>, m: Msg, h: seq<Frag>, g: RxGhost)
    requires RxInv(st, ms, h, g) && m != [] && Total(ms + [m]) + st.windowSize <= 0x10000
    ensures RxInv(st, ms + [m], h, g)
  {
    hide Linked, Partial, DoneAt;
    TilesAppendMsg(ms, m, h);
    StartsAppend(ms, m);
    PositionGrowsStream(ms, m, h, g.k, g.c);
    assert forall x :: x in g.ids ==> x < |ms|;
    LinkedGrowsStream(ms, m, h, st.seqNum, g);
    assert NonEmpty(ms + [m]);
    assert InfoList(ms + [m], st.infos, g.k, g.ids);
  }

  lemma AirGrows(ms: seq<Msg>, h: seq<Frag>, h': seq<Frag>, air: set<Packet>)
    requires AirOk(ms, h, air) && |h| <= |h'| && h'[..|h|] == h
    ensures AirOk(ms, h', air)
  {
    EdgesOfPrefix(h, h');
    forall p | p in air ensures exists i :: 0 <= i < |h'| && Carries(ms, p, h'[i]) {
      var i :| 0 <= i < |h| && Carries(ms, p, h[i]);
      assert Carries(ms, p, h'[i]);
    }
  }

  lemma AirGrowsStream(ms: seq<Msg>, m: Msg, h: seq<Frag>, air: set<Packet>)
    requires AirOk(ms, h, air) && Tiles(ms, h)
    ensures AirOk(ms + [m], h, air)
  {
    TilesAppendMsg(ms, m, h);
    forall p | p in air ensures exists i :: 0 <= i < |h| && Carries(ms + [m], p, h[i]) {
      var i :| 0 <= i < |h| && Carries(ms, p, h[i]);
      assert Carries(ms + [m], p, h[i]);
    }
  }

  lemma AcksGrow(h: seq<Frag>, h': seq<Frag>, acks: set<U16>, c: nat, c': nat)
    requires AcksOk(h, acks, c) && |h| <= |h'| && h'[..|h|] == h && c <= c'
    ensures AcksOk(h', acks, c')
  {
    EdgesOfPrefix(h, h');
    forall a | a in acks ensures exists e: nat :: e <= c' && e <= |h'| && a == Edge(h', e) {
      var e: nat :| e <= c && e <= |h| && a == Edge(h, e);
      assert a == Edge(h', e);
    }
  }

  // ------------------------------------------------------------- the steps

  lemma TxTiles(s: Sys, tg: TxGhost)
    requires TxOk(s, tg)
    ensures Tiles(s.given, tg.hist) && tg.base <= |tg.hist|
  {
  }

  lemma AddStep(s: Sys, tg: TxGhost, rg: RxGhost, m: Msg)
    requires SysInv(s, tg, rg) && Enabled(s, Add(m))
    ensures SysInv(Step(s, Add(m)), tg.(msgs := tg.msgs + [m]), rg)
  {
    hide TxInv, RxInv, AcksOk;
    AddInv(s.tx, tg, m);
    RxInvGrowsStream(s.rx, s.given, m, tg.hist, rg);
    TxTiles(s, tg);
    AirGrowsStream(s.given, m, tg.hist, s.air);
    assert (s.given + [m])[..rg.k] == s.given[..rg.k];
  }

  lemma SentCarries(ms: seq<Msg>, h: seq<Frag>, g: TxGhost, f: TxFrag) returns (i: nat)
    requires exists i :: g.base <= i < |h| && Image(ms, h[i], f)
    requires Tiles(ms, h) && NonEmpty(ms) && Total(ms) < 0x10000
    ensures i < |h| && Carries(ms, PacketOf(f), h[i])
  {
    i :| g.base <= i < |h| && Image(ms, h[i], f);
    assert Fits(ms, h[i]);
    BelowTotal(ms, h[i]);
  }

  /** What was written comes from the tiling, so it may go on the air. */
  lemma SentOnAir(ms: seq<Msg>, h: seq<Frag>, g: TxGhost, out: seq<TxFrag>, air: set<Packet>)
    requires AirOk(ms, h, air) && FromTiling(g, out) && g.hist == h && g.msgs == ms
    requires Tiles(ms, h) && NonEmpty(ms) && Total(ms) < 0x10000
    ensures AirOk(ms, h, air + PacketsOf(out))
  {
    forall p | p in air + PacketsOf(out) ensures exists i :: 0 <= i < |h| && Carries(ms, p, h[i]) {
      if p !in air {
        var f :| f in out && PacketOf(f) == p;
        var i := SentCarries(ms, h, g, f);
      }
    }
  }

  lemma SendStep(s: Sys, tg: TxGhost, rg: RxGhost) returns (tg': TxGhost)
    requires SysInv(s, tg, rg)
    ensures SysInv(Step(s, Send), tg', rg)
  {
    hide TxInv, RxInv, AcksOk, AirOk, GetWriteData, FromTiling;
    tg' := GetWriteDataInv(s.tx, tg);
    var w := GetWriteData(s.tx);
    TxTiles(s.(tx := w.st), tg');
    StreamFits(s, tg, rg);
    RxInvGrowsTiling(s.rx, s.given, tg.hist, tg'.hist, rg);
    AirGrows(s.given, tg.hist, tg'.hist, s.air);
    if w.raised {
      assert s.air + {} == s.air;
    } else {
      SentOnAir(s.given, tg'.hist, tg', w.data, s.air);
    }
    AcksGrow(tg.hist, tg'.hist, s.acks, rg.c, rg.c);
  }

  /** Positions stay below 2^16 throughout. */
  lemma StreamFits(s: Sys, tg: TxGhost, rg: RxGhost)
    requires SysInv(s, tg, rg)
    ensures NonEmpty(s.given) && 0 < s.tx.windowSize && Total(s.given) + s.tx.windowSize <= 0x10000
  {
  }

  /** A packet on the air is a fragment of the tiling, received as such. */
  lemma ReceivesFragment(s: Sys, tg: TxGhost, rg: RxGhost, p: Packet) returns (i: nat)
    requires SysInv(s, tg, rg) && p in s.air
    ensures i < |tg.hist| && tg.hist[i].msg < |s.given| && tg.hist[i].pos < 0x10000
    ensures |s.given[tg.hist[i].msg]| < 0x10000 && Carries(s.given, p, tg.hist[i])
    ensures var d := Deliver(s.rx, s.given, tg.hist[i]);
            Receive(s.rx, p) == Received(d.st, d.status, d.msgs, d.ok)
  {
    hide TxInv, Agrees, Rx.Handle, Rx.Drain;
    i :| 0 <= i < |tg.hist| && Carries(s.given, p, tg.hist[i]);
    MessageSize(s.given, tg.hist, s.rx.windowSize, i);
  }

  lemma AckEmitted(h: seq<Frag>, acks: set<U16>, c: nat, a: U16)
    requires AcksOk(h, acks, c) && c <= |h| && a == Edge(h, c)
    ensures AcksOk(h, acks + {a}, c)
  {
  }

  lemma ArriveStep(s: Sys, tg: TxGhost, rg: RxGhost, p: Packet) returns (rg': RxGhost)
    requires SysInv(s, tg, rg) && p in s.air
    ensures SysInv(Step(s, Arrive(p)), tg, rg')
    ensures Receive(s.rx, p).ok && Receive(s.rx, p).status != Rx.OutOfRange
    ensures rg.c <= rg'.c && rg.k <= rg'.k
    ensures Step(s, Arrive(p)).rx != s.rx ==> |rg'.ids| + rg'.k - rg.k <= s.rx.slots
  {
    hide TxInv, RxInv, AcksOk, AirOk, Receive, Deliver;
    var i := ReceivesFragment(s, tg, rg, p);
    rg' := DeliverInv(s.rx, s.given, tg.hist, rg, i);
    var r := Receive(s.rx, p);
    assert s.given[..rg.k] + s.given[rg.k..rg'.k] == s.given[..rg'.k];
    RxAtEdge(r.rx, s.given, tg.hist, rg');
    AcksGrow(tg.hist, tg.hist, s.acks, rg.c, rg'.c);
    AckEmitted(tg.hist, s.acks, rg'.c, r.rx.seqNum);
  }

  lemma RxAtEdge(rx: Rx.RxState, ms: seq<Msg>, h: seq<Frag>, g: RxGhost)
    requires RxInv(rx, ms, h, g)
    ensures g.c <= |h| && rx.seqNum == Edge(h, g.c) && DoneAt(ms, g.k, Edge(h, g.c))
  {
  }

  /** Distinct boundaries of the tiling are distinct numbers. */
  lemma EdgeInjective(ms: seq<Msg>, h: seq<Frag>, i: nat, j: nat)
    requires Tiles(ms, h) && i <= |h| && j <= |h| && Edge(h, i) == Edge(h, j)
    ensures i == j
  {
    if i < j {
      EdgeMonotone(ms, h, i, j);
      EdgeGrows(ms, h, i);
    } else if j < i {
      EdgeMonotone(ms, h, j, i);
      EdgeGrows(ms, h, j);
    }
  }

  lemma EdgeGrows(ms: seq<Msg>, h: seq<Frag>, i: nat)
    requires Tiles(ms, h) && i < |h|
    ensures Edge(h, i) < h[i].End()
  {
    assert Fits(ms, h[i]);
  }

  lemma EdgeBelowTotal(ms: seq<Msg>, h: seq<Frag>, i: nat)
    requires Tiles(ms, h) && i <= |h|
    ensures Edge(h, i) <= Total(ms)
  {
    if i > 0 { assert Fits(ms, h[i - 1]); BelowTotal(ms, h[i - 1]); }
  }

  /** The boundary an acknowledgement names is the one it is taken for. */
  lemma AckNames(tx: TxState, tg: TxGhost, n: U16, k: nat, e: nat)
    requires Window(tx, tg) && Outstanding(tx, tg) && Total(tg.msgs) < 0x10000
    requires 0 < k <= |tx.fragments| && tx.fragments[k - 1].End() == n
    requires e <= |tg.hist| && n == Edge(tg.hist, e)
    ensures tg.base + k == e
  {
    FragEnd(tx, tg, k - 1);
    EdgeBelowTotal(tg.msgs, tg.hist, tg.base + k);
    EdgeInjective(tg.msgs, tg.hist, tg.base + k, e);
  }

  lemma TxParts(s: Sys, tg: TxGhost)
    requires TxOk(s, tg)
    ensures Queue(s.tx, tg) && Window(s.tx, tg) && Outstanding(s.tx, tg)
  {
  }

  /** The sender never takes more as acknowledged than the tag has consumed. */
  lemma AckStep(s: Sys, tg: TxGhost, rg: RxGhost, n: U16) returns (tg': TxGhost)
    requires SysInv(s, tg, rg) && n in s.acks
    ensures SysInv(Step(s, Ack(n)), tg', rg)
    ensures tg'.base >= tg.base
  {
    hide RxInv, AirOk, HandleAck, TxInv, Window, Outstanding, TxFrag.End;
    tg' := HandleAckTotal(s.tx, tg, n);
    if Acknowledges(s.tx, n) {
      StreamFits(s, tg, rg);
      TxParts(s, tg);
      var e: nat :| e <= rg.c && e <= |tg.hist| && n == Edge(tg.hist, e);
      AckNames(s.tx, tg, n, tg'.base - tg.base, e);
    }
  }

  // -------------------------------------------------------------- the runs

  lemma StepInv(s: Sys, tg: TxGhost, rg: RxGhost, a: Action) returns (tg': TxGhost, rg': RxGhost)
    requires SysInv(s, tg, rg) && Enabled(s, a)
    ensures SysInv(Step(s, a), tg', rg')
  {
    hide TxInv, RxInv, AirOk, AcksOk, GetWriteData, HandleAck, Receive;
    tg', rg' := tg, rg;
    match a
    case Add(m) => AddStep(s, tg, rg, m); tg' := tg.(msgs := tg.msgs + [m]);
    case Send => tg' := SendStep(s, tg, rg);
    case Arrive(p) => rg' := ArriveStep(s, tg, rg, p);
    case Ack(n) => tg' := AckStep(s, tg, rg, n);
    case _ => LocalStep(s, tg, rg, a);
  }

  /** Control packets, timeouts and size changes leave the tiling as it is. */
  lemma LocalStep(s: Sys, tg: TxGhost, rg: RxGhost, a: Action)
    requires SysInv(s, tg, rg) && (a.Control? || a.Expire? || a.Resize?)
    ensures SysInv(Step(s, a), tg, rg)
  {
    hide RxInv, AirOk, AcksOk;
    if a.Expire? && a.index < |s.tx.fragments| {
      FlagsInv(s.tx, tg, a.index, s.tx.fragments[a.index].(needSend := true));
    }
  }

  lemma {:induction false} RunInv(s: Sys, tg: TxGhost, rg: RxGhost, acts: seq<Action>)
    returns (tg': TxGhost, rg': RxGhost)
    requires SysInv(s, tg, rg) && Legal(s, acts)
    ensures SysInv(Run(s, acts), tg', rg')
    decreases |acts|
  {
    hide SysInv, Enabled, Step;
    tg', rg' := tg, rg;
    if acts != [] {
      var tg1, rg1 := StepInv(s, tg, rg, acts[0]);
      tg', rg' := RunInv(Step(s, acts[0]), tg1, rg1, acts[1..]);
    }
  }

  lemma BeginInv(writeSize: nat, windowSize: nat, checksum: bool, slots: nat, capacity: nat)
    requires 0 < windowSize < 0x10000
    ensures SysInv(Begin(writeSize, windowSize, checksum, slots, capacity),
                   TxGhost([], 0, [], 0, 0), RxGhost(0, 0, [], []))
  {
  }

  /** Sequence number of the next byte never sent. */
  function Next(tx: TxState): int { tx.msgBegin + tx.msgFragmented }

  lemma TxReported(s: Sys, tg: TxGhost)
    requires TxOk(s, tg) && Total(s.given) < 0x10000
    ensures Tiles(s.given, tg.hist) && tg.base <= |tg.hist| && s.tx.seqNum == Edge(tg.hist, tg.base)
    ensures DoneAt(s.given, s.reported, s.tx.seqNum)
  {
    EdgeBelowTotal(s.given, tg.hist, tg.base);
  }

  /** Of two positions the later has at least as many messages below it. */
  lemma DoneMonotone(ms: seq<Msg>, j: nat, k: nat, a: int, b: int)
    requires DoneAt(ms, j, a) && DoneAt(ms, k, b) && a <= b
    ensures j <= k
  {
    if k < j { StartMonotone(ms, k, j); }
  }

  lemma Prefixes(s: Sys, tg: TxGhost, rg: RxGhost)
    requires SysInv(s, tg, rg)
    ensures s.delivered <= s.given && s.reported <= |s.delivered|
    ensures DoneAt(s.given, |s.delivered|, s.rx.seqNum) && DoneAt(s.given, s.reported, s.tx.seqNum)
  {
    hide TxOk, RxInv, DoneAt, AirOk, AcksOk;
    StreamFits(s, tg, rg);
    TxReported(s, tg);
    RxAtEdge(s.rx, s.given, tg.hist, rg);
    EdgeMonotone(s.given, tg.hist, tg.base, rg.c);
    DoneMonotone(s.given, s.reported, rg.k, s.tx.seqNum, s.rx.seqNum);
  }

  /** On the sender's side, 16-bit numbers are the positions themselves. */
  lemma TxNumbers(tx: TxState, tg: TxGhost)
    requires Queue(tx, tg) && Window(tx, tg) && Total(tg.msgs) < 0x10000
    ensures tx.seqNum == Edge(tg.hist, tg.base)
    ensures Next(tx) == Edge(tg.hist, |tg.hist|) <= tx.seqNum + tx.windowSize
  {
    EdgeBelowTotal(tg.msgs, tg.hist, tg.base);
    StartMonotone(tg.msgs, tg.cur, |tg.msgs|);
  }

  lemma Numbers(s: Sys, tg: TxGhost, rg: RxGhost)
    requires SysInv(s, tg, rg)
    ensures tg.base <= rg.c <= |tg.hist|
    ensures s.tx.seqNum == Edge(tg.hist, tg.base) && s.rx.seqNum == Edge(tg.hist, rg.c)
    ensures Next(s.tx) == Edge(tg.hist, |tg.hist|) <= s.tx.seqNum + s.tx.windowSize
    ensures s.tx.seqNum <= s.rx.seqNum <= Next(s.tx)
  {
    hide RxInv, AirOk, AcksOk, Window, Outstanding, Queue;
    TxTiles(s, tg);
    TxParts(s, tg);
    StreamFits(s, tg, rg);
    RxAtEdge(s.rx, s.given, tg.hist, rg);
    TxNumbers(s.tx, tg);
    EdgeMonotone(s.given, tg.hist, tg.base, rg.c);
    EdgeMonotone(s.given, tg.hist, rg.c, |tg.hist|);
  }

  /** A fragment inside the sender's window passes the tag's test exactly while it is not consumed. */
  lemma TestPasses(rx: Rx.RxState, ms: seq<Msg>, h: seq<Frag>, c: nat, i: nat)
    requires Setting(ms, h, rx.windowSize) && c <= |h| && rx.seqNum == Edge(h, c) && i < |h|
    requires Edge(h, |h|) <= rx.seqNum + rx.windowSize
    ensures h[i].End() <= Edge(h, |h|) && h[i].pos < 0x10000
    ensures Rx.InWindow(rx, h[i].pos, |h[i].data|) <==> rx.seqNum <= h[i].pos
  {
    hide Rx.InWindow;
    WindowTest(rx, ms, h, c, i);
    EdgeMonotone(ms, h, i + 1, |h|);
    assert Fits(ms, h[i]);
    if c <= i { EdgeMonotone(ms, h, c, i); } else { EdgeMonotone(ms, h, i + 1, c); }
  }

  lemma PassesWindow(s: Sys, tg: TxGhost, rg: RxGhost, p: Packet)
    requires SysInv(s, tg, rg) && p in s.air
    ensures p.seqNum + |p.data| <= Next(s.tx)
    ensures Rx.InWindow(s.rx, p.seqNum, |p.data|) <==> s.rx.seqNum <= p.seqNum
  {
    hide TxInv, Rx.InWindow, AcksOk, Deliver, Receive;
    Numbers(s, tg, rg);
    var i := ReceivesFragment(s, tg, rg, p);
    TestPasses(s.rx, s.given, tg.hist, rg.c, i);
  }

  /** An acknowledgement on its way is a boundary: of an outstanding fragment, or one passed already. */
  lemma AckIsBoundary(s: Sys, tg: TxGhost, rg: RxGhost, a: U16)
    requires SysInv(s, tg, rg) && a in s.acks
    ensures a <= s.rx.seqNum
    ensures Acknowledges(s.tx, a) <==> s.tx.seqNum < a
  {
    hide RxInv, AirOk, TxInv, Window, Outstanding, Queue, TxFrag.End;
    Numbers(s, tg, rg);
    StreamFits(s, tg, rg);
    TxTiles(s, tg);
    TxParts(s, tg);
    var e: nat :| e <= rg.c && e <= |tg.hist| && a == Edge(tg.hist, e);
    EdgeMonotone(s.given, tg.hist, e, rg.c);
    if e <= tg.base {
      EdgeMonotone(s.given, tg.hist, e, tg.base);
      forall i | 0 <= i < |s.tx.fragments| ensures s.tx.fragments[i].End() != Wrap(a) {
        if s.tx.fragments[i].End() == a { AckNames(s.tx, tg, a, i + 1, e); }
      }
    } else {
      FragEnd(s.tx, tg, e - tg.base - 1);
      EdgeMonotone(s.given, tg.hist, tg.base, e - 1);
      EdgeGrows(s.given, tg.hist, e - 1);
    }
  }

  /**
   * Safety of the downlink: whatever the channel does and however sizes and
   * timers change, the messages handed out on the tag are at every moment a
   * byte-exact prefix of those given to the server: exactly those wholly
   * below the tag's sequence number.  Every message reported as sent has been
   * handed out, and those are exactly the ones wholly acknowledged.
   */
  lemma DownlinkSafety(writeSize: nat, windowSize: nat, checksum: bool, slots: nat, capacity: nat, acts: seq<Action>)
    requires 0 < windowSize < 0x10000
    requires Legal(Begin(writeSize, windowSize, checksum, slots, capacity), acts)
    ensures var s := Run(Begin(writeSize, windowSize, checksum, slots, capacity), acts);
            && s.delivered <= s.given && DoneAt(s.given, |s.delivered|, s.rx.seqNum)
            && s.reported <= |s.delivered| && DoneAt(s.given, s.reported, s.tx.seqNum)
  {
    hide SysInv;
    var s := Begin(writeSize, windowSize, checksum, slots, capacity);
    BeginInv(writeSize, windowSize, checksum, slots, capacity);
    var tg, rg := RunInv(s, TxGhost([], 0, [], 0, 0), RxGhost(0, 0, [], []), acts);
    Prefixes(Run(s, acts), tg, rg);
  }

  /**
   * The joint window: acknowledged, received and sent positions never cross,
   * so a sent fragment passes the tag's window test exactly while it is not
   * consumed, and an ack is a fragment boundary the sender acts on exactly
   * when it is news.
   */
  lemma JointWindow(writeSize: nat, windowSize: nat, checksum: bool, slots: nat, capacity: nat, acts: seq<Action>)
    requires 0 < windowSize < 0x10000
    requires Legal(Begin(writeSize, windowSize, checksum, slots, capacity), acts)
    ensures var s := Run(Begin(writeSize, windowSize, checksum, slots, capacity), acts);
            && s.tx.seqNum <= s.rx.seqNum <= Next(s.tx) <= s.tx.seqNum + s.tx.windowSize
            && (forall p | p in s.air :: p.seqNum + |p.data| <= Next(s.tx))
            && (forall p | p in s.air :: Rx.InWindow(s.rx, p.seqNum, |p.data|) <==> s.rx.seqNum <= p.seqNum)
            && (forall a | a in s.acks :: a <= s.rx.seqNum)
            && (forall a | a in s.acks :: Acknowledges(s.tx, a) <==> s.tx.seqNum < a)
  {
    hide SysInv, Rx.InWindow, Acknowledges;
    var s0 := Begin(writeSize, windowSize, checksum, slots, capacity);
    BeginInv(writeSize, windowSize, checksum, slots, capacity);
    var tg, rg := RunInv(s0, TxGhost([], 0, [], 0, 0), RxGhost(0, 0, [], []), acts);
    var s := Run(s0, acts);
    Numbers(s, tg, rg);
    forall p | p in s.air
      ensures p.seqNum + |p.data| <= Next(s.tx)
      ensures Rx.InWindow(s.rx, p.seqNum, |p.data|) <==> s.rx.seqNum <= p.seqNum
    {
      PassesWindow(s, tg, rg, p);
    }
    forall a | a in s.acks ensures a <= s.rx.seqNum && (Acknowledges(s.tx, a) <==> s.tx.seqNum < a) {
      AckIsBoundary(s, tg, rg, a);
    }
  }

  /** In no run does a write to the tag's message buffer fail, or the receive loop find too little to read. */
  lemma NoWriteFails(writeSize: nat, windowSize: nat, checksum: bool, slots: nat, capacity: nat,
                     acts: seq<Action>, p: Packet)
    requires 0 < windowSize < 0x10000
    requires Legal(Begin(writeSize, windowSize, checksum, slots, capacity), acts)
    requires p in Run(Begin(writeSize, windowSize, checksum, slots, capacity), acts).air
    ensures var r := Receive(Run(Begin(writeSize, windowSize, checksum, slots, capacity), acts).rx, p);
            r.ok && r.status != Rx.OutOfRange
  {
    hide SysInv, Receive;
    var s := Begin(writeSize, windowSize, checksum, slots, capacity);
    BeginInv(writeSize, windowSize, checksum, slots, capacity);
    var tg, rg := RunInv(s, TxGhost([], 0, [], 0, 0), RxGhost(0, 0, [], []), acts);
    var rg' := ArriveStep(Run(s, acts), tg, rg, p);
  }

  /** One ack at the tag's position brings the sender there. */
  lemma AckBringsSender(s: Sys, tg: TxGhost, rg: RxGhost) returns (tg': TxGhost)
    requires SysInv(s, tg, rg) && s.rx.seqNum in s.acks
    ensures var t := Step(s, Ack(s.rx.seqNum)); SysInv(t, tg', rg) && t.tx.seqNum == s.rx.seqNum
  {
    hide RxInv, AirOk, AcksOk, TxInv, HandleAck, Window, Outstanding, Queue;
    tg' := AckStep(s, tg, rg, s.rx.seqNum);
    Numbers(s, tg, rg);
    AckIsBoundary(s, tg, rg, s.rx.seqNum);
    var g := HandleAckTotal(s.tx, tg, s.rx.seqNum);
  }

  /**
   * Whatever was lost before: after any arrival the tag's ack is on its way,
   * and if it gets through, the sender stands where the tag stands, and has
   * reported exactly the messages handed out.
   */
  lemma AckCatchesUp(writeSize: nat, windowSize: nat, checksum: bool, slots: nat, capacity: nat,
                     acts: seq<Action>, p: Packet)
    requires 0 < windowSize < 0x10000
    requires Legal(Begin(writeSize, windowSize, checksum, slots, capacity), acts)
    requires p in Run(Begin(writeSize, windowSize, checksum, slots, capacity), acts).air
    ensures var s := Step(Run(Begin(writeSize, windowSize, checksum, slots, capacity), acts), Arrive(p));
            var t := Step(s, Ack(s.rx.seqNum));
            && s.rx.seqNum in s.acks && t.tx.seqNum == t.rx.seqNum == s.rx.seqNum
            && t.delivered == s.delivered && t.reported == |t.delivered|
  {
    hide SysInv, Receive, HandleAck, Run, DoneAt;
    var s0 := Begin(writeSize, windowSize, checksum, slots, capacity);
    BeginInv(writeSize, windowSize, checksum, slots, capacity);
    var tg, rg := RunInv(s0, TxGhost([], 0, [], 0, 0), RxGhost(0, 0, [], []), acts);
    var rg' := ArriveStep(Run(s0, acts), tg, rg, p);
    var s := Step(Run(s0, acts), Arrive(p));
    var tg' := AckBringsSender(s, tg, rg');
    var t := Step(s, Ack(s.rx.seqNum));
    Prefixes(t, tg', rg');
    DoneMonotone(t.given, t.reported, |t.delivered|, t.tx.seqNum, t.rx.seqNum);
    DoneMonotone(t.given, |t.delivered|, t.reported, t.rx.seqNum, t.tx.seqNum);
  }

  /** What an action is to the sender. */
  function SenderOps(acts: seq<Action>): seq<TxRuns.TxOp> {
    if acts == [] then [] else
    (match acts[0]
     case Add(m) => [TxRuns.Add(m)]
     case Control(c) => [TxRuns.Control(c)]
     case Expire(i) => [TxRuns.Expire(i)]
     case Resize(n) => [TxRuns.Resize(n)]
     case Send => [TxRuns.Write]
     case Arrive(_) => []
     case Ack(n) => [TxRuns.Ack(n)])
    + SenderOps(acts[1..])
  }

  /** The sender of every run of the downlink goes through the run of just its own operations. */
  lemma {:induction false} DownlinkDrivesSender(s: Sys, r: TxRuns.TxRun, acts: seq<Action>)
    requires r.st == s.tx && r.msgs == s.given && r.reported == s.reported
    ensures var r' := TxRuns.Run(r, SenderOps(acts));
            r'.st == Run(s, acts).tx && r'.msgs == Run(s, acts).given && r'.reported == Run(s, acts).reported
    decreases |acts|
  {
    hide GetWriteData, HandleAck, Receive;
    if acts != [] {
      var t := Step(s, acts[0]);
      if acts[0].Arrive? {
        assert SenderOps(acts) == SenderOps(acts[1..]);
        DownlinkDrivesSender(t, r, acts[1..]);
      } else {
        var ops := SenderOps(acts);
        assert ops[1..] == SenderOps(acts[1..]);
        DownlinkDrivesSender(t, TxRuns.Step(r, ops[0]), acts[1..]);
      }
    }
  }
}
