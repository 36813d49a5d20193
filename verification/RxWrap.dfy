/**
 * The tag's receive control past the wrap of the 16-bit sequence numbers: the
 * list insertions (client/wtp/wtp/transmission.c) compare them as they are.
 */
module RxWrap {
  import opened Base
  import opened Cyclic
  import opened Stream
  import opened RxSpec
  import Downlink

  // ---------------------------------------------------- where insertion works

  /** A multiple of 2^16 lies strictly inside the interval. */
  ghost predicate WrapsInside(lo: int, hi: int) { exists q: int :: lo < q * 0x10000 < hi }

  /** Absolute positions in [lo, hi), in order and apart by at least the sizes. */
  ghost predicate Apart(xs: seq<int>, sizes: seq<nat>, lo: int, hi: int) {
    && |xs| == |sizes|
    && (forall j :: 0 <= j < |xs| ==> lo <= xs[j] && xs[j] + sizes[j] <= hi && 0 < sizes[j])
    && (forall i, j :: 0 <= i < j < |xs| ==> xs[i] + sizes[i] <= xs[j])
  }

  /** The place of y: behind everything that ends at or below it, before everything that begins at or beyond its end. */
  ghost predicate PlaceOf(xs: seq<int>, sizes: seq<nat>, y: int, size: nat, p: nat) {
    && |xs| == |sizes| && p <= |xs|
    && (forall j :: 0 <= j < p ==> xs[j] + sizes[j] <= y)
    && (forall j :: p <= j < |xs| ==> y + size <= xs[j])
  }

  ghost predicate PendingAt(frags: seq<RxFrag>, xs: seq<int>, sizes: seq<nat>) {
    && |frags| == |xs| == |sizes|
    && forall j :: 0 <= j < |frags| ==> frags[j].seqNum == Wrap(xs[j]) && |frags[j].data| == sizes[j]
  }

  ghost predicate DeclaredAt(infos: seq<Info>, xs: seq<int>, sizes: seq<nat>) {
    && |infos| == |xs| == |sizes|
    && forall j :: 0 <= j < |infos| ==> infos[j].begin == Wrap(xs[j])
  }

  /** Every fragment in the interval is stored in its place among any pending ones it is apart from. */
  ghost predicate StoresInPlace(lo: int, hi: int) {
    forall st: RxState, xs: seq<int>, sizes: seq<nat>, y: int, data: seq<byte>, p: nat ::
      Apart(xs, sizes, lo, hi) && PendingAt(st.frags, xs, sizes) && lo <= y && y + |data| <= hi && data != []
      && PlaceOf(xs, sizes, y, |data|, p) ==>
      Store(st, Wrap(y), data) == Changed(st.(frags := InsertAt(st.frags, p, RxFrag(Wrap(y), data))), Ok)
  }

  /** Every message in the interval is declared in its place, room permitting. */
  ghost predicate DeclaresInPlace(lo: int, hi: int) {
    forall st: RxState, xs: seq<int>, sizes: seq<nat>, y: int, size: U16, p: nat ::
      Apart(xs, sizes, lo, hi) && DeclaredAt(st.infos, xs, sizes) && lo <= y && y + size <= hi && 0 < size
      && PlaceOf(xs, sizes, y, size, p) && |st.infos| < st.slots ==>
      Declare(st, Wrap(y), size) == Changed(st.(infos := InsertAt(st.infos, p, Info(Wrap(y), size))), Ok)
  }

  /** Within the interval numbers are ordered as positions are. */
  lemma OrderKept(lo: int, hi: int, x: int, y: int)
    requires !WrapsInside(lo, hi) && lo <= x < y < hi
    ensures Wrap(x) < Wrap(y)
  {
    var q := y / 0x10000;
    assert !(lo < q * 0x10000 < hi);
  }

  /** An end is a number like a begin, or comes at the end of the interval. */
  lemma EndKept(lo: int, hi: int, y: int, size: nat, x: int)
    requires !WrapsInside(lo, hi) && lo <= y && 0 < size && y + size <= x < hi
    ensures Wrap(Wrap(y) + size) <= Wrap(x)
  {
    WrapAdd(y, size);
    if y + size < x { OrderKept(lo, hi, y + size, x); }
  }

  lemma StoredInPlace(lo: int, hi: int, st: RxState, xs: seq<int>, sizes: seq<nat>, y: int, data: seq<byte>, p: nat)
    requires !WrapsInside(lo, hi) && Apart(xs, sizes, lo, hi) && PendingAt(st.frags, xs, sizes)
    requires lo <= y && y + |data| <= hi && data != [] && PlaceOf(xs, sizes, y, |data|, p)
    ensures Store(st, Wrap(y), data) == Changed(st.(frags := InsertAt(st.frags, p, RxFrag(Wrap(y), data))), Ok)
  {
    hide Wrap, WrapsInside, InsertAt;
    var p' := FragPos(st.frags, Wrap(y), 0);
    if p' < p { OrderKept(lo, hi, xs[p'], y); }
    if p < p' { OrderKept(lo, hi, y, xs[p]); }
    if p < |xs| { EndKept(lo, hi, y, |data|, xs[p]); }
  }

  lemma DeclaredInPlace(lo: int, hi: int, st: RxState, xs: seq<int>, sizes: seq<nat>, y: int, size: U16, p: nat)
    requires !WrapsInside(lo, hi) && Apart(xs, sizes, lo, hi) && DeclaredAt(st.infos, xs, sizes)
    requires lo <= y && y + size <= hi && 0 < size && PlaceOf(xs, sizes, y, size, p) && |st.infos| < st.slots
    ensures Declare(st, Wrap(y), size) == Changed(st.(infos := InsertAt(st.infos, p, Info(Wrap(y), size))), Ok)
  {
    hide Wrap, WrapsInside, InsertAt;
    var p' := InfoPos(st.infos, Wrap(y), 0);
    if p' < p { OrderKept(lo, hi, xs[p'], y); }
    if p < p' { OrderKept(lo, hi, y, xs[p]); }
    if p < |xs| { EndKept(lo, hi, y, size, xs[p]); }
  }

  lemma AroundMultiple(q: int)
    ensures Wrap(q * 0x10000) == 0 && Wrap(q * 0x10000 - 1) == 0xFFFF
  {
  }

  /** The byte before the wrap is put behind the byte after it. */
  lemma MisplacedFragment(lo: int, hi: int, q: int, data: seq<byte>)
    requires lo < q * 0x10000 < hi && |data| == 1
    ensures !StoresInPlace(lo, hi)
  {
    hide InsertAt, Store, Wrap;
    var m := q * 0x10000;
    AroundMultiple(q);
    var st := RxState(0, [Info(0, 1)], [RxFrag(0, data)], [], 64, 2, 100);
    var xs: seq<int>, sizes: seq<nat> := [m], [1];
    assert Apart(xs, sizes, lo, hi) && PendingAt(st.frags, xs, sizes) && PlaceOf(xs, sizes, m - 1, 1, 0);
    StoredBehind(st, data);
  }

  lemma MisplacedMessage(lo: int, hi: int, q: int, data: seq<byte>)
    requires lo < q * 0x10000 < hi && |data| == 1
    ensures !DeclaresInPlace(lo, hi)
  {
    hide InsertAt, Declare, Wrap;
    var m := q * 0x10000;
    AroundMultiple(q);
    var st := RxState(0, [Info(0, 1)], [RxFrag(0, data)], [], 64, 2, 100);
    var xs: seq<int>, sizes: seq<nat> := [m], [1];
    assert Apart(xs, sizes, lo, hi) && DeclaredAt(st.infos, xs, sizes) && PlaceOf(xs, sizes, m - 1, 1, 0);
    StoredBehind(st, data);
  }

  lemma StoredBehind(st: RxState, data: seq<byte>)
    requires st.frags == [RxFrag(0, data)] && st.infos == [Info(0, 1)] && |data| == 1 && st.slots == 2
    ensures Store(st, 0xFFFF, data).st.frags != InsertAt(st.frags, 0, RxFrag(0xFFFF, data))
    ensures Declare(st, 0xFFFF, 1).st.infos != InsertAt(st.infos, 0, Info(0xFFFF, 1))
  {
    assert FragPos(st.frags, 0xFFFF, 0) == 1 && InfoPos(st.infos, 0xFFFF, 0) == 1;
    assert InsertAt(st.frags, 0, RxFrag(0xFFFF, data))[0].seqNum == 0xFFFF;
    assert InsertAt(st.frags, 1, RxFrag(0xFFFF, data))[0].seqNum == 0;
    assert InsertAt(st.infos, 0, Info(0xFFFF, 1))[0].begin == 0xFFFF;
    assert InsertAt(st.infos, 1, Info(0xFFFF, 1))[0].begin == 0;
  }

  /**
   * Where the list insertions are right, exactly: whatever is pending or
   * declared, everything in an interval of positions goes to its place if and
   * only if no multiple of 2^16 lies strictly inside the interval.
   */
  lemma InsertionExact(lo: int, hi: int)
    ensures StoresInPlace(lo, hi) <==> !WrapsInside(lo, hi)
    ensures DeclaresInPlace(lo, hi) <==> !WrapsInside(lo, hi)
  {
    hide Store, Declare, Apart, InsertAt, Wrap;
    if WrapsInside(lo, hi) {
      var q :| lo < q * 0x10000 < hi;
      MisplacedFragment(lo, hi, q, [0]);
      MisplacedMessage(lo, hi, q, [0]);
    } else {
      forall st: RxState, xs: seq<int>, sizes: seq<nat>, y: int, data: seq<byte>, p: nat |
        Apart(xs, sizes, lo, hi) && PendingAt(st.frags, xs, sizes) && lo <= y && y + |data| <= hi && data != []
        && PlaceOf(xs, sizes, y, |data|, p)
        ensures Store(st, Wrap(y), data) == Changed(st.(frags := InsertAt(st.frags, p, RxFrag(Wrap(y), data))), Ok)
      {
        StoredInPlace(lo, hi, st, xs, sizes, y, data, p);
      }
      forall st: RxState, xs: seq<int>, sizes: seq<nat>, y: int, size: U16, p: nat |
        Apart(xs, sizes, lo, hi) && DeclaredAt(st.infos, xs, sizes) && lo <= y && y + size <= hi && 0 < size
        && PlaceOf(xs, sizes, y, size, p) && |st.infos| < st.slots
        ensures Declare(st, Wrap(y), size) == Changed(st.(infos := InsertAt(st.infos, p, Info(Wrap(y), size))), Ok)
      {
        DeclaredInPlace(lo, hi, st, xs, sizes, y, size, p);
      }
    }
  }

  // ---------------------------------------------------- how far the window test holds

  /** With everything below pos consumed, nothing consumed passes the window test. */
  ghost predicate RejectsConsumed(st: RxState, pos: nat) {
    forall x: nat, size: nat :: 0 < size && x + size <= pos ==> !InWindow(st, Wrap(x), size)
  }

  /**
   * How long a stream the window test can tell old packets from new ones,
   * exactly: as long as the position is at most 2^16 minus the window.
   */
  lemma WindowTestReach(st: RxState, pos: nat)
    requires 0 < st.windowSize < 0x10000 && st.seqNum == Wrap(pos)
    ensures RejectsConsumed(st, pos) <==> pos + st.windowSize <= 0x10000
  {
    if pos + st.windowSize <= 0x10000 {
      forall x: nat, size: nat | 0 < size && x + size <= pos ensures !InWindow(st, Wrap(x), size) {
        ConsumedRejected(st, pos, x, size);
      }
    } else {
      var x := if pos < 0x10000 then 0 else pos - 0x10000;
      AcceptedAgain(st, pos, x);
      assert x + 1 <= pos && 0 < 1;
    }
  }

  lemma ConsumedRejected(st: RxState, pos: nat, x: nat, size: nat)
    requires st.seqNum == Wrap(pos) && 0 < size && x + size <= pos && pos + st.windowSize <= 0x10000
    requires 0 < st.windowSize
    ensures !InWindow(st, Wrap(x), size)
  {
    assert Wrap(x - pos) == 0x10000 - (pos - x);
  }

  /** Past that position, one byte once consumed passes again. */
  lemma AcceptedAgain(st: RxState, pos: nat, x: nat)
    requires 0 < st.windowSize < 0x10000 && st.seqNum == Wrap(pos) && pos + st.windowSize > 0x10000
    requires x == if pos < 0x10000 then 0 else pos - 0x10000
    ensures InWindow(st, Wrap(x), 1)
  {
    assert Wrap(Wrap(x) - Wrap(pos)) == Wrap(x - pos);
  }

  // ---------------------------------------------------------------- a real run

  datatype Trace = Trace(rx: RxState, delivered: seq<Msg>)

  /** Packets arriving one after the other. */
  function ReceiveAll(t: Trace, ps: seq<Downlink.Packet>): Trace
    decreases |ps|
  {
    if ps == [] then t else
    var r := Downlink.Receive(t.rx, ps[0]);
    ReceiveAll(Trace(r.rx, t.delivered + r.msgs), ps[1..])
  }

  lemma {:induction false} ReceiveAppend(t: Trace, ps: seq<Downlink.Packet>, qs: seq<Downlink.Packet>)
    ensures ReceiveAll(t, ps + qs) == ReceiveAll(ReceiveAll(t, ps), qs)
    decreases |ps|
  {
    hide Downlink.Receive;
    if ps == [] {
      assert ps + qs == qs;
    } else {
      var r := Downlink.Receive(t.rx, ps[0]);
      assert (ps + qs)[1..] == ps[1..] + qs;
      ReceiveAppend(Trace(r.rx, t.delivered + r.msgs), ps[1..], qs);
    }
  }

  lemma ReceiveThree(t: Trace, p: Downlink.Packet, q: Downlink.Packet, r: Downlink.Packet)
    ensures var d := Downlink.Receive(t.rx, p);
            var e := Downlink.Receive(d.rx, q);
            var f := Downlink.Receive(e.rx, r);
            ReceiveAll(t, [p, q, r]) == Trace(f.rx, t.delivered + d.msgs + e.msgs + f.msgs)
  {
    hide Downlink.Receive, ReceiveAll;
    var d := Downlink.Receive(t.rx, p);
    var t1 := Trace(d.rx, t.delivered + d.msgs);
    var e := Downlink.Receive(t1.rx, q);
    var t2 := Trace(e.rx, t1.delivered + e.msgs);
    ReceiveOne(t, p);
    ReceiveOne(t1, q);
    ReceiveOne(t2, r);
    assert [p] + ([q] + [r]) == [p, q, r];
    ReceiveAppend(t, [p], [q] + [r]);
    ReceiveAppend(t1, [q], [r]);
  }

  lemma ReceiveOne(t: Trace, p: Downlink.Packet)
    ensures var d := Downlink.Receive(t.rx, p); ReceiveAll(t, [p]) == Trace(d.rx, t.delivered + d.msgs)
  {
    hide Downlink.Receive;
  }

  /** The control between two messages, with nothing pending. */
  function Idle(st: RxState, pos: int): RxState { st.(seqNum := Wrap(pos), infos := [], frags := [], buf := []) }

  /** Room for one message in one packet. */
  predicate Roomy(st: RxState) { st.windowSize < 0x10000 && 0 < st.slots && 2 + st.windowSize <= st.capacity }

  lemma WholeMessage(st: RxState, pos: nat, m: Msg)
    requires Roomy(st) && 0 < |m| <= st.windowSize
    ensures Downlink.Receive(Idle(st, pos), Downlink.Packet(Wrap(pos), |m|, m)) ==
            Downlink.Received(Idle(st, pos + |m|), Ok, [m], true)
  {
    var s, i := Wrap(pos), Idle(st, pos);
    assert InWindow(i, s, |m|);
    var d := i.(infos := [Info(s, |m|)]);
    assert Declare(i, s, |m|) == Changed(d, Ok) by { assert InsertAt([], 0, Info(s, |m|)) == [Info(s, |m|)]; }
    var f := d.(frags := [RxFrag(s, m)]);
    assert Store(d, s, m) == Changed(f, Ok) by { assert InsertAt([], 0, RxFrag(s, m)) == [RxFrag(s, m)]; }
    WrapAdd(pos, |m|);
    AssembleWhole(f, m);
    DrainWhole(m);
  }

  lemma AssembleWhole(st: RxState, m: Msg)
    requires Roomy(st) && 0 < |m| <= st.windowSize && st.buf == []
    requires st.infos == [Info(st.seqNum, |m|)] && st.frags == [RxFrag(st.seqNum, m)]
    ensures Assemble(st, 0) ==
            RxResult(st.(seqNum := Wrap(st.seqNum + |m|), infos := [], frags := [], buf := Le16(|m|) + m), Ok, 1)
  {
    hide Le16, Assemble;
    assert [] + Le16(|m|) == Le16(|m|);
    var s := st.(buf := Le16(|m|));
    var s' := s.(buf := s.buf + m, seqNum := Wrap(s.seqNum + |m|), frags := []);
    assert st.frags[1..] == [] && s'.infos[1..] == [];
    LastTurn(st, m, s');
    NoTurn(s'.(infos := []), 1);
  }

  lemma NoTurn(st: RxState, n: nat)
    requires st.frags == []
    ensures Assemble(st, n) == RxResult(st, Ok, n)
  {
  }

  lemma LastTurn(st: RxState, m: Msg, s': RxState)
    requires BeginsHere(st) && st.frags == [RxFrag(st.seqNum, m)] && |st.infos| == 1 && st.infos[0].size == |m|
    requires |st.buf| + 2 + |m| <= st.capacity
    requires s' == st.(buf := st.buf + Le16(|m|) + m, seqNum := Wrap(st.seqNum + |m|), frags := [])
    ensures Assemble(st, 0) == Assemble(s'.(infos := []), 1)
  {
    hide Le16;
    assert st.frags[1..] == [] && s'.infos[1..] == [];
    assert EndsHere(s');
  }

  lemma DrainWhole(m: Msg)
    requires |m| < 0x10000
    ensures Drain(Le16(|m|) + m, 1) == Drained([m], [], true)
  {
    hide Le16, Word;
    WordOfLe16(|m|);
    var buf := Le16(|m|) + m;
    assert buf[2..2 + |m|] == m && buf[2 + |m|..] == [];
  }

  /** Each message in a packet of its own. */
  ghost function Whole(ms: seq<Msg>): seq<Downlink.Packet>
    requires forall k :: 0 <= k < |ms| ==> |ms[k]| < 0x10000
  {
    if ms == [] then [] else
    var n := |ms| - 1;
    Whole(ms[..n]) + [Downlink.Packet(Wrap(Total(ms[..n])), |ms[n]|, ms[n])]
  }

  lemma {:induction false} WholeMessages(st: RxState, ms: seq<Msg>)
    requires Roomy(st) && forall k :: 0 <= k < |ms| ==> 0 < |ms[k]| <= st.windowSize
    ensures ReceiveAll(Trace(Idle(st, 0), []), Whole(ms)) == Trace(Idle(st, Total(ms)), ms)
    decreases |ms|
  {
    hide Downlink.Receive, Idle;
    if ms != [] {
      var n := |ms| - 1;
      var p := Downlink.Packet(Wrap(Total(ms[..n])), |ms[n]|, ms[n]);
      WholeMessages(st, ms[..n]);
      ReceiveAppend(Trace(Idle(st, 0), []), Whole(ms[..n]), [p]);
      WholeMessage(st, Total(ms[..n]), ms[n]);
      assert ms[..n] + [ms[n]] == ms;
      StartAppend(ms[..n], ms[n], n);
    }
  }

  /** Nothing at the head of the list can be what the control waits for any more. */
  predicate Blocked(st: RxState) { st.frags != [] && st.frags[0].seqNum == 0 && st.seqNum != 0 }

  /** Blocked for good, whatever arrives. */
  lemma BlockedStays(st: RxState, p: Downlink.Packet)
    requires Blocked(st)
    ensures var r := Downlink.Receive(st, p); Blocked(r.rx) && r.rx.seqNum == st.seqNum && r.msgs == []
  {
    hide InWindow, Declare;
    if InWindow(st, p.seqNum, |p.data|) {
      PayloadInWindow(st, p.seqNum, |p.data|);
      var d := if p.msgSize != 0 then Declare(st, p.seqNum, p.msgSize) else Changed(st, Ok);
      DeclareOnly(st, p.seqNum, p.msgSize);
      StoreBehindHead(d.st, p.seqNum, p.data);
    }
  }

  lemma PayloadInWindow(st: RxState, seqNum: U16, size: nat)
    requires InWindow(st, seqNum, size)
    ensures Wrap(size) > 0
  {
    var begin := Wrap(seqNum - st.seqNum);
    if Wrap(size) == 0 { WrapAdd(size, begin); }
  }

  lemma DeclareOnly(st: RxState, seqNum: U16, size: U16)
    ensures var d := Declare(st, seqNum, size).st; d.frags == st.frags && d.seqNum == st.seqNum
  {
  }

  lemma StoreBehindHead(st: RxState, seqNum: U16, data: seq<byte>)
    requires Blocked(st) && Wrap(|data|) > 0
    ensures var s := Store(st, seqNum, data).st; Blocked(s) && s.seqNum == st.seqNum
  {
    if seqNum != 0 { assert FragPos(st.frags, seqNum, 0) > 0; }
  }

  lemma {:induction false} BlockedForGood(t: Trace, ps: seq<Downlink.Packet>)
    requires Blocked(t.rx)
    ensures var t' := ReceiveAll(t, ps); Blocked(t'.rx) && t'.rx.seqNum == t.rx.seqNum && t'.delivered == t.delivered
    decreases |ps|
  {
    hide Downlink.Receive, Blocked;
    if ps != [] {
      var r := Downlink.Receive(t.rx, ps[0]);
      BlockedStays(t.rx, ps[0]);
      assert t.delivered + [] == t.delivered;
      BlockedForGood(Trace(r.rx, t.delivered + r.msgs), ps[1..]);
    }
  }

  /** The three packets of a message whose second one ends just at the wrap. */
  function Three(pos: int, a: seq<byte>, b: seq<byte>, c: seq<byte>): seq<Downlink.Packet>
    requires |a| + |b| + |c| < 0x10000
  {
    [Downlink.Packet(Wrap(pos), |a| + |b| + |c|, a), Downlink.Packet(Wrap(pos + |a|), 0, b), Downlink.Packet(0, 0, c)]
  }

  /** The first packet of the message, with more to come. */
  lemma FirstPacket(st: RxState, pos: nat, size: U16, a: seq<byte>)
    requires Roomy(st) && 0 < |a| < size && |a| <= st.windowSize
    ensures Downlink.Receive(Idle(st, pos), Downlink.Packet(Wrap(pos), size, a)) ==
            Downlink.Received(
              Idle(st, pos + |a|).(infos := [Info(Wrap(pos), size)], buf := Le16(size) + a), Ok, [], true)
  {
    hide Le16;
    var s, i := Wrap(pos), Idle(st, pos);
    assert InWindow(i, s, |a|);
    var d := i.(infos := [Info(s, size)]);
    assert Declare(i, s, size) == Changed(d, Ok) by { assert InsertAt([], 0, Info(s, size)) == [Info(s, size)]; }
    var f := d.(frags := [RxFrag(s, a)]);
    assert Store(d, s, a) == Changed(f, Ok) by { assert InsertAt([], 0, RxFrag(s, a)) == [RxFrag(s, a)]; }
    WrapAdd(pos, |a|);
    assert [] + Le16(size) == Le16(size);
    assert Assemble(f, 0) == RxResult(f.(seqNum := Wrap(pos + |a|), frags := [], buf := Le16(size) + a), Ok, 0);
  }

  /** The packet after the wrap comes before the one ending at it: both are accepted, in the wrong order. */
  lemma WrongOrder(st: RxState, b: seq<byte>, c: seq<byte>)
    requires st.frags == [] && |st.infos| == 1 && st.seqNum != 0 && st.seqNum != st.infos[0].begin
    requires b != [] && c != [] && st.seqNum + |b| == 0x10000 && |b| + |c| <= st.windowSize < 0x10000
    ensures var r := Downlink.Receive(st, Downlink.Packet(0, 0, c));
            var r' := Downlink.Receive(r.rx, Downlink.Packet(st.seqNum, 0, b));
            && r.status == Ok && r.msgs == [] && r'.status == Ok && r'.msgs == []
            && r'.rx == st.(frags := [RxFrag(0, c), RxFrag(st.seqNum, b)])
  {
    var one := st.(frags := [RxFrag(0, c)]);
    assert InsertAt([], 0, RxFrag(0, c)) == [RxFrag(0, c)];
    assert Downlink.Receive(st, Downlink.Packet(0, 0, c)) == Downlink.Received(one, Ok, [], true);
    assert FragPos(one.frags, st.seqNum, 0) == 1;
    assert InsertAt(one.frags, 1, RxFrag(st.seqNum, b)) == [RxFrag(0, c), RxFrag(st.seqNum, b)];
  }

  /**
   * The stall, reached from the initial state: any messages in packets of
   * their own, then a message in three packets the second of which ends at a
   * multiple of 2^16.  When the third one overtakes the second, all three are
   * accepted, but the two are listed in the wrong order: the messages before
   * are all that is ever handed out, whatever arrives later.
   */
  lemma OvertakenAtWrap(st: RxState, ms: seq<Msg>, a: seq<byte>, b: seq<byte>, c: seq<byte>,
                        later: seq<Downlink.Packet>)
    requires Roomy(st) && forall k :: 0 <= k < |ms| ==> 0 < |ms[k]| <= st.windowSize
    requires a != [] && b != [] && c != [] && |a| <= st.windowSize && |b| + |c| <= st.windowSize
    requires |a| + |b| + |c| < 0x10000 && Wrap(Total(ms) + |a| + |b|) == 0
    ensures var ps, begin := Three(Total(ms), a, b, c), Trace(RxSpec.Init(st.windowSize, st.slots, st.capacity), []);
            var t := ReceiveAll(begin, Whole(ms) + [ps[0], ps[2], ps[1]]);
            && t.rx.infos == [Info(Wrap(Total(ms)), |a| + |b| + |c|)]
            && t.rx.frags == [RxFrag(0, c), RxFrag(Wrap(Total(ms) + |a|), b)]
            && t.rx.buf == Le16(|a| + |b| + |c|) + a && t.delivered == ms
            && var t' := ReceiveAll(t, later);
               t'.delivered == ms && t'.rx.seqNum == Wrap(Total(ms) + |a|)
  {
    hide Downlink.Receive, Le16;
    var pos, size := Total(ms), |a| + |b| + |c|;
    var ps := Three(pos, a, b, c);
    var begin := Trace(RxSpec.Init(st.windowSize, st.slots, st.capacity), []);
    assert begin.rx == Idle(st, 0);
    WholeMessages(st, ms);
    ReceiveAppend(begin, Whole(ms), [ps[0], ps[2], ps[1]]);
    FirstPacket(st, pos, size, a);
    BeforeWrap(pos, |a|, |b|);
    var s := Downlink.Receive(Idle(st, pos), ps[0]).rx;
    WrongOrder(s, b, c);
    var r := Downlink.Receive(s, ps[2]).rx;
    var t := Trace(Downlink.Receive(r, ps[1]).rx, ms);
    assert ms + [] == ms;
    ReceiveThree(Trace(Idle(st, pos), ms), ps[0], ps[2], ps[1]);
    BlockedForGood(t, later);
  }

  lemma BeforeWrap(pos: nat, a: nat, b: nat)
    requires 0 < a < 0x10000 && 0 < b < 0x10000 && Wrap(pos + a + b) == 0
    ensures Wrap(pos + a) != 0 && Wrap(pos + a) + b == 0x10000 && Wrap(pos + a) != Wrap(pos)
  {
  }

  /** Such messages exist: 4093 of 16 bytes, then one of 64 in pieces of 23, 25 and 16. */
  lemma WrapStallsReassembly(st: RxState, m: Msg, a: seq<byte>, b: seq<byte>, c: seq<byte>, later: seq<Downlink.Packet>)
    requires Roomy(st) && st.windowSize == 64 && |m| == 16 && |a| == 23 && |b| == 25 && |c| == 16
    ensures var ms := seq(4093, _ => m);
            var ps, begin := Three(0xFFD0, a, b, c), Trace(RxSpec.Init(st.windowSize, st.slots, st.capacity), []);
            var t := ReceiveAll(begin, Whole(ms) + [ps[0], ps[2], ps[1]] + later);
            t.delivered == ms && t.rx.seqNum == 0xFFE7
  {
    hide ReceiveAll, Whole;
    var ms := seq(4093, _ => m);
    RepeatedTotal(m, ms, 4093);
    var ps, begin := Three(0xFFD0, a, b, c), Trace(RxSpec.Init(st.windowSize, st.slots, st.capacity), []);
    OvertakenAtWrap(st, ms, a, b, c, later);
    ReceiveAppend(begin, Whole(ms) + [ps[0], ps[2], ps[1]], later);
  }

  lemma {:induction false} RepeatedTotal(m: Msg, ms: seq<Msg>, k: nat)
    requires k <= |ms| && forall i :: 0 <= i < |ms| ==> ms[i] == m
    ensures Start(ms, k) == k * |m|
  {
    if k > 0 { RepeatedTotal(m, ms, k - 1); }
  }
}
