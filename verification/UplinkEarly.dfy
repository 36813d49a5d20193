/**
 * What a message declared ahead of its turn does to the server's receive
 * control: its first packet arrived early and was dropped, its declaration
 * stayed (server/wtp/wtp/transmission.py).
 */
module UplinkEarly {
  import opened Base
  import opened Cyclic
  import opened Stream
  import opened Uplink

  /** The announcement of message x. */
  ghost function InfoOf(ms: seq<Msg>, x: nat): Info
    requires x < |ms| && |ms[x]| < 0x10000
  {
    Info(Wrap(Start(ms, x)), |ms[x]|)
  }

  /** Fragments a up to b, each in its turn. */
  function InTurn(a: nat, b: nat): (s: seq<nat>)
    requires a <= b
    ensures forall j :: 0 <= j < |s| ==> s[j] < b
    decreases b - a
  {
    if a == b then [] else [a] + InTurn(a + 1, b)
  }

  lemma {:induction false} RunAppend(r: UpRun, ms: seq<Msg>, h: seq<Frag>, order: seq<nat>, more: seq<nat>)
    requires Sendable(ms, h) && Indices(h, order) && Indices(h, more)
    ensures Indices(h, order + more) && Run(r, ms, h, order + more) == Run(Run(r, ms, h, order), ms, h, more)
    decreases |order|
  {
    hide Deliver;
    if order == [] {
      assert order + more == more;
    } else {
      assert (order + more)[1..] == order[1..] + more;
      RunAppend(Arrive(r, ms, h[order[0]]), ms, h, order[1..], more);
    }
  }

  // ------------------------------------------------------------- the head

  /**
   * The first packet of a message at its turn, when the message is declared
   * first already: the search goes past the declaration.  With nothing else
   * declared it comes back to it and the packet is refused; with another
   * message declared behind, the packet passes if it ends before that one.
   */
  lemma HeadAtItsTurn(st: UpState, size: U16)
    requires st.msgInfo != [] && st.msgInfo[0].begin == st.seqNum && 0 < size
    requires |st.msgInfo| > 1 ==> st.msgInfo[1].begin != st.seqNum
    ensures Declare(st, st.seqNum, size).None? <==>
              |st.msgInfo| == 1 || size > Rel(st.seqNum, st.msgInfo[1].begin)
    ensures Declare(st, st.seqNum, size).Some? ==>
              Declare(st, st.seqNum, size).value ==
              st.(msgInfo := [st.msgInfo[0], Info(st.seqNum, size)] + st.msgInfo[1..])
  {
    var begins := InfoBegins(st.msgInfo);
    if |begins| > 1 {
      assert Rel(st.seqNum, begins[1]) > 0;
      assert Place(begins, st.seqNum, st.seqNum, 1) == 1;
      assert InsertAt(st.msgInfo, 1, Info(st.seqNum, size)) ==
             [st.msgInfo[0], Info(st.seqNum, size)] + st.msgInfo[1..];
    }
  }

  // ------------------------------------------------------------- the stall

  /** The in-order state, with message x declared as well, behind everything else. */
  ghost function Indebted(st: UpState, ms: seq<Msg>, x: nat): UpState
    requires x < |ms| && |ms[x]| < 0x10000
  {
    st.(msgInfo := st.msgInfo + [InfoOf(ms, x)])
  }

  /** Waiting for message x, which is declared: nothing else is held. */
  ghost function Waiting(windowSize: nat, ms: seq<Msg>, x: nat): UpState
    requires x < |ms| && |ms[x]| < 0x10000
  {
    UpState(Wrap(Start(ms, x)), windowSize, [], [], [InfoOf(ms, x)])
  }

  lemma EarlyHeadStays(st: UpState, ms: seq<Msg>, h: seq<Frag>, c: nat, k: nat, j: nat)
    requires UpInv(st, ms, h, c, k) && Sendable(ms, h) && st.msgInfo == [] && c < j < |h|
    requires IsHead(ms, h[j]) && h[j].End() <= Edge(h, c) + st.windowSize
    ensures Deliver(st, ms, h[j]) == UpResult(Indebted(st, ms, h[j].msg), [])
    ensures k < h[j].msg && Edge(h, c) < Start(ms, h[j].msg)
  {
    hide InWindow, Received, Handle, Tiles;
    FragmentSize(ms, h, j);
    FragmentSize(ms, h, c);
    EdgeMonotone(ms, h, c + 1, j);
    AheadBy(Edge(h, c), h[j].pos);
    WindowExact(st, h[j].pos, |h[j].data|);
    assert 0 < |ms[h[j].msg]|;
    EarlyHeadDeclared(st, Wrap(h[j].pos), h[j].data, SizeField(ms, h[j]));
    if h[j].msg <= k { StartMonotone(ms, h[j].msg, k); }
  }

  /** The debt changes nothing while there is something in front of it. */
  lemma DebtUnnoticed(g: UpState, tail: Info)
    requires |g.msgInfo| == 1
    ensures var r := AfterNext(g);
            AfterNext(g.(msgInfo := g.msgInfo + [tail])) == UpResult(r.st.(msgInfo := r.st.msgInfo + [tail]), r.msgs)
  {
  }

  lemma DeclareBefore(st: UpState, ms: seq<Msg>, k: nat, x: nat)
    requires k < x < |ms| && |ms[k]| < 0x10000 && |ms[x]| < 0x10000
    requires st.seqNum == Wrap(Start(ms, k)) && st.msgInfo == [InfoOf(ms, x)]
    requires Start(ms, x) - Start(ms, k) < 0x10000
    ensures Declare(st, Wrap(Start(ms, k)), |ms[k]|) == Some(st.(msgInfo := [InfoOf(ms, k)] + [InfoOf(ms, x)]))
  {
    hide Declare, Start, Rel, Wrap;
    StartMonotone(ms, k, x);
    DeclareBesideOne(st, Wrap(Start(ms, k)), |ms[k]|);
    RelFaithful(Start(ms, k), Start(ms, x));
    RelFaithful(Start(ms, k), Start(ms, k) + |ms[k]|);
    WrapAdd(Start(ms, k), |ms[k]|);
  }

  /** The declarations with the next fragment taken in, without the debt and with it. */
  lemma DeclaredNext(st: UpState, ms: seq<Msg>, h: seq<Frag>, c: nat, k: nat, x: nat)
    requires UpInv(st, ms, h, c, k) && Sendable(ms, h) && c < |h|
    requires x < |ms| && |ms[x]| < 0x10000 && Edge(h, c) < Start(ms, x) < Edge(h, c) + 0x10000
    ensures k < |ms| && |ms[k]| < 0x10000 && h[c].msg == k && h[c].pos == Edge(h, c)
    ensures Grown(st, ms, h[c]).msgInfo == [InfoOf(ms, k)]
    ensures var size, d := SizeField(ms, h[c]), Indebted(st, ms, x);
            if size != 0 then Declare(d, Wrap(h[c].pos), size) == Some(d.(msgInfo := [InfoOf(ms, k)] + [InfoOf(ms, x)]))
            else d.msgInfo == [InfoOf(ms, k)] + [InfoOf(ms, x)]
  {
    hide Received, Declare, Fits, Wrap, Rel;
    NextIs(st, ms, h, c, k);
    if k >= x { StartMonotone(ms, x, k); }
    var d := Indebted(st, ms, x);
    if SizeField(ms, h[c]) != 0 {
      assert st.msgInfo + [InfoOf(ms, x)] == [InfoOf(ms, x)];
      assert st.msgInfo + [InfoOf(ms, k)] == [InfoOf(ms, k)];
      DeclareBefore(d, ms, k, x);
    }
  }

  lemma TurnIndebted(st: UpState, ms: seq<Msg>, h: seq<Frag>, c: nat, k: nat, x: nat)
    requires UpInv(st, ms, h, c, k) && Sendable(ms, h) && c < |h| && |h[c].data| <= st.windowSize
    requires x < |ms| && |ms[x]| < 0x10000 && Edge(h, c) < Start(ms, x) < Edge(h, c) + 0x10000
    ensures var r := Deliver(st, ms, h[c]);
            Deliver(Indebted(st, ms, x), ms, h[c]) == UpResult(Indebted(r.st, ms, x), r.msgs)
  {
    hide UpInv, Handle, Received, DoneAt, Declare, AfterNext, Start, Wrap, InfoOf;
    NextIs(st, ms, h, c, k);
    InvParts(st, ms, h, c, k);
    DeclaredNext(st, ms, h, c, k, x);
    NextSteps(st, ms, h[c]);
    var f, g := h[c], Grown(st, ms, h[c]);
    ExpectedTaken(Indebted(st, ms, x), Wrap(f.pos), f.data, SizeField(ms, f), g.msgInfo + [InfoOf(ms, x)]);
    DebtUnnoticed(g, InfoOf(ms, x));
  }

  lemma InvParts(st: UpState, ms: seq<Msg>, h: seq<Frag>, c: nat, k: nat)
    requires UpInv(st, ms, h, c, k)
    ensures st.fragments == [] && st.seqNum == Wrap(Edge(h, c)) && st.windowSize < 0x10000
    ensures DoneAt(ms, k, Edge(h, c)) && Tiles(ms, h) && NonEmpty(ms)
  {
  }

  /** A run with the debt, against the run without. */
  lemma {:induction false} RunIndebted(r: UpRun, ms: seq<Msg>, h: seq<Frag>, c: nat, e: nat, k: nat, x: nat)
    returns (k': nat)
    requires UpInv(r.st, ms, h, c, k) && Sendable(ms, h) && c <= e <= |h|
    requires x < |ms| && |ms[x]| < 0x10000 && Edge(h, e) == Start(ms, x) < Edge(h, c) + 0x10000
    requires forall i :: c <= i < e ==> |h[i].data| <= r.st.windowSize
    ensures var r' := Run(UpRun(Indebted(r.st, ms, x), r.returned), ms, h, InTurn(c, e));
            && k <= k' <= |ms| && r'.returned == r.returned + ms[k..k']
            && exists st :: UpInv(st, ms, h, e, k') && st.windowSize == r.st.windowSize && r'.st == Indebted(st, ms, x)
    decreases e - c
  {
    hide UpInv, Deliver, Start;
    k' := k;
    PlaceInRange(r.st, ms, h, c, k);
    assert r.returned + ms[k..k] == r.returned;
    if c < e {
      InvParts(r.st, ms, h, c, k);
      var k1 := NextDelivered(r.st, ms, h, c, k);
      EdgeMonotone(ms, h, c, c + 1);
      EdgeMonotone(ms, h, c + 1, e);
      FragmentSize(ms, h, c);
      TurnIndebted(r.st, ms, h, c, k, x);
      var r1 := Arrive(r, ms, h[c]);
      k' := RunIndebted(r1, ms, h, c + 1, e, k1, x);
      assert r.returned + ms[k..k1] + ms[k1..k'] == r.returned + ms[k..k'];
    }
  }

  lemma AtStart(st: UpState, ms: seq<Msg>, h: seq<Frag>, e: nat, k: nat, x: nat)
    requires UpInv(st, ms, h, e, k) && x < |ms| && |ms[x]| < 0x10000 && Edge(h, e) == Start(ms, x)
    ensures k == x && Indebted(st, ms, x) == Waiting(st.windowSize, ms, x)
  {
    assert 0 < |ms[x]|;
    if k < x { StartMonotone(ms, k, x); } else if x < k { StartMonotone(ms, x, k); }
  }

  /** While it waits for a declared message, every packet of the stream leaves the control as it is. */
  lemma WaitsForGood(ms: seq<Msg>, h: seq<Frag>, windowSize: nat, x: nat, i: nat)
    requires NonEmpty(ms) && Tiles(ms, h) && Sendable(ms, h) && Total(ms) + windowSize <= 0x10000
    requires 0 < x < |ms| && |ms[x]| < 0x10000 && i < |h| && 0 < windowSize
    ensures var st := Waiting(windowSize, ms, x); Deliver(st, ms, h[i]) == UpResult(st, [])
  {
    hide InWindow, Handle, Declare, Overlaps, Deliver;
    var st, f, s := Waiting(windowSize, ms, x), h[i], Start(ms, x);
    FragmentSize(ms, h, i);
    StartMonotone(ms, x, |ms|);
    StartMonotone(ms, f.msg, |ms|);
    StartMonotone(ms, 0, x);
    assert Fits(ms, f) && 0 < |ms[0]|;
    StartMonotone(ms, 1, x);
    WindowExact(st, f.pos, |f.data|);
    if !Passes(st, f) {
      NotPassing(st, ms, f);
    } else if f.pos < s {
      if x <= f.msg { StartMonotone(ms, x, f.msg); } else { StartMonotone(ms, f.msg, x); }
      assert f.End() <= s;
      Behind(s, f.pos, |f.data|, windowSize);
    } else {
      if f.pos == s { MessageUnique(ms, f.msg, x, s); }
      WaitsHere(st, ms, f, x);
    }
  }

  lemma WaitsHere(st: UpState, ms: seq<Msg>, f: Frag, x: nat)
    requires x < |ms| && |ms[x]| < 0x10000 && st == Waiting(st.windowSize, ms, x) && Passes(st, f)
    requires f.msg < |ms| && |ms[f.msg]| < 0x10000 && 0 < Start(ms, x) <= f.pos < 0x10000
    requires 0 < |ms[f.msg]| && Start(ms, f.msg) + |ms[f.msg]| < 0x10000 && Start(ms, f.msg) <= f.pos
    requires f.pos == Start(ms, x) ==> f.msg == x
    ensures Deliver(st, ms, f) == UpResult(st, [])
  {
    hide InWindow, Store, Assemble, Declare, Rel, Wrap, Handle, Start;
    BelowRadix(Start(ms, x), f.pos);
    if SizeField(ms, f) != 0 {
      HeadAhead(Start(ms, x), f.pos, |ms[f.msg]|);
      EarlyHeadRefused(st, f.pos, f.data, |ms[f.msg]|);
    } else {
      EarlyPacketDropped(st, f.pos, f.data, 0);
    }
  }

  lemma BelowRadix(s: nat, pos: nat)
    requires s < 0x10000 && pos < 0x10000
    ensures Wrap(s) == s && Wrap(pos) == pos && Rel(s, s) == 0
  {
  }

  lemma HeadAhead(s: nat, pos: nat, size: nat)
    requires s <= pos && 0 < size && pos + size < 0x10000
    ensures Rel(s, Wrap(pos + size)) > 0
  {
  }

  lemma EarlyHeadRefused(st: UpState, seqNum: U16, data: seq<byte>, size: U16)
    requires |st.msgInfo| == 1 && size != 0 && Overlaps(st, seqNum, size)
    ensures Handle(st, seqNum, data, size) == UpResult(st, [])
  {
    hide InWindow, Declare, Store, Assemble;
    DeclareBesideOne(st, seqNum, size);
  }

  lemma NotPassing(st: UpState, ms: seq<Msg>, f: Frag)
    requires f.msg < |ms| && |ms[f.msg]| < 0x10000 && !Passes(st, f)
    ensures Deliver(st, ms, f) == UpResult(st, [])
  {
  }

  lemma {:induction false} RunWaits(ms: seq<Msg>, h: seq<Frag>, windowSize: nat, x: nat, order: seq<nat>,
                                    returned: seq<Msg>)
    requires NonEmpty(ms) && Tiles(ms, h) && Sendable(ms, h) && Total(ms) + windowSize <= 0x10000
    requires 0 < x < |ms| && |ms[x]| < 0x10000 && 0 < windowSize && Indices(h, order)
    ensures var r := UpRun(Waiting(windowSize, ms, x), returned); Run(r, ms, h, order) == r
    decreases |order|
  {
    hide Deliver, Waiting;
    if order != [] {
      WaitsForGood(ms, h, windowSize, x, order[0]);
      assert returned + [] == returned;
      RunWaits(ms, h, windowSize, x, order[1..], returned);
    }
  }

  /**
   * The stall.  Between two messages, the first packet of a later one arrives
   * early, then everything up to that message in its turn: the messages in
   * between are returned, and after that, whatever packets of the stream
   * arrive and however often, nothing is accepted or returned any more.
   */
  lemma EarlyHeadStalls(r: UpRun, ms: seq<Msg>, h: seq<Frag>, c: nat, k: nat, j: nat, order: seq<nat>)
    requires UpInv(r.st, ms, h, c, k) && r.st.msgInfo == [] && Sendable(ms, h) && Indices(h, order)
    requires Total(ms) + r.st.windowSize <= 0x10000
    requires c < j < |h| && IsHead(ms, h[j]) && h[j].End() <= Edge(h, c) + r.st.windowSize
    ensures k < h[j].msg && Indices(h, [j] + InTurn(c, j) + order)
    ensures Run(r, ms, h, [j] + InTurn(c, j) + order) ==
            UpRun(Waiting(r.st.windowSize, ms, h[j].msg), r.returned + ms[k..h[j].msg])
  {
    hide UpInv, Deliver, Start, Waiting, Indebted;
    var x := h[j].msg;
    InvParts(r.st, ms, h, c, k);
    EarlyHeadStays(r.st, ms, h, c, k, j);
    FragmentSize(ms, h, j);
    FragmentsFit(ms, h, c, j, r.st.windowSize);
    assert r.returned + [] == r.returned;
    var k' := RunIndebted(r, ms, h, c, j, k, x);
    var r1 := Run(Arrive(r, ms, h[j]), ms, h, InTurn(c, j));
    var st :| UpInv(st, ms, h, j, k') && st.windowSize == r.st.windowSize && r1.st == Indebted(st, ms, x);
    AtStart(st, ms, h, j, k', x);
    RunWaits(ms, h, r.st.windowSize, x, order, r1.returned);
    RunAppend(r, ms, h, [j] + InTurn(c, j), order);
    assert ([j] + InTurn(c, j))[1..] == InTurn(c, j);
  }

  lemma FragmentsFit(ms: seq<Msg>, h: seq<Frag>, c: nat, j: nat, windowSize: nat)
    requires Tiles(ms, h) && c < j < |h| && h[j].End() <= Edge(h, c) + windowSize
    ensures forall i :: c <= i < j ==> |h[i].data| <= windowSize
    ensures Edge(h, j) <= Edge(h, c) + windowSize && 0 < windowSize
  {
    assert Fits(ms, h[j]) && h[j].pos == Edge(h, j);
    EdgeMonotone(ms, h, c, j);
    forall i | c <= i < j ensures |h[i].data| <= windowSize {
      EdgeMonotone(ms, h, c, i);
      EdgeMonotone(ms, h, i + 1, j);
      assert Fits(ms, h[i]) && h[i].pos == Edge(h, i);
    }
  }

  // ------------------------------------------------------------- the merge

  /**
   * Inside message k, with a later message declared in front of it: what is
   * collected goes on growing past the end of message k.
   */
  ghost predicate Merging(st: UpState, ms: seq<Msg>, h: seq<Frag>, c: nat, k: nat, x: nat) {
    && Together(ms, k, x) && Tiles(ms, h) && c <= |h| && st.windowSize < 0x10000
    && Start(ms, k) < Edge(h, c) <= Start(ms, k) + |ms[k] + ms[k + 1]|
    && st.seqNum == Wrap(Edge(h, c)) && st.fragments == []
    && st.msgData == (ms[k] + ms[k + 1])[..Edge(h, c) - Start(ms, k)]
    && st.msgInfo == MergingInfos(ms, k, x, Edge(h, c) <= Start(ms, k + 1))
  }

  ghost function MergingInfos(ms: seq<Msg>, k: nat, x: nat, inFirst: bool): seq<Info>
    requires Together(ms, k, x)
  {
    if inFirst then [InfoOf(ms, x), InfoOf(ms, k)]
    else if x == k + 1 then [InfoOf(ms, x), InfoOf(ms, x), InfoOf(ms, k)]
    else [InfoOf(ms, k + 1), InfoOf(ms, x), InfoOf(ms, k)]
  }

  /** Messages k to x, together within one round of sequence numbers. */
  ghost predicate Together(ms: seq<Msg>, k: nat, x: nat) {
    && k < x < |ms| && NonEmpty(ms)
    && |ms[k]| < 0x10000 && |ms[k + 1]| < 0x10000 && |ms[x]| < 0x10000
    && Start(ms, x) + |ms[x]| - Start(ms, k) <= 0x10000
  }

  /** Where the messages lie. */
  lemma Places(ms: seq<Msg>, k: nat, x: nat)
    requires Together(ms, k, x)
    ensures Start(ms, k + 1) == Start(ms, k) + |ms[k]| <= Start(ms, x)
    ensures x > k + 1 ==> Start(ms, k + 1) + |ms[k + 1]| <= Start(ms, x)
    ensures Start(ms, k) + |ms[k] + ms[k + 1]| <= Start(ms, x) + |ms[x]|
    ensures 0 < |ms[k]| && 0 < |ms[k + 1]| && 0 < |ms[x]|
  {
    StartMonotone(ms, k + 1, x);
  }

  lemma MergingBegins(st: UpState, ms: seq<Msg>, h: seq<Frag>, c: nat, k: nat, j: nat)
    requires UpInv(st, ms, h, c, k) && Sendable(ms, h) && st.msgInfo != [] && c < j < |h|
    requires Together(ms, k, h[j].msg) && IsHead(ms, h[j]) && h[j].End() <= Edge(h, c) + st.windowSize
    ensures Deliver(st, ms, h[j]).msgs == [] && Merging(Deliver(st, ms, h[j]).st, ms, h, c, k, h[j].msg)
    ensures Deliver(st, ms, h[j]).st.windowSize == st.windowSize
  {
    hide InWindow, Handle, Tiles, Start, NonEmpty;
    var x := h[j].msg;
    FragmentSize(ms, h, j);
    FragmentSize(ms, h, c);
    EdgeMonotone(ms, h, c + 1, j);
    AheadBy(Edge(h, c), h[j].pos);
    WindowExact(st, h[j].pos, |h[j].data|);
    Places(ms, k, x);
    InMessage(st, ms, h, c, k);
    NoOverlap(Edge(h, c), Start(ms, k), Start(ms, x) + |ms[x]|);
    WrapAdd(Start(ms, x), |ms[x]|);
    EarlyHeadDeclared(st, Wrap(h[j].pos), h[j].data, SizeField(ms, h[j]));
  }

  lemma InMessage(st: UpState, ms: seq<Msg>, h: seq<Frag>, c: nat, k: nat)
    requires UpInv(st, ms, h, c, k) && st.msgInfo != [] && k + 1 < |ms|
    ensures k < |ms| && |ms[k]| < 0x10000 && st.msgInfo == [InfoOf(ms, k)]
    ensures Start(ms, k) < Edge(h, c) < Start(ms, k) + |ms[k]|
    ensures st.msgData == (ms[k] + ms[k + 1])[..Edge(h, c) - Start(ms, k)]
  {
  }

  /** A message within the round ends before the sequence numbers come back to the begin of the current one. */
  lemma NoOverlap(now: int, begin: int, end: int)
    requires begin < now < end <= begin + 0x10000
    ensures Rel(Wrap(now), Wrap(end)) <= Rel(Wrap(now), Wrap(begin))
  {
    hide Rel, Wrap;
    OnceRound(begin);
    RelFaithful(now, begin + 0x10000);
    RelFaithful(now, end);
  }

  lemma OnceRound(x: int)
    ensures Wrap(x + 0x10000) == Wrap(x)
  {
  }

  /** Where a fragment of the two messages lies. */
  lemma FragOfTwo(ms: seq<Msg>, h: seq<Frag>, c: nat, k: nat)
    requires Tiles(ms, h) && Sendable(ms, h) && c < |h| && k + 1 < |ms|
    requires Start(ms, k) < Edge(h, c) < Start(ms, k) + |ms[k] + ms[k + 1]|
    ensures var f, s := h[c], Start(ms, k);
            && f.pos == Edge(h, c) && 0 < |f.data|
            && f.End() <= s + |ms[k] + ms[k + 1]|
            && f.data == (ms[k] + ms[k + 1])[f.pos - s..f.End() - s]
            && (f.pos < Start(ms, k + 1) ==> f.End() <= Start(ms, k + 1))
            && SizeField(ms, f) == if f.pos == Start(ms, k + 1) then |ms[k + 1]| else 0
  {
    var f := h[c];
    assert Fits(ms, f);
    if f.pos < Start(ms, k + 1) {
      MessageUnique(ms, f.msg, k, f.pos);
    } else {
      MessageUnique(ms, f.msg, k + 1, f.pos);
    }
  }

  /** At its turn the next message is declared behind its own declaration, or in front of a later one. */
  lemma DeclareInside(st: UpState, ms: seq<Msg>, k: nat, x: nat)
    requires Together(ms, k, x) && st.seqNum == Wrap(Start(ms, k + 1))
    requires st.msgInfo == MergingInfos(ms, k, x, true)
    ensures Declare(st, st.seqNum, |ms[k + 1]|) == Some(st.(msgInfo := MergingInfos(ms, k, x, false)))
  {
    hide Declare, Rel, Wrap, Start;
    Places(ms, k, x);
    RelFaithful(Start(ms, k + 1), Start(ms, k + 1));
    if x == k + 1 {
      OnceRound(Start(ms, k));
      RelFaithful(Start(ms, k + 1), Start(ms, k) + 0x10000);
      HeadAtItsTurn(st, |ms[k + 1]|);
      assert st.msgInfo[1..] == [InfoOf(ms, k)];
      assert [st.msgInfo[0], InfoOf(ms, k + 1)] + [InfoOf(ms, k)] ==
             [InfoOf(ms, k + 1), InfoOf(ms, k + 1), InfoOf(ms, k)];
    } else {
      RelFaithful(Start(ms, k + 1), Start(ms, x));
      RelFaithful(Start(ms, k + 1), Start(ms, k + 1) + |ms[k + 1]|);
      WrapAdd(Start(ms, k + 1), |ms[k + 1]|);
      DeclareInFront(st, |ms[k + 1]|);
      assert [InfoOf(ms, k + 1)] + st.msgInfo == [InfoOf(ms, k + 1), InfoOf(ms, x), InfoOf(ms, k)];
    }
  }

  lemma DeclareInFront(st: UpState, size: U16)
    requires st.msgInfo != [] && Rel(st.seqNum, st.seqNum) < Rel(st.seqNum, st.msgInfo[0].begin)
    requires Rel(st.seqNum, Wrap(st.seqNum + size)) <= Rel(st.seqNum, st.msgInfo[0].begin)
    ensures Declare(st, st.seqNum, size) == Some(st.(msgInfo := [Info(st.seqNum, size)] + st.msgInfo))
  {
    assert Place(InfoBegins(st.msgInfo), st.seqNum, st.seqNum, 0) == 0;
    assert InsertAt(st.msgInfo, 0, Info(st.seqNum, size)) == [Info(st.seqNum, size)] + st.msgInfo;
  }

  /** The message declared first ends here only if it is the second of the two, and is at its end. */
  lemma EndsOnlyThere(ms: seq<Msg>, k: nat, x: nat, pos: int)
    requires Together(ms, k, x) && Start(ms, k) < pos <= Start(ms, k) + |ms[k] + ms[k + 1]|
    ensures var info := MergingInfos(ms, k, x, pos <= Start(ms, k + 1))[0];
            Wrap(pos) == Wrap(info.begin + info.size) <==> pos == Start(ms, k) + |ms[k] + ms[k + 1]|
  {
    hide Start, Wrap;
    Places(ms, k, x);
    var y := if pos <= Start(ms, k + 1) || x == k + 1 then x else k + 1;
    WrapAdd(Start(ms, y), |ms[y]|);
    WithinRound(pos, Start(ms, y) + |ms[y]|);
  }

  lemma WithinRound(pos: int, end: int)
    requires pos <= end < pos + 0x10000
    ensures Wrap(pos) == Wrap(end) <==> pos == end
  {
  }

  /** One fragment of the two messages taken in. */
  lemma MergeTakes(st: UpState, ms: seq<Msg>, h: seq<Frag>, c: nat, k: nat, x: nat)
    requires Merging(st, ms, h, c, k, x) && Sendable(ms, h) && c < |h| && |h[c].data| <= st.windowSize
    requires Edge(h, c) < Start(ms, k) + |ms[k] + ms[k + 1]|
    ensures h[c].pos == Edge(h, c) < h[c].End() <= Start(ms, k) + |ms[k] + ms[k + 1]|
    ensures Deliver(st, ms, h[c]) ==
            AfterNext(st.(msgData := (ms[k] + ms[k + 1])[..h[c].End() - Start(ms, k)], seqNum := Wrap(h[c].End()),
                          msgInfo := MergingInfos(ms, k, x, h[c].End() <= Start(ms, k + 1))))
  {
    hide Handle, Declare, Tiles, Start, NonEmpty, MergingInfos, AfterNext, Fits;
    var f, s, whole := h[c], Start(ms, k), ms[k] + ms[k + 1];
    FragOfTwo(ms, h, c, k);
    Places(ms, k, x);
    var infos := MergingInfos(ms, k, x, f.End() <= Start(ms, k + 1));
    if f.pos == Start(ms, k + 1) { DeclareInside(st, ms, k, x); }
    ExpectedTaken(st, Wrap(f.pos), f.data, SizeField(ms, f), infos);
    assert whole[..f.pos - s] + whole[f.pos - s..f.End() - s] == whole[..f.End() - s];
    WrapAdd(f.pos, |f.data|);
  }

  lemma MergeStep(st: UpState, ms: seq<Msg>, h: seq<Frag>, c: nat, k: nat, x: nat)
    requires Merging(st, ms, h, c, k, x) && Sendable(ms, h) && c < |h| && |h[c].data| <= st.windowSize
    requires Edge(h, c) < Start(ms, k) + |ms[k] + ms[k + 1]|
    ensures var r, whole := Deliver(st, ms, h[c]), ms[k] + ms[k + 1];
            && r.st.windowSize == st.windowSize
            && if h[c].End() == Start(ms, k) + |whole| then r.msgs == [whole]
               else r.msgs == [] && Merging(r.st, ms, h, c + 1, k, x)
  {
    hide Deliver, Tiles, Start;
    MergeTakes(st, ms, h, c, k, x);
    EndsOnlyThere(ms, k, x, h[c].End());
    var whole := ms[k] + ms[k + 1];
    assert whole[..|whole|] == whole;
    assert Edge(h, c + 1) == h[c].End();
  }

  lemma {:induction false} RunMerges(r: UpRun, ms: seq<Msg>, h: seq<Frag>, c: nat, e: nat, k: nat, x: nat)
    requires Merging(r.st, ms, h, c, k, x) && Sendable(ms, h) && c < e <= |h|
    requires Edge(h, e) == Start(ms, k) + |ms[k] + ms[k + 1]|
    requires forall i :: c <= i < e ==> |h[i].data| <= r.st.windowSize
    ensures Run(r, ms, h, InTurn(c, e)).returned == r.returned + [ms[k] + ms[k + 1]]
    decreases e - c
  {
    hide Deliver, Start, Together, MergingInfos;
    EdgeMonotone(ms, h, c, e);
    EdgeMonotone(ms, h, c + 1, e);
    FragmentSize(ms, h, c);
    MergeStep(r.st, ms, h, c, k, x);
    if c + 1 < e {
      EdgeMonotone(ms, h, c + 2, e);
      assert Fits(ms, h[c + 1]) && h[c + 1].pos == Edge(h, c + 1);
      assert r.returned + [] == r.returned;
      RunMerges(Arrive(r, ms, h[c]), ms, h, c + 1, e, k, x);
    }
  }

  /**
   * The merge.  In the middle of message k the first packet of any later one
   * arrives early, then message k and the next one in their turn: these two
   * come back as one message, and the boundary between them is lost.
   */
  lemma EarlyHeadMerges(r: UpRun, ms: seq<Msg>, h: seq<Frag>, c: nat, k: nat, j: nat, e: nat)
    requires UpInv(r.st, ms, h, c, k) && Sendable(ms, h) && r.st.msgInfo != []
    requires c < j < |h| && IsHead(ms, h[j]) && Together(ms, k, h[j].msg)
    requires h[j].End() <= Edge(h, c) + r.st.windowSize
    requires c < e <= |h| && Edge(h, e) == Start(ms, k + 1) + |ms[k + 1]|
    requires forall i :: c <= i < e ==> |h[i].data| <= r.st.windowSize
    ensures Indices(h, [j] + InTurn(c, e))
    ensures Run(r, ms, h, [j] + InTurn(c, e)).returned == r.returned + [ms[k] + ms[k + 1]]
  {
    hide UpInv, Deliver;
    MergingBegins(r.st, ms, h, c, k, j);
    assert r.returned + [] == r.returned;
    RunMerges(Arrive(r, ms, h[j]), ms, h, c, e, k, h[j].msg);
    assert ([j] + InTurn(c, e))[1..] == InTurn(c, e);
  }

  lemma TwoStarts(ms: seq<Msg>)
    requires |ms| == 2
    ensures Start(ms, 0) == 0 && Start(ms, 1) == |ms[0]| && Start(ms, 2) == |ms[0]| + |ms[1]|
  {
    assert Start(ms, 1) == Start(ms, 0) + |ms[0]|;
    assert Start(ms, 2) == Start(ms, 1) + |ms[1]|;
  }

  lemma TilesThree(ms: seq<Msg>, h: seq<Frag>)
    requires |h| == 3 && Fits(ms, h[0]) && Fits(ms, h[1]) && Fits(ms, h[2])
    requires h[0].pos == 0 && h[1].pos == h[0].End() && h[2].pos == h[1].End()
    ensures Tiles(ms, h)
  {
    hide Fits;
    forall i | 0 <= i < |h| ensures Fits(ms, h[i]) && h[i].pos == Edge(h, i) {
      assert i == 0 || i == 1 || i == 2;
    }
  }

  lemma TwoMessages(first: seq<byte>, second: seq<byte>, next: Msg)
    requires first != [] && second != [] && next != [] && |first| + |second| + |next| < 0x10000
    ensures var ms := [first + second, next];
            var h := [Frag(0, 0, first), Frag(|first|, 0, second), Frag(|first| + |second|, 1, next)];
            && Tiles(ms, h) && NonEmpty(ms) && Sendable(ms, h) && Together(ms, 0, 1)
            && Start(ms, 0) == 0 && Start(ms, 1) == |first + second| && Start(ms, 2) == |first + second| + |next|
  {
    hide Start, Tiles;
    var ms := [first + second, next];
    var h := [Frag(0, 0, first), Frag(|first|, 0, second), Frag(|first| + |second|, 1, next)];
    TwoStarts(ms);
    assert ms[0][0..|first|] == first && ms[0][|first|..|first| + |second|] == second && ms[1][0..|next|] == next;
    TilesThree(ms, h);
  }

  lemma InitialInv(ms: seq<Msg>, h: seq<Frag>, windowSize: nat)
    requires NonEmpty(ms) && Tiles(ms, h) && Sendable(ms, h) && windowSize < 0x10000
    requires forall j :: 0 <= j < |ms| ==> |ms[j]| < 0x10000
    ensures UpInv(Init(windowSize), ms, h, 0, 0) && Init(windowSize).windowSize == windowSize
  {
  }

  lemma InsideFirst(st: UpState, ms: seq<Msg>, h: seq<Frag>, k: nat)
    requires UpInv(st, ms, h, 1, k) && |h| > 1 && ms != [] && 0 < h[0].End() < |ms[0]|
    ensures k == 0 && st.msgInfo != []
  {
    assert Start(ms, 1) == |ms[0]|;
    if k > 0 { StartMonotone(ms, 1, k); }
  }

  /** From the initial state: a message in two packets, the next one arriving between them. */
  lemma MergeFromInit(ms: seq<Msg>, h: seq<Frag>, windowSize: nat)
    requires NonEmpty(ms) && Tiles(ms, h) && Sendable(ms, h) && windowSize < 0x10000
    requires |ms| == 2 && |h| == 3 && Together(ms, 0, 1) && h[0].End() < |ms[0]| && h[2].msg == 1
    requires h[2].pos == Start(ms, 1) && h[2].End() == Start(ms, 1) + |ms[1]| <= windowSize
    ensures Run(UpRun(Init(windowSize), []), ms, h, [0, 2, 1, 2]).returned == [ms[0] + ms[1]]
  {
    hide UpInv, Deliver, Tiles, Start, Init, NonEmpty, Run, InTurn;
    FragmentsFit(ms, h, 0, 2, windowSize);
    FragmentSize(ms, h, 0);
    FragmentSize(ms, h, 2);
    InitialInv(ms, h, windowSize);
    var begin := UpRun(Init(windowSize), []);
    var k := NextDelivered(begin.st, ms, h, 0, 0);
    InsideFirst(Deliver(begin.st, ms, h[0]).st, ms, h, k);
    assert begin.returned + ms[0..0] == [];
    EarlyHeadMerges(Arrive(begin, ms, h[0]), ms, h, 1, 0, 2, 3);
    RunAppend(begin, ms, h, [0], [2] + InTurn(1, 3));
    RunOne(begin, ms, h, 0);
    assert InTurn(1, 3) == [1, 2] by { TurnsOneTwo(); }
    assert [0] + ([2] + [1, 2]) == [0, 2, 1, 2];
  }

  lemma RunOne(r: UpRun, ms: seq<Msg>, h: seq<Frag>, i: nat)
    requires Sendable(ms, h) && i < |h|
    ensures Run(r, ms, h, [i]) == Arrive(r, ms, h[i])
  {
    hide Deliver, Arrive;
  }

  lemma TurnsOneTwo()
    ensures InTurn(1, 3) == [1, 2]
  {
  }

  lemma BoundaryLost(windowSize: nat, first: seq<byte>, second: seq<byte>, next: Msg)
    requires first != [] && second != [] && next != [] && |first| + |second| + |next| <= windowSize < 0x10000
    ensures var ms := [first + second, next];
            var h := [Frag(0, 0, first), Frag(|first|, 0, second), Frag(|first| + |second|, 1, next)];
            && Tiles(ms, h) && Sendable(ms, h)
            && Run(UpRun(Init(windowSize), []), ms, h, [0, 2, 1, 2]).returned == [first + second + next]
  {
    hide Tiles, NonEmpty, Together, Run, Start;
    TwoMessages(first, second, next);
    var h := [Frag(0, 0, first), Frag(|first|, 0, second), Frag(|first| + |second|, 1, next)];
    MergeFromInit([first + second, next], h, windowSize);
  }

  // ---------------------------------------------------------- the recovery

  /** Three messages of one packet each arriving last first: the later debt carries the earlier one through. */
  lemma TwoDebtsRecover(windowSize: nat, a: Msg, b: Msg, c: Msg)
    requires a != [] && b != [] && c != [] && |a| + |b| + |c| <= windowSize < 0x8000
    ensures var p, q := |a|, |a| + |b|;
            var s1 := Handle(Init(windowSize), q, c, |c|);
            var s2 := Handle(s1.st, p, b, |b|);
            var s3 := Handle(s2.st, 0, a, |a|);
            var s4 := Handle(s3.st, p, b, |b|);
            var s5 := Handle(s4.st, q, c, |c|);
            && s3.st.msgInfo == [Info(p, |b|), Info(q, |c|)]
            && s1.msgs == [] && s2.msgs == [] && s3.msgs == [a] && s4.msgs == [b] && s5.msgs == [c]
  {
    hide Handle, Declare, InWindow, AfterNext;
    var p, q, w := |a|, |a| + |b|, windowSize;
    var s0 := Init(w);
    WindowExact(s0, q, |c|);
    EarlyHeadDeclared(s0, q, c, |c|);
    var s1 := UpState(0, w, [], [], [Info(q, |c|)]);
    assert [Info(q, |c|)] + [] == [Info(q, |c|)];
    assert Handle(s0, q, c, |c|) == UpResult(s1, []);
    WindowExact(s1, p, |b|);
    EarlyHeadDeclared(s1, p, b, |b|);
    var s2 := UpState(0, w, [], [], [Info(p, |b|), Info(q, |c|)]);
    assert [Info(p, |b|)] + [Info(q, |c|)] == [Info(p, |b|), Info(q, |c|)];
    assert Handle(s1, p, b, |b|) == UpResult(s2, []);
    FirstOfThree(s2, a, |b|, |c|);
    SecondOfThree(w, p, b, |c|);
    ThirdOfThree(w, p, q, c);
  }

  lemma FirstOfThree(st: UpState, a: Msg, b: nat, c: nat)
    requires a != [] && 0 < b && 0 < c && |a| + b + c <= st.windowSize < 0x8000
    requires st == UpState(0, st.windowSize, [], [], [Info(|a|, b), Info(|a| + b, c)])
    ensures Handle(st, 0, a, |a|) == UpResult(st.(seqNum := |a|), [a])
  {
    hide Handle;
    var infos := [Info(0, |a|), Info(|a|, b), Info(|a| + b, c)];
    assert InfoBegins(st.msgInfo)[0] == |a|;
    assert Place(InfoBegins(st.msgInfo), 0, 0, 0) == 0;
    assert InsertAt(st.msgInfo, 0, Info(0, |a|)) == infos;
    ExpectedTaken(st, 0, a, |a|, infos);
    assert [] + a == a;
  }

  lemma SecondOfThree(w: nat, p: nat, b: Msg, c: nat)
    requires b != [] && 0 < p && 0 < c && p + |b| + c <= w < 0x8000
    ensures var infos := [Info(p, |b|), Info(p + |b|, c)];
            Handle(UpState(p, w, [], [], infos), p, b, |b|) == UpResult(UpState(p + |b|, w, [], [], infos), [b])
  {
    hide Handle, Declare;
    var infos := [Info(p, |b|), Info(p + |b|, c)];
    var st := UpState(p, w, [], [], infos);
    HeadAtItsTurn(st, |b|);
    assert st.msgInfo[1..] == [Info(p + |b|, c)];
    assert [Info(p, |b|), Info(p, |b|)] + [Info(p + |b|, c)] == [Info(p, |b|), Info(p, |b|), Info(p + |b|, c)];
    ExpectedTaken(st, p, b, |b|, [Info(p, |b|), Info(p, |b|), Info(p + |b|, c)]);
    assert [] + b == b;
  }

  lemma ThirdOfThree(w: nat, p: nat, q: nat, c: Msg)
    requires c != [] && 0 < p < q && q + |c| <= w < 0x8000
    ensures var st := UpState(q, w, [], [], [Info(p, q - p), Info(q, |c|)]);
            Handle(st, q, c, |c|).msgs == [c]
  {
    hide Handle;
    var st := UpState(q, w, [], [], [Info(p, q - p), Info(q, |c|)]);
    assert InfoBegins(st.msgInfo)[0] == p;
    assert Place(InfoBegins(st.msgInfo), q, q, 0) == 0;
    var infos := [Info(q, |c|), Info(p, q - p), Info(q, |c|)];
    assert InsertAt(st.msgInfo, 0, Info(q, |c|)) == infos;
    ExpectedTaken(st, q, c, |c|, infos);
    assert [] + c == c;
  }
}
