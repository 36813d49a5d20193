/** Whole runs of the receive control over one tiling: any order, any repeats. */
module RxRuns {
  import opened Base
  import opened Cyclic
  import opened Stream
  import opened RxSpec
  import opened RxProof

  /** A run: the control, the messages handed out, and the fragments whose packets were accepted. */
  datatype RxRun = RxRun(st: RxState, delivered: seq<Msg>, accepted: set<nat>)

  ghost function Arrive(r: RxRun, ms: seq<Msg>, f: Frag, i: nat): RxRun
    requires f.msg < |ms| && f.pos < 0x10000 && |ms[f.msg]| < 0x10000
  {
    var d := Deliver(r.st, ms, f);
    RxRun(d.st, r.delivered + d.msgs, if d.status == Ok then r.accepted + {i} else r.accepted)
  }

  ghost predicate Sendable(ms: seq<Msg>, h: seq<Frag>) {
    forall i :: 0 <= i < |h| ==> h[i].msg < |ms| && h[i].pos < 0x10000 && |ms[h[i].msg]| < 0x10000
  }

  /** Packets for the fragments at the given indices arrive one after the other. */
  ghost function Run(r: RxRun, ms: seq<Msg>, h: seq<Frag>, order: seq<nat>): RxRun
    requires Sendable(ms, h) && forall j :: 0 <= j < |order| ==> order[j] < |h|
    decreases |order|
  {
    if order == [] then r else Run(Arrive(r, ms, h[order[0]], order[0]), ms, h, order[1..])
  }

  ghost predicate RunInv(r: RxRun, ms: seq<Msg>, h: seq<Frag>, g: RxGhost) {
    && RxInv(r.st, ms, h, g) && BufferSuffices(r.st, ms)
    && r.delivered == ms[..g.k]
    && forall y :: y in r.accepted <==> Holds(g, y)
  }

  lemma ArriveInv(r: RxRun, ms: seq<Msg>, h: seq<Frag>, g: RxGhost, i: nat) returns (g': RxGhost)
    requires RunInv(r, ms, h, g) && i < |h|
    requires h[i].msg < |ms| && h[i].pos < 0x10000 && |ms[h[i].msg]| < 0x10000
    ensures RunInv(Arrive(r, ms, h[i], i), ms, h, g')
  {
    hide RxInv, Deliver, Accepts;
    g' := DeliverInv(r.st, ms, h, g, i);
    assert ms[..g.k] + ms[g.k..g'.k] == ms[..g'.k];
  }

  lemma {:induction false} RunKeeps(r: RxRun, ms: seq<Msg>, h: seq<Frag>, g: RxGhost, order: seq<nat>)
    returns (g': RxGhost)
    requires RunInv(r, ms, h, g) && Sendable(ms, h) && forall j :: 0 <= j < |order| ==> order[j] < |h|
    ensures RunInv(Run(r, ms, h, order), ms, h, g')
    decreases |order|
  {
    hide RunInv, Arrive;
    g' := g;
    if order != [] {
      var g1 := ArriveInv(r, ms, h, g, order[0]);
      g' := RunKeeps(Arrive(r, ms, h[order[0]], order[0]), ms, h, g1, order[1..]);
    }
  }

  /** The pending list is the accepted fragments beyond the gap, in order. */
  ghost predicate PendingIs(st: RxState, h: seq<Frag>, accepted: set<nat>, c: nat, fids: seq<nat>) {
    && FragList(h, st.frags, c, fids)
    && forall y :: y in fids <==> y in accepted && y > c
  }

  /** The first fragment of message x was accepted. */
  ghost predicate HeadAccepted(ms: seq<Msg>, h: seq<Frag>, accepted: set<nat>, x: nat)
    requires x <= |ms|
  {
    exists y :: y in accepted && y < |h| && h[y].pos == Start(ms, x)
  }

  /** The declared messages are those begun by an accepted packet and not complete, in order. */
  ghost predicate DeclaredIs(st: RxState, ms: seq<Msg>, h: seq<Frag>, accepted: set<nat>, k: nat, ids: seq<nat>) {
    && InfoList(ms, st.infos, k, ids)
    && forall x :: 0 <= x < |ms| ==> (x in ids <==> k <= x && HeadAccepted(ms, h, accepted, x))
  }

  /**
   * Reassembly: whatever the order and the repeats, the sequence number is
   * the length of the contiguous accepted prefix, the pending list is sorted
   * and holds exactly the accepted fragments beyond it, the declared messages
   * are exactly those begun and not complete, the messages handed out are
   * exactly those wholly inside the prefix, and the buffer holds the size and
   * the received part of the message in progress.
   */
  lemma Reassembly(ms: seq<Msg>, h: seq<Frag>, windowSize: nat, slots: nat, capacity: nat, order: seq<nat>)
    returns (c: nat, k: nat, fids: seq<nat>, ids: seq<nat>)
    requires Setting(ms, h, windowSize) && Sendable(ms, h)
    requires BufferSuffices(RxSpec.Init(windowSize, slots, capacity), ms)
    requires forall j :: 0 <= j < |order| ==> order[j] < |h|
    ensures var r := Run(RxRun(RxSpec.Init(windowSize, slots, capacity), [], {}), ms, h, order);
            && c <= |h| && (forall y :: 0 <= y < c ==> y in r.accepted) && c !in r.accepted
            && r.st.seqNum == Edge(h, c)
            && PendingIs(r.st, h, r.accepted, c, fids)
            && DeclaredIs(r.st, ms, h, r.accepted, k, ids)
            && DoneAt(ms, k, Edge(h, c)) && r.delivered == ms[..k]
            && r.st.buf == Partial(ms, k, Edge(h, c))
  {
    var st := RxSpec.Init(windowSize, slots, capacity);
    var begin, g0 := RxRun(st, [], {}), RxGhost(0, 0, [], []);
    InitialInv(ms, h, st);
    var g := RunKeeps(begin, ms, h, g0, order);
    c, k, fids, ids := g.c, g.k, g.fids, g.ids;
    GapOpen(Run(begin, ms, h, order), ms, h, g);
    Declarations(Run(begin, ms, h, order), ms, h, g);
  }

  lemma Declarations(r: RxRun, ms: seq<Msg>, h: seq<Frag>, g: RxGhost)
    requires RunInv(r, ms, h, g)
    ensures DeclaredIs(r.st, ms, h, r.accepted, g.k, g.ids)
  {
    hide Partial, Reach, BufferSuffices;
    forall x | 0 <= x < |ms| ensures x in g.ids <==> g.k <= x && HeadAccepted(ms, h, r.accepted, x) {
      if x in g.ids { IsBegun(r, ms, h, g, x); }
      if g.k <= x && HeadAccepted(ms, h, r.accepted, x) {
        var y :| y in r.accepted && y < |h| && h[y].pos == Start(ms, x);
        IsDeclared(r, ms, h, g, x, y);
      }
    }
  }

  lemma IsBegun(r: RxRun, ms: seq<Msg>, h: seq<Frag>, g: RxGhost, x: nat)
    requires RunInv(r, ms, h, g) && x < |ms| && x in g.ids
    ensures g.k <= x && HeadAccepted(ms, h, r.accepted, x)
  {
    if x == g.k && r.st.seqNum != Start(ms, x) {
      var y := HeadBelow(ms, h, g.c, x);
      assert Holds(g, y);
    } else {
      assert HeadPending(ms, h, g.fids, x);
      var y :| y in g.fids && y < |h| && h[y].pos == Start(ms, x);
      assert Holds(g, y);
    }
  }

  /** A message begun below the prefix has its first fragment there. */
  lemma {:induction false} HeadBelow(ms: seq<Msg>, h: seq<Frag>, c: nat, x: nat) returns (y: nat)
    requires Tiles(ms, h) && NonEmpty(ms) && c <= |h| && x < |ms| && Start(ms, x) < Edge(h, c)
    ensures y < c && h[y].pos == Start(ms, x)
    decreases c
  {
    y := c - 1;
    var f := h[y];
    assert Fits(ms, f) && f.pos == Edge(h, y);
    if Start(ms, x) < f.pos {
      y := HeadBelow(ms, h, c - 1, x);
    } else {
      MessageUnique(ms, f.msg, x, Start(ms, x));
    }
  }

  lemma RunParts(r: RxRun, ms: seq<Msg>, h: seq<Frag>, g: RxGhost)
    requires RunInv(r, ms, h, g)
    ensures Tiles(ms, h) && NonEmpty(ms) && g.c <= |h| && r.st.seqNum == Edge(h, g.c)
    ensures Linked(ms, h, r.st.seqNum, g) && DoneAt(ms, g.k, r.st.seqNum)
  {
  }

  lemma LinksSay(ms: seq<Msg>, h: seq<Frag>, seqNum: int, g: RxGhost)
    requires Linked(ms, h, seqNum, g)
    ensures Start(ms, g.k) < seqNum ==> g.k in g.ids
    ensures forall y | y in g.fids && y < |h| && IsHead(ms, h[y]) :: h[y].msg in g.ids
  {
  }

  lemma IsDeclared(r: RxRun, ms: seq<Msg>, h: seq<Frag>, g: RxGhost, x: nat, y: nat)
    requires RunInv(r, ms, h, g) && g.k <= x < |ms| && y in r.accepted && y < |h| && h[y].pos == Start(ms, x)
    ensures x in g.ids
  {
    assert Holds(g, y);
    RunParts(r, ms, h, g);
    hide RunInv, Linked, Tiles;
    LinksSay(ms, h, r.st.seqNum, g);
    HeadOf(ms, h, y, x);
    if y !in g.fids {
      EdgeMonotone(ms, h, y + 1, g.c);
      if g.k < x { StartMonotone(ms, g.k, x); }
    }
  }

  lemma HeadOf(ms: seq<Msg>, h: seq<Frag>, y: nat, x: nat)
    requires Tiles(ms, h) && NonEmpty(ms) && y < |h| && x < |ms| && h[y].pos == Start(ms, x)
    ensures h[y].msg == x && IsHead(ms, h[y]) && h[y].pos < h[y].End()
  {
    assert Fits(ms, h[y]);
    MessageUnique(ms, h[y].msg, x, h[y].pos);
  }

  lemma InitialInv(ms: seq<Msg>, h: seq<Frag>, st: RxState)
    requires Setting(ms, h, st.windowSize) && BufferSuffices(st, ms)
    requires st == RxSpec.Init(st.windowSize, st.slots, st.capacity)
    ensures RunInv(RxRun(st, [], {}), ms, h, RxGhost(0, 0, [], []))
  {
  }

  lemma GapOpen(r: RxRun, ms: seq<Msg>, h: seq<Frag>, g: RxGhost)
    requires RunInv(r, ms, h, g)
    ensures g.c !in r.accepted && PendingIs(r.st, h, r.accepted, g.c, g.fids)
  {
    forall y | y in g.fids ensures y > g.c {
      var j :| 0 <= j < |g.fids| && g.fids[j] == y;
      if j > 0 { assert g.fids[0] < g.fids[j]; }
    }
  }
}
