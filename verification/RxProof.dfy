/**
 * Reassembly: from fragments of one tiling, in any order and with repeats,
 * the tag's receive control rebuilds the messages byte for byte.
 */
module RxProof {
  import opened Base
  import opened Cyclic
  import opened Stream
  import opened RxSpec

  /**
   * Where a receive control stands in a tiling h of messages ms: the number of
   * fragments consumed, the message the next byte belongs to, and the indices
   * of the declared messages and of the pending fragments.
   */
  datatype RxGhost = RxGhost(c: nat, k: nat, ids: seq<nat>, fids: seq<nat>)

  ghost predicate Increasing(s: seq<nat>) { forall i, j :: 0 <= i < j < |s| ==> s[i] < s[j] }

  /** The messages and the tiling are such that absolute positions never reach 2^16. */
  ghost predicate Setting(ms: seq<Msg>, h: seq<Frag>, windowSize: nat) {
    && NonEmpty(ms) && Tiles(ms, h)
    && 0 < windowSize && Total(ms) + windowSize <= 0x10000
  }

  ghost predicate FragList(h: seq<Frag>, frags: seq<RxFrag>, c: nat, fids: seq<nat>) {
    && |frags| == |fids|
    && Increasing(fids)
    && forall j :: 0 <= j < |fids| ==>
         c <= fids[j] < |h| && frags[j].seqNum == h[fids[j]].pos && frags[j].data == h[fids[j]].data
  }

  ghost predicate InfoList(ms: seq<Msg>, infos: seq<Info>, k: nat, ids: seq<nat>) {
    && |infos| == |ids|
    && Increasing(ids)
    && forall j :: 0 <= j < |ids| ==>
         k <= ids[j] < |ms| && infos[j].begin == Start(ms, ids[j]) && infos[j].size == |ms[ids[j]]|
  }

  /** The first fragment of message x is pending. */
  ghost predicate HeadPending(ms: seq<Msg>, h: seq<Frag>, fids: seq<nat>, x: nat)
    requires x <= |ms|
  {
    exists y :: y in fids && y < |h| && h[y].pos == Start(ms, x)
  }

  /** A message is declared exactly while its first fragment is pending or its data incomplete. */
  ghost predicate Linked(ms: seq<Msg>, h: seq<Frag>, seqNum: int, g: RxGhost) {
    && g.k <= |ms|
    && (forall x | x in g.ids && x < |ms| && (x == g.k ==> seqNum == Start(ms, x)) :: HeadPending(ms, h, g.fids, x))
    && (forall y | y in g.fids && y < |h| && IsHead(ms, h[y]) :: h[y].msg in g.ids)
    && (Start(ms, g.k) < seqNum ==> g.ids != [] && g.ids[0] == g.k)
  }

  ghost predicate Reach(h: seq<Frag>, fids: seq<nat>, limit: int) {
    forall y :: y in fids ==> y < |h| && h[y].End() <= limit
  }

  /** The lists and counters agree with the tiling; holds throughout reassembly. */
  ghost predicate Agrees(st: RxState, ms: seq<Msg>, h: seq<Frag>, g: RxGhost) {
    && g.c <= |h| && st.seqNum == Edge(h, g.c)
    && DoneAt(ms, g.k, st.seqNum)
    && FragList(h, st.frags, g.c, g.fids)
    && InfoList(ms, st.infos, g.k, g.ids)
    && Linked(ms, h, st.seqNum, g)
  }

  /** Messages a to b - 1 with their sizes in front. */
  ghost function Framed(ms: seq<Msg>, a: nat, b: nat): seq<byte>
    requires a <= b <= |ms|
    decreases b
  {
    if a == b then [] else Framed(ms, a, b - 1) + Prefixed(ms[b - 1])
  }

  ghost function Prefixed(m: Msg): seq<byte> { Le16(Wrap(|m|)) + m }

  /** Size and received part of the message the position lies in. */
  ghost function Partial(ms: seq<Msg>, k: nat, pos: int): seq<byte>
    requires DoneAt(ms, k, pos)
  {
    if k < |ms| && Start(ms, k) < pos then Le16(Wrap(|ms[k]|)) + ms[k][..pos - Start(ms, k)] else []
  }

  ghost function Mid(ms: seq<Msg>, k: nat, pos: int): nat
    requires k <= |ms|
  {
    if Start(ms, k) < pos then 1 else 0
  }

  /** Room for everything up to the limit, with a size in front of each declared message. */
  ghost predicate Room(st: RxState, ms: seq<Msg>, g: RxGhost, limit: int) {
    g.k <= |ms| && |st.buf| + (limit - st.seqNum) + 2 * (|g.ids| - Mid(ms, g.k, st.seqNum)) <= st.capacity
  }

  // ------------------------------------------------------ one turn of the loop

  /** The next pending fragment lies beyond the position: nothing is written and the loop ends. */
  lemma NothingHere(st: RxState, ms: seq<Msg>, h: seq<Frag>, g: RxGhost)
    requires Setting(ms, h, st.windowSize) && Agrees(st, ms, h, g)
    requires g.fids != [] && g.fids[0] > g.c
    ensures !BeginsHere(st) && st.frags[0].seqNum != st.seqNum
  {
    forall y | y in g.fids ensures y < |h| && h[y].pos > st.seqNum {
      var j :| 0 <= j < |g.fids| && g.fids[j] == y;
      assert g.fids[0] <= y;
      Beyond(ms, h, g.c, y);
    }
    assert g.fids[0] in g.fids;
    if g.ids != [] && g.ids[0] > g.k { StartMonotone(ms, g.k, g.ids[0]); }
  }

  lemma Beyond(ms: seq<Msg>, h: seq<Frag>, c: nat, y: nat)
    requires Tiles(ms, h) && c < y < |h|
    ensures h[y].pos > Edge(h, c)
  {
    EdgeMonotone(ms, h, c, y);
    assert Fits(ms, h[c]);
    assert Fits(ms, h[y]);
  }

  /** The next pending fragment is the next one of the tiling: its message is at the head of the declared ones. */
  lemma HeadHere(st: RxState, ms: seq<Msg>, h: seq<Frag>, g: RxGhost)
    requires Setting(ms, h, st.windowSize) && Agrees(st, ms, h, g)
    requires g.fids != [] && g.fids[0] == g.c
    ensures var f := h[g.c];
            && Fits(ms, f) && f.pos == st.seqNum && f.msg == g.k < |ms|
            && g.ids != [] && g.ids[0] == g.k
            && (BeginsHere(st) <==> st.seqNum == Start(ms, g.k))
            && st.frags[0] == RxFrag(st.seqNum, f.data)
  {
    var f := h[g.c];
    assert Fits(ms, f);
    FragmentCompletes(ms, f, g.k);
    assert g.c in g.fids;
    if st.seqNum == Start(ms, g.k) {
      assert IsHead(ms, f);
      assert g.k in g.ids;
      var i :| 0 <= i < |g.ids| && g.ids[i] == g.k;
      assert i == 0;
    }
  }

  /** The absolute view after the next fragment is consumed. */
  ghost function Advance(ms: seq<Msg>, h: seq<Frag>, g: RxGhost): RxGhost
    requires g.c < |h| && g.k < |ms| && g.fids != [] && g.ids != []
  {
    if h[g.c].End() == Start(ms, g.k) + |ms[g.k]| then RxGhost(g.c + 1, g.k + 1, g.ids[1..], g.fids[1..])
    else RxGhost(g.c + 1, g.k, g.ids, g.fids[1..])
  }

  lemma AdvanceLists(ms: seq<Msg>, h: seq<Frag>, infos: seq<Info>, frags: seq<RxFrag>, g: RxGhost)
    requires FragList(h, frags, g.c, g.fids) && g.fids != [] && g.fids[0] == g.c
    requires InfoList(ms, infos, g.k, g.ids) && g.ids != [] && g.ids[0] == g.k
    ensures FragList(h, frags[1..], g.c + 1, g.fids[1..])
    ensures InfoList(ms, infos[1..], g.k + 1, g.ids[1..])
  {
  }

  lemma InTail(s: seq<nat>, x: nat)
    requires Increasing(s) && s != []
    ensures x in s[1..] <==> x in s && x != s[0]
  {
    if x in s && x != s[0] {
      var i :| 0 <= i < |s| && s[i] == x;
      assert s[1..][i - 1] == x;
    }
  }

  lemma AdvanceLinked(ms: seq<Msg>, h: seq<Frag>, seqNum: int, g: RxGhost)
    requires Linked(ms, h, seqNum, g) && Increasing(g.ids) && Increasing(g.fids)
    requires NonEmpty(ms) && Tiles(ms, h)
    requires g.c < |h| && seqNum == h[g.c].pos && Fits(ms, h[g.c]) && h[g.c].msg == g.k < |ms|
    requires g.fids != [] && g.fids[0] == g.c && g.ids != [] && g.ids[0] == g.k
    ensures Linked(ms, h, h[g.c].End(), Advance(ms, h, g))
  {
    var g' := Advance(ms, h, g);
    var end := h[g.c].End();
    forall x | x in g'.ids && x < |ms| && (x == g'.k ==> end == Start(ms, x))
      ensures HeadPending(ms, h, g'.fids, x)
    {
      InTail(g.ids, x);
      assert x != g.k;
      StartMonotone(ms, g.k, x);
      var y :| y in g.fids && y < |h| && h[y].pos == Start(ms, x);
      InTail(g.fids, y);
    }
    forall y | y in g'.fids && y < |h| && IsHead(ms, h[y]) ensures h[y].msg in g'.ids {
      InTail(g.fids, y);
      Beyond(ms, h, g.c, y);
      InTail(g.ids, h[y].msg);
    }
  }

  /** The buffer after the next fragment, with the size written first where its message begins. */
  ghost function Taken(st: RxState, f: Frag): RxState
    requires st.infos != [] && st.frags != []
  {
    var s := if BeginsHere(st) then st.(buf := st.buf + Le16(st.infos[0].size)) else st;
    s.(buf := s.buf + f.data, seqNum := Wrap(f.End()), frags := st.frags[1..])
  }

  /** Where the fragment lies within its message, in the buffer. */
  lemma PartialGrows(ms: seq<Msg>, k: nat, f: Frag)
    requires NonEmpty(ms) && Fits(ms, f) && f.msg == k && DoneAt(ms, k, f.pos)
    ensures var size := if f.pos == Start(ms, k) then Le16(Wrap(|ms[k]|)) else [];
            Partial(ms, k, f.pos) + size + f.data == Le16(Wrap(|ms[k]|)) + ms[k][..f.End() - Start(ms, k)]
  {
    var s, m, w := Start(ms, k), ms[k], Le16(Wrap(|ms[k]|));
    var a, b := f.pos - s, f.End() - s;
    assert m[..a] + m[a..b] == m[..b];
    if a == 0 {
      assert m[..b] == f.data;
      assert [] + w + f.data == w + f.data;
    } else {
      assert w + m[..a] + [] + m[a..b] == w + (m[..a] + m[a..b]);
    }
  }

  /** Messages in order, whole ones first: extending the buffer by one fragment. */
  lemma BufferGrows(ms: seq<Msg>, k0: nat, k: nat, f: Frag, buf: seq<byte>)
    requires NonEmpty(ms) && Fits(ms, f) && f.msg == k && DoneAt(ms, k, f.pos) && k0 <= k
    requires buf == Framed(ms, k0, k) + Partial(ms, k, f.pos)
    ensures var k' := if f.End() == Start(ms, k) + |ms[k]| then k + 1 else k;
            && DoneAt(ms, k', f.End())
            && (if f.pos == Start(ms, k) then buf + Le16(Wrap(|ms[k]|)) else buf) + f.data
               == Framed(ms, k0, k') + Partial(ms, k', f.End())
  {
    PartialGrows(ms, k, f);
    FragmentCompletes(ms, f, k);
    var size := if f.pos == Start(ms, k) then Le16(Wrap(|ms[k]|)) else [];
    var a, p, q := Framed(ms, k0, k), Partial(ms, k, f.pos), ms[k][..f.End() - Start(ms, k)];
    assert a + p + size + f.data == a + (p + size + f.data);
    assert buf + [] == buf;
    if f.End() == Start(ms, k) + |ms[k]| {
      assert q == ms[k];
      assert Framed(ms, k0, k + 1) + [] == a + Prefixed(ms[k]);
    }
  }

  // ------------------------------------------------------------ the whole loop

  /** The loop invariant of reassembly; k0 is the message the call began in. */
  ghost predicate Looping(st: RxState, ms: seq<Msg>, h: seq<Frag>, g: RxGhost, k0: nat, limit: int) {
    && Setting(ms, h, st.windowSize) && Agrees(st, ms, h, g)
    && k0 <= g.k && st.buf == Framed(ms, k0, g.k) + Partial(ms, g.k, st.seqNum)
    && Room(st, ms, g, limit) && Reach(h, g.fids, limit)
  }

  lemma BelowTotal(ms: seq<Msg>, f: Frag)
    requires Fits(ms, f)
    ensures f.End() <= Start(ms, f.msg) + |ms[f.msg]| <= Total(ms)
  {
    StartMonotone(ms, f.msg, |ms|);
  }

  /** The writes of one turn fit. */
  lemma TurnFits(st: RxState, ms: seq<Msg>, h: seq<Frag>, g: RxGhost, k0: nat, limit: int)
    requires Looping(st, ms, h, g, k0, limit) && g.fids != [] && g.fids[0] == g.c
    ensures var n := if BeginsHere(st) then 2 else 0;
            Fits2(st, n + |h[g.c].data|)
  {
    HeadHere(st, ms, h, g);
    assert g.c in g.fids;
  }

  ghost function Turned(st: RxState, f: Frag): RxState
    requires st.infos != [] && st.frags != []
  {
    var s := Taken(st, f);
    if EndsHere(s) then s.(infos := s.infos[1..]) else s
  }

  lemma TurnEnds(st: RxState, ms: seq<Msg>, h: seq<Frag>, g: RxGhost)
    requires Setting(ms, h, st.windowSize) && Agrees(st, ms, h, g)
    requires g.fids != [] && g.fids[0] == g.c
    ensures var f := h[g.c];
            && f.msg == g.k < |ms| && g.ids != [] && Fits(ms, f)
            && (EndsHere(Taken(st, f)) <==> f.End() == Start(ms, g.k) + |ms[g.k]|)
            && Turned(st, f).seqNum == f.End()
  {
    HeadHere(st, ms, h, g);
    BelowTotal(ms, h[g.c]);
  }

  lemma TurnAgrees(st: RxState, ms: seq<Msg>, h: seq<Frag>, g: RxGhost)
    requires Setting(ms, h, st.windowSize) && Agrees(st, ms, h, g)
    requires g.fids != [] && g.fids[0] == g.c
    ensures g.k < |ms| && g.ids != []
    ensures Agrees(Turned(st, h[g.c]), ms, h, Advance(ms, h, g))
  {
    hide Linked, DoneAt;
    var f := h[g.c];
    HeadHere(st, ms, h, g);
    TurnEnds(st, ms, h, g);
    AdvanceLists(ms, h, st.infos, st.frags, g);
    AdvanceLinked(ms, h, st.seqNum, g);
    FragmentCompletes(ms, f, g.k);
  }

  lemma TurnRoom(st: RxState, ms: seq<Msg>, h: seq<Frag>, g: RxGhost, k0: nat, limit: int)
    requires Looping(st, ms, h, g, k0, limit) && g.fids != [] && g.fids[0] == g.c
    ensures g.k < |ms| && g.ids != []
    ensures Room(Turned(st, h[g.c]), ms, Advance(ms, h, g), limit)
  {
    HeadHere(st, ms, h, g);
    TurnEnds(st, ms, h, g);
  }

  lemma TurnBuffer(st: RxState, ms: seq<Msg>, h: seq<Frag>, g: RxGhost, k0: nat, limit: int)
    requires Looping(st, ms, h, g, k0, limit) && g.fids != [] && g.fids[0] == g.c
    ensures g.k < |ms| && g.ids != []
    ensures var g', s := Advance(ms, h, g), Turned(st, h[g.c]);
            && DoneAt(ms, g'.k, s.seqNum)
            && s.buf == Framed(ms, k0, g'.k) + Partial(ms, g'.k, s.seqNum)
  {
    hide Linked, Partial, Framed, Room, EndsHere, FragList, Edge, Prefixed;
    HeadHere(st, ms, h, g);
    TurnEnds(st, ms, h, g);
    SizeInfo(st, ms, h, g);
    BufferGrows(ms, k0, g.k, h[g.c], st.buf);
  }

  /** The size on record for the message being received. */
  lemma SizeInfo(st: RxState, ms: seq<Msg>, h: seq<Frag>, g: RxGhost)
    requires Agrees(st, ms, h, g) && g.ids != [] && g.ids[0] == g.k
    ensures g.k < |ms| && st.infos != [] && st.infos[0].size == Wrap(|ms[g.k]|)
  {
  }

  lemma TurnLooping(st: RxState, ms: seq<Msg>, h: seq<Frag>, g: RxGhost, k0: nat, limit: int)
    requires Looping(st, ms, h, g, k0, limit) && g.fids != [] && g.fids[0] == g.c
    ensures g.k < |ms| && g.ids != []
    ensures Looping(Turned(st, h[g.c]), ms, h, Advance(ms, h, g), k0, limit)
  {
    hide Agrees, Room;
    TurnAgrees(st, ms, h, g);
    TurnRoom(st, ms, h, g, k0, limit);
    TurnBuffer(st, ms, h, g, k0, limit);
    forall y | y in g.fids[1..] ensures y < |h| && h[y].End() <= limit { assert y in g.fids; }
  }

  /** Reassembly is over: the next fragment of the tiling is not pending. */
  ghost predicate AtGap(g: RxGhost) { g.fids != [] ==> g.fids[0] > g.c }

  /** The fragments ever taken in: the consumed prefix and the pending ones. */
  ghost predicate Holds(g: RxGhost, y: nat) { y < g.c || y in g.fids }

  ghost predicate SameHeld(g: RxGhost, g': RxGhost) { forall y :: Holds(g, y) <==> Holds(g', y) }

  lemma AdvanceHeld(ms: seq<Msg>, h: seq<Frag>, g: RxGhost)
    requires g.c < |h| && g.k < |ms| && g.fids != [] && g.ids != []
    requires Increasing(g.fids) && g.fids[0] == g.c
    ensures SameHeld(g, Advance(ms, h, g))
  {
    forall y: nat ensures Holds(g, y) <==> Holds(Advance(ms, h, g), y) { InTail(g.fids, y); }
  }

  lemma TurnUnfolds(st: RxState, f: Frag, n: nat)
    requires st.infos != [] && st.frags != [] && st.frags[0] == RxFrag(st.seqNum, f.data) && f.pos == st.seqNum
    requires Fits2(st, (if BeginsHere(st) then 2 else 0) + |f.data|)
    ensures Assemble(st, n) == Assemble(Turned(st, f), if EndsHere(Taken(st, f)) then n + 1 else n)
  {
  }

  /** One turn of Assemble on a fragment that is next: it is the state computed above. */
  lemma AssembleTurn(st: RxState, ms: seq<Msg>, h: seq<Frag>, g: RxGhost, k0: nat, limit: int, n: nat)
    requires Looping(st, ms, h, g, k0, limit) && g.fids != [] && g.fids[0] == g.c
    ensures g.k < |ms| && g.ids != []
    ensures Assemble(st, n) == Assemble(Turned(st, h[g.c]), n + Advance(ms, h, g).k - g.k)
  {
    hide Linked, Partial, Framed, Room, Setting, DoneAt, Assemble, Reach, Turned, Taken, InfoList;
    HeadHere(st, ms, h, g);
    TurnFits(st, ms, h, g, k0, limit);
    TurnEnds(st, ms, h, g);
    ListsMatch(st, ms, h, g);
    TurnUnfolds(st, h[g.c], n);
  }

  lemma ListsMatch(st: RxState, ms: seq<Msg>, h: seq<Frag>, g: RxGhost)
    requires Agrees(st, ms, h, g)
    ensures |st.infos| == |g.ids| && |st.frags| == |g.fids|
  {
  }

  lemma AssembleStops(st: RxState, ms: seq<Msg>, h: seq<Frag>, g: RxGhost, n: nat)
    requires Setting(ms, h, st.windowSize) && Agrees(st, ms, h, g) && AtGap(g)
    ensures Assemble(st, n) == RxResult(st, Ok, n)
  {
    if g.fids != [] { NothingHere(st, ms, h, g); }
  }

  lemma {:induction false} AssembleInv(st: RxState, ms: seq<Msg>, h: seq<Frag>, g: RxGhost, k0: nat, limit: int)
    returns (g': RxGhost)
    requires Looping(st, ms, h, g, k0, limit)
    ensures var r := Assemble(st, g.k - k0);
            && r.status == Ok && r.nMsgs == g'.k - k0
            && Looping(r.st, ms, h, g', k0, limit) && AtGap(g') && SameHeld(g, g')
            && g.c <= g'.c && g.k <= g'.k && |g'.ids| + g'.k - g.k == |g.ids|
    decreases |st.frags|
  {
    hide Linked, Partial, Framed, Room, Setting, DoneAt, Assemble, Reach;
    g' := g;
    if AtGap(g) {
      AssembleStops(st, ms, h, g, g.k - k0);
    } else {
      AssembleTurn(st, ms, h, g, k0, limit, g.k - k0);
      TurnLooping(st, ms, h, g, k0, limit);
      AdvanceHeld(ms, h, g);
      g' := AssembleInv(Turned(st, h[g.c]), ms, h, Advance(ms, h, g), k0, limit);
    }
  }

  // ------------------------------------------------------------ sorted insertion

  lemma PosOrder(ms: seq<Msg>, h: seq<Frag>, i: nat, j: nat)
    requires Tiles(ms, h) && i < j < |h|
    ensures h[i].pos < h[i].End() <= h[j].pos
  {
    EdgeMonotone(ms, h, i + 1, j);
    assert Fits(ms, h[i]);
    assert Fits(ms, h[j]);
  }

  lemma InsertIncreasing(s: seq<nat>, p: nat, x: nat)
    requires Increasing(s) && p <= |s|
    requires forall j :: 0 <= j < p ==> s[j] < x
    requires forall j :: p <= j < |s| ==> x < s[j]
    ensures Increasing(InsertAt(s, p, x))
    ensures forall y :: y in InsertAt(s, p, x) <==> y == x || y in s
  {
    var t := InsertAt(s, p, x);
    forall y | y in s ensures y in t {
      var j :| 0 <= j < |s| && s[j] == y;
      assert t[if j < p then j else j + 1] == y;
    }
    assert t[p] == x;
  }

  /** Where a fragment of the tiling belongs in the list of pending ones, or that it is there already. */
  lemma StorePlace(ms: seq<Msg>, h: seq<Frag>, frags: seq<RxFrag>, c: nat, fids: seq<nat>, i: nat)
    requires Tiles(ms, h) && FragList(h, frags, c, fids) && i < |h| && h[i].pos < 0x10000
    ensures var p := FragPos(frags, h[i].pos, 0);
            && (forall j :: 0 <= j < p ==> fids[j] < i)
            && (forall j :: p <= j < |fids| ==> i <= fids[j])
            && (i in fids <==> p < |fids| && fids[p] == i)
  {
    var p := FragPos(frags, h[i].pos, 0);
    forall j | 0 <= j < p ensures fids[j] < i {
      assert frags[j].seqNum < h[i].pos;
      if i < fids[j] { PosOrder(ms, h, i, fids[j]); }
    }
    forall j | p <= j < |fids| ensures i <= fids[j] {
      if p < j { assert fids[p] < fids[j]; }
      if fids[p] < i { PosOrder(ms, h, fids[p], i); }
    }
  }

  lemma StoredList(h: seq<Frag>, frags: seq<RxFrag>, c: nat, fids: seq<nat>, p: nat, i: nat, f: RxFrag)
    requires FragList(h, frags, c, fids) && p <= |fids| && c <= i < |h|
    requires f.seqNum == h[i].pos && f.data == h[i].data
    requires Increasing(InsertAt(fids, p, i))
    ensures FragList(h, InsertAt(frags, p, f), c, InsertAt(fids, p, i))
  {
    hide Increasing;
  }

  /** A fragment not pending overlaps none that is. */
  lemma NoFragOverlap(ms: seq<Msg>, h: seq<Frag>, frags: seq<RxFrag>, c: nat, fids: seq<nat>, i: nat)
    requires Tiles(ms, h) && FragList(h, frags, c, fids) && i < |h| && h[i].End() < 0x10000 && i !in fids
    ensures h[i].pos < h[i].End()
    ensures var p := FragPos(frags, h[i].pos, 0);
            && (p < |frags| ==> h[i].End() <= frags[p].seqNum)
            && p <= |fids| && Increasing(InsertAt(fids, p, i))
            && forall y :: y in InsertAt(fids, p, i) <==> y == i || y in fids
  {
    hide InsertAt, Fits, FragPos;
    assert h[i].pos < h[i].End() by { PosBeforeEnd(ms, h, i); }
    StorePlace(ms, h, frags, c, fids, i);
    var p := FragPos(frags, h[i].pos, 0);
    if p < |fids| { PosOrder(ms, h, i, fids[p]); }
    forall j | p <= j < |fids| ensures i < fids[j] { assert fids[j] in fids; }
    InsertIncreasing(fids, p, i);
  }

  lemma PosBeforeEnd(ms: seq<Msg>, h: seq<Frag>, i: nat)
    requires Tiles(ms, h) && i < |h|
    ensures h[i].pos < h[i].End()
  {
    assert Fits(ms, h[i]);
  }

  lemma StoreInv(st: RxState, ms: seq<Msg>, h: seq<Frag>, g: RxGhost, i: nat)
    requires Setting(ms, h, st.windowSize) && FragList(h, st.frags, g.c, g.fids)
    requires g.c <= i < |h| && h[i].End() < 0x10000
    ensures var r := Store(st, h[i].pos, h[i].data);
            var p := FragPos(st.frags, h[i].pos, 0);
            && (i in g.fids ==> r == Changed(st, Invalid))
            && (i !in g.fids ==>
                  && p <= |g.fids|
                  && r.status == Ok && r.st == st.(frags := r.st.frags)
                  && FragList(h, r.st.frags, g.c, InsertAt(g.fids, p, i))
                  && forall y :: y in InsertAt(g.fids, p, i) <==> y == i || y in g.fids)
  {
    hide InsertAt, Fits, FragPos, Increasing, Tiles;
    PosBeforeEnd(ms, h, i);
    if i in g.fids {
      StorePlace(ms, h, st.frags, g.c, g.fids, i);
    } else {
      NoFragOverlap(ms, h, st.frags, g.c, g.fids, i);
      StoredList(h, st.frags, g.c, g.fids, FragPos(st.frags, h[i].pos, 0), i, RxFrag(h[i].pos, h[i].data));
    }
  }

  lemma DeclarePlace(ms: seq<Msg>, infos: seq<Info>, k: nat, ids: seq<nat>, x: nat)
    requires NonEmpty(ms) && InfoList(ms, infos, k, ids) && x < |ms| && Start(ms, x) < 0x10000
    ensures var p := InfoPos(infos, Start(ms, x), 0);
            && (forall j :: 0 <= j < p ==> ids[j] < x)
            && (forall j :: p <= j < |ids| ==> x <= ids[j])
            && (x in ids <==> p < |ids| && ids[p] == x)
  {
    var p := InfoPos(infos, Start(ms, x), 0);
    forall j | 0 <= j < p ensures ids[j] < x {
      assert infos[j].begin < Start(ms, x);
      if x < ids[j] { StartMonotone(ms, x, ids[j]); }
    }
    forall j | p <= j < |ids| ensures x <= ids[j] {
      if p < j { assert ids[p] < ids[j]; }
      if ids[p] < x { StartMonotone(ms, ids[p], x); }
    }
  }

  lemma InfoInsert(ms: seq<Msg>, infos: seq<Info>, k: nat, ids: seq<nat>, p: nat, x: nat)
    requires InfoList(ms, infos, k, ids) && p <= |ids| && k <= x < |ms|
    requires Start(ms, x) < 0x10000 && |ms[x]| < 0x10000
    requires forall j :: 0 <= j < p ==> ids[j] < x
    requires forall j :: p <= j < |ids| ==> x < ids[j]
    ensures InfoList(ms, InsertAt(infos, p, Info(Start(ms, x), |ms[x]|)), k, InsertAt(ids, p, x))
    ensures forall y :: y in InsertAt(ids, p, x) <==> y == x || y in ids
  {
    InsertIncreasing(ids, p, x);
    InsertedInfo(ms, infos, k, ids, p, x);
  }

  lemma InsertedInfo(ms: seq<Msg>, infos: seq<Info>, k: nat, ids: seq<nat>, p: nat, x: nat)
    requires InfoList(ms, infos, k, ids) && p <= |ids| && k <= x < |ms| && Increasing(InsertAt(ids, p, x))
    requires Start(ms, x) < 0x10000 && |ms[x]| < 0x10000
    ensures InfoList(ms, InsertAt(infos, p, Info(Start(ms, x), |ms[x]|)), k, InsertAt(ids, p, x))
  {
    hide Increasing, Start;
  }

  lemma DeclareTwice(st: RxState, ms: seq<Msg>, k: nat, ids: seq<nat>, x: nat)
    requires NonEmpty(ms) && InfoList(ms, st.infos, k, ids) && x in ids && x < |ms|
    requires Start(ms, x) + |ms[x]| < 0x10000
    ensures Declare(st, Start(ms, x), |ms[x]|) == Changed(st, Invalid)
  {
    DeclarePlace(ms, st.infos, k, ids, x);
  }

  /** A message that is not declared overlaps no declared one. */
  lemma NoOverlap(ms: seq<Msg>, infos: seq<Info>, k: nat, ids: seq<nat>, x: nat)
    requires NonEmpty(ms) && InfoList(ms, infos, k, ids) && x !in ids && x < |ms|
    requires Start(ms, x) < 0x10000
    ensures var p := InfoPos(infos, Start(ms, x), 0);
            p < |infos| ==> Start(ms, x) + |ms[x]| <= infos[p].begin
  {
    var p := InfoPos(infos, Start(ms, x), 0);
    DeclarePlace(ms, infos, k, ids, x);
    if p < |ids| { StartMonotone(ms, x, ids[p]); }
  }

  lemma DeclareNew(st: RxState, ms: seq<Msg>, k: nat, ids: seq<nat>, x: nat)
    requires NonEmpty(ms) && InfoList(ms, st.infos, k, ids) && x !in ids && k <= x < |ms|
    requires Start(ms, x) + |ms[x]| < 0x10000
    ensures var p, info := InfoPos(st.infos, Start(ms, x), 0), Info(Start(ms, x), |ms[x]|);
            Declare(st, Start(ms, x), |ms[x]|) ==
            if |st.infos| >= st.slots then Changed(st, NoMemory)
            else Changed(st.(infos := InsertAt(st.infos, p, info)), Ok)
  {
    hide InsertAt, InfoList, NonEmpty, Start;
    NoOverlap(ms, st.infos, k, ids, x);
  }

  lemma NotAmong(ids: seq<nat>, p: nat, x: nat)
    requires x !in ids && forall j :: p <= j < |ids| ==> x <= ids[j]
    ensures forall j :: p <= j < |ids| ==> x < ids[j]
  {
    forall j | p <= j < |ids| ensures x < ids[j] { assert ids[j] in ids; }
  }

  lemma DeclaredList(st: RxState, ms: seq<Msg>, k: nat, ids: seq<nat>, x: nat)
    requires NonEmpty(ms) && InfoList(ms, st.infos, k, ids) && x !in ids && k <= x < |ms|
    requires Start(ms, x) + |ms[x]| < 0x10000
    ensures var p, info := InfoPos(st.infos, Start(ms, x), 0), Info(Start(ms, x), |ms[x]|);
            && p <= |ids|
            && InfoList(ms, InsertAt(st.infos, p, info), k, InsertAt(ids, p, x))
            && forall y :: y in InsertAt(ids, p, x) <==> y == x || y in ids
  {
    hide InsertAt, Increasing;
    var p := InfoPos(st.infos, Start(ms, x), 0);
    DeclarePlace(ms, st.infos, k, ids, x);
    NotAmong(ids, p, x);
    InfoInsert(ms, st.infos, k, ids, p, x);
  }

  // ------------------------------------------------------------ handing out

  lemma {:induction false} FramedFront(ms: seq<Msg>, a: nat, b: nat)
    requires a < b <= |ms|
    ensures Framed(ms, a, b) == Prefixed(ms[a]) + Framed(ms, a + 1, b)
    decreases b
  {
    hide Prefixed;
    var first := Prefixed(ms[a]);
    if a + 1 == b {
      assert Framed(ms, a, a) == [] && Framed(ms, b, b) == [];
      assert [] + first == first && first + [] == first;
    } else {
      FramedFront(ms, a, b - 1);
      var mid, last := Framed(ms, a + 1, b - 1), Prefixed(ms[b - 1]);
      assert (first + mid) + last == first + (mid + last);
    }
  }

  lemma DrainOne(m: Msg, rest: seq<byte>, n: nat)
    requires |m| < 0x10000
    ensures var d := Drain(rest, n);
            Drain(Prefixed(m) + rest, n + 1) == d.(msgs := [m] + d.msgs)
  {
    hide Le16, Word;
    var w := Le16(|m|);
    var buf, end := w + m + rest, 2 + |m|;
    WordOfLe16(|m|);
    assert buf == Prefixed(m) + rest;
    assert buf[2..end] == m;
    assert buf[end..] == rest;
  }

  lemma {:induction false} DrainFramed(ms: seq<Msg>, a: nat, b: nat, tail: seq<byte>)
    requires a <= b <= |ms| && forall k :: a <= k < b ==> |ms[k]| < 0x10000
    ensures Drain(Framed(ms, a, b) + tail, b - a) == Drained(ms[a..b], tail, true)
    decreases b - a
  {
    hide Prefixed;
    if a == b {
      assert [] + tail == tail;
    } else {
      FramedFront(ms, a, b);
      var first, more := Prefixed(ms[a]), Framed(ms, a + 1, b);
      var rest := more + tail;
      assert (first + more) + tail == first + rest;
      DrainOne(ms[a], rest, b - a - 1);
      DrainFramed(ms, a + 1, b, tail);
      assert [ms[a]] + ms[a + 1..b] == ms[a..b];
    }
  }

  // ------------------------------------------------------------ one packet

  /** Between calls: nothing consumable is pending, and the buffer holds just the message in progress. */
  ghost predicate RxInv(st: RxState, ms: seq<Msg>, h: seq<Frag>, g: RxGhost) {
    && Setting(ms, h, st.windowSize) && Agrees(st, ms, h, g)
    && AtGap(g) && Reach(h, g.fids, st.seqNum + st.windowSize)
    && |g.ids| <= st.slots
    && st.buf == Partial(ms, g.k, st.seqNum)
  }

  /** Enough buffer for the largest message less a byte, a window, and a size per declared message. */
  ghost predicate BufferSuffices(st: RxState, ms: seq<Msg>) {
    forall k :: 0 <= k < |ms| ==> |ms[k]| - 1 + st.windowSize + 2 * st.slots <= st.capacity
  }

  /** The window test, on 16-bit values, is the absolute one. */
  lemma WindowTest(st: RxState, ms: seq<Msg>, h: seq<Frag>, c: nat, i: nat)
    requires Setting(ms, h, st.windowSize) && c <= |h| && st.seqNum == Edge(h, c) && i < |h|
    ensures 0 < h[i].End() < 0x10000 && h[i].pos < h[i].End()
    ensures InWindow(st, h[i].pos, |h[i].data|) <==> c <= i && h[i].End() <= st.seqNum + st.windowSize
  {
    FragBelow(ms, h, st.windowSize, i);
    hide Setting, Tiles, Wrap;
    if c <= i { EdgeMonotone(ms, h, c, i); } else { EdgeMonotone(ms, h, i + 1, c); }
    if c > 0 { FragBelow(ms, h, st.windowSize, c - 1); }
    WindowValues(st.seqNum, h[i].pos, |h[i].data|, st.windowSize);
  }

  lemma FragBelow(ms: seq<Msg>, h: seq<Frag>, windowSize: nat, i: nat)
    requires Setting(ms, h, windowSize) && i < |h|
    ensures h[i].pos < h[i].End() && h[i].data != [] && h[i].pos == Edge(h, i) && Tiles(ms, h)
    ensures h[i].End() + windowSize <= 0x10000 && 0 < windowSize
  {
    assert Fits(ms, h[i]);
    BelowTotal(ms, h[i]);
  }

  lemma WindowValues(seqNum: U16, pos: U16, size: nat, window: nat)
    requires 0 < size && pos + size < 0x10000 && seqNum + window <= 0x10000
    requires pos >= seqNum || pos + size <= seqNum
    ensures var begin := Wrap(pos - seqNum);
            begin < Wrap(begin + size) <= window <==> pos >= seqNum && pos + size <= seqNum + window
  {
  }

  /** A message whose first fragment is not pending and not consumed is not declared. */
  lemma NotDeclared(ms: seq<Msg>, h: seq<Frag>, seqNum: int, g: RxGhost, i: nat)
    requires Linked(ms, h, seqNum, g) && Tiles(ms, h) && NonEmpty(ms)
    requires i < |h| && i !in g.fids && IsHead(ms, h[i]) && seqNum <= h[i].pos
    requires DoneAt(ms, g.k, seqNum)
    ensures h[i].msg !in g.ids && g.k <= h[i].msg
  {
    var x := h[i].msg;
    if x < g.k { StartMonotone(ms, x, g.k); }
    if x in g.ids {
      assert x == g.k ==> seqNum == Start(ms, x);
      var y :| y in g.fids && y < |h| && h[y].pos == Start(ms, x);
      if y < i { PosOrder(ms, h, y, i); } else { PosOrder(ms, h, i, y); }
    }
  }

  /** The links survive adding a fragment, together with its message when it is a first one. */
  lemma JoinLinked(ms: seq<Msg>, h: seq<Frag>, seqNum: int, g: RxGhost, g1: RxGhost, i: nat)
    requires Linked(ms, h, seqNum, g) && g1.k == g.k && DoneAt(ms, g.k, seqNum) && NonEmpty(ms)
    requires i < |h| && h[i].msg < |ms| && seqNum <= h[i].pos && Fits(ms, h[i])
    requires Increasing(g1.ids) && Increasing(g.ids)
    requires forall x :: x in g.ids ==> g.k <= x
    requires forall y :: y in g1.fids <==> y == i || y in g.fids
    requires forall x :: x in g1.ids <==> x in g.ids || (IsHead(ms, h[i]) && x == h[i].msg)
    ensures Linked(ms, h, seqNum, g1)
  {
    forall x | x in g1.ids && x < |ms| && (x == g1.k ==> seqNum == Start(ms, x))
      ensures HeadPending(ms, h, g1.fids, x)
    {
      if x in g.ids {
        var y :| y in g.fids && y < |h| && h[y].pos == Start(ms, x);
        assert y in g1.fids;
      } else {
        assert i in g1.fids;
      }
    }
    if Start(ms, g.k) < seqNum {
      assert g.k in g1.ids by { assert g.ids[0] in g.ids; }
      var a :| 0 <= a < |g1.ids| && g1.ids[a] == g.k;
      if h[i].msg < g.k { StartMonotone(ms, h[i].msg, g.k); }
      assert g1.ids[0] in g1.ids;
    }
  }

  /** The state with the packet's message declared and its fragment stored, and its absolute view. */
  ghost function Declared(st: RxState, ms: seq<Msg>, f: Frag): RxState
    requires f.msg < |ms| && f.pos < 0x10000 && |ms[f.msg]| < 0x10000
  {
    if IsHead(ms, f) then
      st.(infos := InsertAt(st.infos, InfoPos(st.infos, f.pos, 0), Info(f.pos, |ms[f.msg]|)))
    else st
  }

  ghost function Joined(st: RxState, ms: seq<Msg>, h: seq<Frag>, g: RxGhost, i: nat): RxGhost
    requires i < |h| && h[i].msg < |ms| && h[i].pos < 0x10000
    requires |st.frags| == |g.fids| && |st.infos| == |g.ids|
  {
    var x := h[i].msg;
    g.(ids := if IsHead(ms, h[i]) then InsertAt(g.ids, InfoPos(st.infos, h[i].pos, 0), x) else g.ids,
       fids := InsertAt(g.fids, FragPos(st.frags, h[i].pos, 0), i))
  }

  /** The packet is new, inside the window, and there is room to declare its message. */
  ghost predicate Accepts(st: RxState, ms: seq<Msg>, h: seq<Frag>, g: RxGhost, i: nat)
    requires i < |h|
  {
    && !Holds(g, i)
    && h[i].End() <= st.seqNum + st.windowSize
    && (IsHead(ms, h[i]) ==> |st.infos| < st.slots)
  }

  /** What wtp_rx_handle_packet is called with for fragment f. */
  ghost function HandleFrag(st: RxState, ms: seq<Msg>, f: Frag): RxResult
    requires f.msg < |ms| && f.pos < 0x10000 && |ms[f.msg]| < 0x10000
  {
    Handle(st, f.pos, f.data, SizeField(ms, f))
  }

  lemma MessageSize(ms: seq<Msg>, h: seq<Frag>, windowSize: nat, i: nat)
    requires Setting(ms, h, windowSize) && i < |h|
    ensures Fits(ms, h[i]) && h[i].End() < 0x10000 && 0 < |ms[h[i].msg]| < 0x10000
    ensures Start(ms, h[i].msg) + |ms[h[i].msg]| < 0x10000
    ensures SizeField(ms, h[i]) != 0 <==> IsHead(ms, h[i])
  {
    assert Fits(ms, h[i]);
    BelowTotal(ms, h[i]);
  }

  /** Why it is not: held already or outside the window, or else no slot for its message. */
  ghost function Refusal(st: RxState, h: seq<Frag>, g: RxGhost, i: nat): Status
    requires i < |h|
  {
    if Holds(g, i) || h[i].End() > st.seqNum + st.windowSize then Invalid else NoMemory
  }

  /** A packet that is not accepted changes nothing. */
  lemma Rejected(st: RxState, ms: seq<Msg>, h: seq<Frag>, g: RxGhost, i: nat)
    requires RxInv(st, ms, h, g) && i < |h| && !Accepts(st, ms, h, g, i)
    ensures h[i].msg < |ms| && h[i].pos < 0x10000 && |ms[h[i].msg]| < 0x10000
    ensures var r := HandleFrag(st, ms, h[i]);
            r.st == st && r.nMsgs == 0 && r.status == Refusal(st, h, g, i)
  {
    hide Assemble, Linked, Partial, DoneAt, Reach;
    MessageSize(ms, h, st.windowSize, i);
    WindowTest(st, ms, h, g.c, i);
    if InWindow(st, h[i].pos, |h[i].data|) {
      StoreInv(st, ms, h, g, i);
      if IsHead(ms, h[i]) { RejectedHead(st, ms, h, g, i); }
    }
  }

  lemma RejectedHead(st: RxState, ms: seq<Msg>, h: seq<Frag>, g: RxGhost, i: nat)
    requires RxInv(st, ms, h, g) && i < |h| && !Accepts(st, ms, h, g, i)
    requires g.c <= i && h[i].End() <= st.seqNum + st.windowSize && IsHead(ms, h[i])
    requires Start(ms, h[i].msg) + |ms[h[i].msg]| < 0x10000
    ensures Declare(st, h[i].pos, |ms[h[i].msg]|) == Changed(st, Refusal(st, h, g, i))
  {
    var x := h[i].msg;
    if i in g.fids {
      assert x in g.ids;
      DeclareTwice(st, ms, g.k, g.ids, x);
    } else {
      EdgeMonotone(ms, h, g.c, i);
      assert Fits(ms, h[i]);
      NotDeclared(ms, h, st.seqNum, g, i);
      DeclareNew(st, ms, g.k, g.ids, x);
    }
  }

  /** An accepted packet is declared and stored, and then reassembly runs. */
  lemma AcceptedSteps(st: RxState, ms: seq<Msg>, h: seq<Frag>, g: RxGhost, i: nat)
    requires RxInv(st, ms, h, g) && i < |h| && Accepts(st, ms, h, g, i)
    ensures h[i].msg < |ms| && h[i].pos < 0x10000 && |ms[h[i].msg]| < 0x10000
    ensures var s := Store(Declared(st, ms, h[i]), h[i].pos, h[i].data);
            && s.status == Ok && HandleFrag(st, ms, h[i]) == Finish(s.st, Assemble(s.st, 0))
            && FragList(h, s.st.frags, g.c, Joined(st, ms, h, g, i).fids)
            && s.st == Declared(st, ms, h[i]).(frags := s.st.frags)
            && forall y :: y in Joined(st, ms, h, g, i).fids <==> y == i || y in g.fids
  {
    hide Assemble, Linked, Partial, DoneAt, Reach, InsertAt, InfoList;
    MessageSize(ms, h, st.windowSize, i);
    WindowTest(st, ms, h, g.c, i);
    StoreInv(Declared(st, ms, h[i]), ms, h, g, i);
    if IsHead(ms, h[i]) { AcceptedHead(st, ms, h, g, i); }
  }

  lemma AcceptedHead(st: RxState, ms: seq<Msg>, h: seq<Frag>, g: RxGhost, i: nat)
    requires RxInv(st, ms, h, g) && i < |h| && Accepts(st, ms, h, g, i) && IsHead(ms, h[i])
    requires Start(ms, h[i].msg) + |ms[h[i].msg]| < 0x10000
    ensures Declare(st, h[i].pos, |ms[h[i].msg]|) == Changed(Declared(st, ms, h[i]), Ok)
    ensures var d, g1 := Declared(st, ms, h[i]), Joined(st, ms, h, g, i);
            && InfoList(ms, d.infos, g.k, g1.ids)
            && forall x :: x in g1.ids <==> x in g.ids || x == h[i].msg
  {
    hide InsertAt, Partial, Reach;
    EdgeMonotone(ms, h, g.c, i);
    assert Fits(ms, h[i]);
    NotDeclared(ms, h, st.seqNum, g, i);
    DeclareNew(st, ms, g.k, g.ids, h[i].msg);
    DeclaredList(st, ms, g.k, g.ids, h[i].msg);
  }

  lemma JoinAgrees(st: RxState, ms: seq<Msg>, h: seq<Frag>, g: RxGhost, i: nat)
    requires RxInv(st, ms, h, g) && i < |h| && Accepts(st, ms, h, g, i)
    ensures h[i].msg < |ms| && h[i].pos < 0x10000 && |ms[h[i].msg]| < 0x10000
    ensures var s := Store(Declared(st, ms, h[i]), h[i].pos, h[i].data).st;
            Agrees(s, ms, h, Joined(st, ms, h, g, i)) && |Joined(st, ms, h, g, i).ids| <= st.slots
  {
    hide Partial, Reach, Assemble, Store, Linked, HandleFrag;
    AcceptedSteps(st, ms, h, g, i);
    MessageSize(ms, h, st.windowSize, i);
    EdgeMonotone(ms, h, g.c, i);
    var g1 := Joined(st, ms, h, g, i);
    assert forall x :: x in g.ids ==> g.k <= x;
    if IsHead(ms, h[i]) { AcceptedHead(st, ms, h, g, i); }
    JoinLinked(ms, h, st.seqNum, g, g1, i);
  }

  /** The buffer has room for whatever the accepted packet completes. */
  lemma JoinLooping(st: RxState, ms: seq<Msg>, h: seq<Frag>, g: RxGhost, i: nat)
    requires RxInv(st, ms, h, g) && i < |h| && Accepts(st, ms, h, g, i) && BufferSuffices(st, ms)
    ensures h[i].msg < |ms| && h[i].pos < 0x10000 && |ms[h[i].msg]| < 0x10000
    ensures var s := Store(Declared(st, ms, h[i]), h[i].pos, h[i].data).st;
            Looping(s, ms, h, Joined(st, ms, h, g, i), g.k, st.seqNum + st.windowSize)
  {
    hide Linked, Assemble, Store, HandleFrag;
    AcceptedSteps(st, ms, h, g, i);
    JoinAgrees(st, ms, h, g, i);
    var p := Partial(ms, g.k, st.seqNum);
    assert Framed(ms, g.k, g.k) + p == p;
    RoomAtStart(st, ms, g, Joined(st, ms, h, g, i).ids, h[i].msg);
  }

  lemma RoomAtStart(st: RxState, ms: seq<Msg>, g: RxGhost, ids: seq<nat>, m: nat)
    requires BufferSuffices(st, ms) && DoneAt(ms, g.k, st.seqNum)
    requires NonEmpty(ms) && m < |ms| && st.buf == Partial(ms, g.k, st.seqNum) && |ids| <= st.slots
    ensures |st.buf| + st.windowSize + 2 * (|ids| - Mid(ms, g.k, st.seqNum)) <= st.capacity
  {
    assert 0 < |ms[m]|;
  }

  lemma {:induction false} AssembleCount(st: RxState, n: nat)
    ensures Assemble(st, n).nMsgs <= n + |st.infos|
    decreases |st.frags|
  {
    if st.frags != [] && (BeginsHere(st) ==> Fits2(st, 2)) {
      var s := if BeginsHere(st) then st.(buf := st.buf + Le16(st.infos[0].size)) else st;
      var f := s.frags[0];
      if f.seqNum == s.seqNum && Fits2(s, |f.data|) {
        var s' := s.(buf := s.buf + f.data, seqNum := Wrap(s.seqNum + |f.data|), frags := s.frags[1..]);
        if EndsHere(s') { AssembleCount(s'.(infos := s'.infos[1..]), n + 1); } else { AssembleCount(s', n); }
      }
    }
  }

  /** One call completes no more messages than the store has slots, so its 8-bit count never wraps. */
  lemma MessageCountFits(st: RxState, seqNum: U16, data: seq<byte>, newMsgSize: U16)
    requires |st.infos| <= st.slots
    ensures Handle(st, seqNum, data, newMsgSize).nMsgs <= st.slots
  {
    hide Assemble;
    var d := if newMsgSize != 0 then Declare(st, seqNum, newMsgSize) else Changed(st, Ok);
    var s := Store(d.st, seqNum, data);
    AssembleCount(s.st, 0);
  }

  /** The call as the endpoint makes it: handle the packet, then hand out what was completed. */
  datatype Delivery = Delivery(st: RxState, status: Status, msgs: seq<Msg>, ok: bool)

  ghost function Deliver(st: RxState, ms: seq<Msg>, f: Frag): Delivery
    requires f.msg < |ms| && f.pos < 0x10000 && |ms[f.msg]| < 0x10000
  {
    var r := HandleFrag(st, ms, f);
    var d := Drain(r.st.buf, r.nMsgs);
    Delivery(r.st.(buf := d.rest), r.status, d.msgs, d.ok)
  }

  /**
   * One packet, for every fragment of the tiling and every state the
   * receiver can be in: it is accepted exactly when it is new, inside the
   * window and its message can be declared; then the messages handed out are
   * the next ones of the stream, byte for byte.  No write ever fails.
   */
  lemma DeliverInv(st: RxState, ms: seq<Msg>, h: seq<Frag>, g: RxGhost, i: nat) returns (g': RxGhost)
    requires RxInv(st, ms, h, g) && i < |h| && BufferSuffices(st, ms)
    ensures h[i].msg < |ms| && h[i].pos < 0x10000 && |ms[h[i].msg]| < 0x10000
    ensures var d := Deliver(st, ms, h[i]);
            && d.ok && RxInv(d.st, ms, h, g')
            && SameConfig(d.st, st)
            && g.c <= g'.c && g.k <= g'.k <= |ms| && d.msgs == ms[g.k..g'.k]
            && d.status == (if Accepts(st, ms, h, g, i) then Ok else Refusal(st, h, g, i))
            && (d.status != Ok ==> d.st == st && g' == g)
            && (d.status == Ok ==> |g'.ids| + g'.k - g.k <= st.slots)
            && (d.status == Ok ==> forall y :: Holds(g', y) <==> Holds(g, y) || y == i)
  {
    MessageSize(ms, h, st.windowSize, i);
    if Accepts(st, ms, h, g, i) {
      g' := DeliverAccepted(st, ms, h, g, i);
    } else {
      g' := g;
      Rejected(st, ms, h, g, i);
      assert ms[g.k..g.k] == [];
    }
  }

  lemma DeliverAccepted(st: RxState, ms: seq<Msg>, h: seq<Frag>, g: RxGhost, i: nat) returns (g': RxGhost)
    requires RxInv(st, ms, h, g) && i < |h| && BufferSuffices(st, ms) && Accepts(st, ms, h, g, i)
    ensures h[i].msg < |ms| && h[i].pos < 0x10000 && |ms[h[i].msg]| < 0x10000
    ensures var d := Deliver(st, ms, h[i]);
            && d.ok && RxInv(d.st, ms, h, g') && d.status == Ok
            && SameConfig(d.st, st)
            && g.c <= g'.c && g.k <= g'.k <= |ms| && d.msgs == ms[g.k..g'.k]
            && |g'.ids| + g'.k - g.k <= st.slots
            && forall y :: Holds(g', y) <==> Holds(g, y) || y == i
  {
    hide Linked, Store, Partial, Framed, Assemble, InsertAt, Room, HandleFrag;
    AcceptedSteps(st, ms, h, g, i);
    JoinLooping(st, ms, h, g, i);
    JoinAgrees(st, ms, h, g, i);
    var g1 := Joined(st, ms, h, g, i);
    var s := Store(Declared(st, ms, h[i]), h[i].pos, h[i].data).st;
    g' := AssembleInv(s, ms, h, g1, g.k, st.seqNum + st.windowSize);
    HandedOut(Assemble(s, 0).st, ms, h, g', g.k);
    EdgeMonotone(ms, h, g.c, g'.c);
  }

  lemma HandedOut(st: RxState, ms: seq<Msg>, h: seq<Frag>, g: RxGhost, k0: nat)
    requires Setting(ms, h, st.windowSize) && Agrees(st, ms, h, g) && k0 <= g.k
    requires st.buf == Framed(ms, k0, g.k) + Partial(ms, g.k, st.seqNum)
    ensures Drain(st.buf, g.k - k0) == Drained(ms[k0..g.k], Partial(ms, g.k, st.seqNum), true)
  {
    forall k | k0 <= k < g.k ensures |ms[k]| < 0x10000 { StartMonotone(ms, k, |ms|); }
    DrainFramed(ms, k0, g.k, Partial(ms, g.k, st.seqNum));
  }
}
