/**
 * What get_write_data is going to write, from the state before the call
 * (server/wtp/wtp/transmission.py): which packets and fragments fit by the
 * size estimate, and which cuts follow, from the lengths of the messages and
 * the room in the window.
 */
module SendPlan {
  import opened Base
  import opened Cyclic
  import opened TxSpec
  import opened TxProof

  /** What the size estimate counts for these control packets, and for these fragments. */
  ghost function Lengths(packets: seq<seq<byte>>): nat {
    if packets == [] then 0 else |packets[0]| + Lengths(packets[1..])
  }

  ghost function Estimate(fs: seq<TxFrag>): nat {
    if fs == [] then 0 else 4 + |fs[0].data| + Estimate(fs[1..])
  }

  /** What it leaves out: a checksum a record, and two bytes more on a first fragment. */
  ghost function Uncounted(fs: seq<TxFrag>): nat {
    if fs == [] then 0 else (if fs[0].msgSize != 0 then 3 else 1) + Uncounted(fs[1..])
  }

  /** How many packets, first to last, stay within the limit together. */
  ghost function Fitting(packets: seq<seq<byte>>, room: nat): (k: nat)
    ensures k <= |packets| && Lengths(packets[..k]) <= room
  {
    if packets == [] || |packets[0]| > room then 0 else
    var k := Fitting(packets[1..], room - |packets[0]|);
    assert packets[..1 + k][1..] == packets[1..][..k];
    1 + k
  }

  /** The fragments waiting to be sent again, in order. */
  ghost function Due(fs: seq<TxFrag>): seq<TxFrag> {
    if fs == [] then [] else (if fs[0].needSend then [fs[0]] else []) + Due(fs[1..])
  }

  /** How many of these fragments, first to last, stay within the room by the estimate. */
  ghost function FittingData(fs: seq<TxFrag>, room: nat): (k: nat)
    ensures k <= |fs| && Estimate(fs[..k]) <= room
  {
    if fs == [] || 4 + |fs[0].data| > room then 0 else
    var k := FittingData(fs[1..], room - 4 - |fs[0].data|);
    assert fs[..1 + k][1..] == fs[1..][..k];
    1 + k
  }

  // ---------------------------------------------------------------- the cuts

  /** How the cutting ends: with nothing to cut or no room, with a piece that fills the space, or by raising. */
  datatype Ending = Stops | Fills(size: nat) | Raises(size: nat)

  /** Messages cut to their end, their bytes, how many of them from their beginning, and what comes after them. */
  datatype Cuts = Cuts(whole: nat, bytes: nat, heads: nat, lastHead: bool, ending: Ending)
  {
    /** The last piece, if there is one. */
    function Last(): nat { if ending.Stops? then 0 else ending.size }

    function Records(): nat { whole + (if Last() > 0 then 1 else 0) }

    /** What the estimate counts, and what it leaves out. */
    function Counted(): nat { 4 * Records() + bytes + Last() }

    function Extra(): nat { Records() + 2 * heads + (if Last() > 0 && lastHead then 2 else 0) }
  }

  /**
   * The cuts, from what is left of each message, whether the first is not
   * begun, the space in the write and the room in the window: a message is
   * cut to its end while both allow; then the space or the window limits the
   * last piece, and a piece limited strictly by the window makes the next cut
   * raise.
   */
  function CutsFrom(rests: seq<nat>, head: bool, space: int, room: int, checksum: nat): Cuts
    decreases |rests|
  {
    if rests == [] || rests[0] == 0 then Cuts(0, 0, 0, head, Stops) else
    var most := space - (if head then 6 else 4) - checksum;
    if rests[0] <= most && rests[0] <= room then
      var c := CutsFrom(rests[1..], true, space - 4 - rests[0], room - rests[0], checksum);
      c.(whole := c.whole + 1, bytes := c.bytes + rests[0], heads := c.heads + if head then 1 else 0)
    else if most <= 0 || room <= 0 then Cuts(0, 0, 0, head, Stops)
    else if room < most then Cuts(0, 0, 0, head, Raises(room))
    else Cuts(0, 0, 0, head, Fills(most))
  }

  function Sizes(ms: seq<seq<byte>>): (s: seq<nat>)
    ensures |s| == |ms| && forall i :: 0 <= i < |s| ==> s[i] == |ms[i]|
  {
    seq(|ms|, i requires 0 <= i < |ms| => |ms[i]|)
  }

  /** The cut position is within the message being cut, and a cyclic one strictly inside it. */
  ghost predicate Within(st: TxState) {
    && st.msgFragmented <= (if st.messages == [] then 0 else |st.messages[0]|)
    && (st.cyclicCut ==> st.messages != [] && 0 < st.msgFragmented < |st.messages[0]|)
  }

  /** With the message at the head retired if it is fully cut. */
  function Current(st: TxState): TxState { if st.messages == [] then st else LoadNext(st) }

  ghost function Rests(st: TxState): seq<nat>
    requires Within(st)
  {
    if st.messages == [] then [] else [|st.messages[0]| - st.msgFragmented] + Sizes(st.messages[1..])
  }

  lemma CurrentWithin(st: TxState)
    requires Within(st)
    ensures Within(Current(st))
  {
  }

  /** With a cyclic cut position inside a message the first cut already raises. */
  ghost function CutsOf(st: TxState, space: int): Cuts
    requires Within(st)
  {
    var s := Current(st);
    CurrentWithin(st);
    if s.messages != [] && s.cyclicCut then Cuts(0, 0, 0, false, Raises(0))
    else CutsFrom(Rests(s), s.msgFragmented == 0, space, Room(s), ChecksumSize(s))
  }

  lemma NoneFirst(fs: seq<TxFrag>)
    requires NoneWaiting(fs)
    ensures FirstNeedSend(fs, 0) == |fs|
  {
  }

  /** The state with the new fragment written. */
  function Added(s: TxState, f: TxFrag): TxState { s.(fragments := s.fragments + [f.(armed := true)]) }

  /** One turn of the loop with nothing due. */
  lemma CutTurn(st: TxState, estimate: nat)
    requires estimate <= st.writeSize && NoneWaiting(st.fragments)
    ensures var made := MakeFragment(st, st.writeSize - estimate);
            if made.fragment.None? then SendLoop(st, estimate) == Sent(made.st, [], made.raised)
            else
              var f := made.fragment.value;
              var estimate' := estimate + 4 + |f.data|;
              && estimate' <= st.writeSize == made.st.writeSize && NoneWaiting(Added(made.st, f).fragments)
              && SendLoop(st, estimate) == Push(f, SendLoop(Added(made.st, f), estimate'))
  {
    hide MakeFragment, FirstNeedSend;
    NoneFirst(st.fragments);
    var avail := st.writeSize - estimate;
    var made := MakeFragment(st, avail);
    MadeFits(st, avail);
    if made.fragment.Some? {
      var f := made.fragment.value;
      var p := Select(st, avail);
      assert p == Picked(made.st.(fragments := st.fragments + [f]), |st.fragments|);
      assert Arm(p.st, p.index) == Added(made.st, f);
    }
  }

  lemma MadeFits(st: TxState, avail: int)
    ensures var made := MakeFragment(st, avail);
            && SameConfig(made.st, st)
            && (made.fragment.Some? ==> 0 < |made.fragment.value.data| && 4 + |made.fragment.value.data| <= avail
                                        && !made.fragment.value.needSend)
  {
  }

  /** The window room after a piece, wherever the next cut is made. */
  lemma RoomAfter(a: int, b: int, size: int)
    requires 0 <= size <= Wrap(a - Wrap(b))
    ensures Wrap(a - Wrap(b + size)) == Wrap(a - Wrap(b)) - size
  {
  }

  /** What MakeFragment gives for a message it can cut to its end. */
  lemma WholeMade(st: TxState, avail: int)
    requires Within(st) && Current(st).messages != [] && !Current(st).cyclicCut
    requires var s := Current(st); 0 < Rest(s) <= Space(s, avail) && Rest(s) <= Room(s)
    ensures var s, made := Current(st), MakeFragment(st, avail);
            && made.fragment.Some? && |made.fragment.value.data| == Rest(s)
            && (made.fragment.value.msgSize != 0 <==> s.msgFragmented == 0)
            && made.st == s.(msgFragmented := |s.messages[0]|)
  {
    hide Room, Space;
  }

  lemma RoomShrinks(s: TxState, u: TxState)
    requires s.messages != [] && 0 <= Rest(s) <= Room(s) && u.msgFragmented == 0
    requires u.seqNum == s.seqNum && u.windowSize == s.windowSize && u.msgBegin == Wrap(s.msgBegin + |s.messages[0]|)
    ensures Room(u) == Room(s) - Rest(s)
  {
    RoomAfter(s.seqNum + s.windowSize, s.msgBegin + s.msgFragmented, Rest(s));
  }

  /** A message cut to its end: the others remain, and the room less its bytes. */
  lemma WholePiece(st: TxState, avail: int)
    requires Within(st) && Current(st).messages != [] && !Current(st).cyclicCut
    requires var s := Current(st); 0 < Rest(s) <= Space(s, avail) && Rest(s) <= Room(s)
    ensures var s, made := Current(st), MakeFragment(st, avail);
            && made.fragment.Some? && |made.fragment.value.data| == Rest(s)
            && (made.fragment.value.msgSize != 0 <==> s.msgFragmented == 0)
            && var t := Added(made.st, made.fragment.value);
            && Within(t) && !t.cyclicCut && !Current(t).cyclicCut && Within(Current(t)) && Within(s)
            && Rests(Current(t)) == Rests(s)[1..] && Current(t).msgFragmented == 0
            && Room(Current(t)) == Room(s) - Rest(s) && ChecksumSize(Current(t)) == ChecksumSize(s)
  {
    hide MakeFragment, Room, Space;
    WholeMade(st, avail);
    CurrentWithin(st);
    var s, made := Current(st), MakeFragment(st, avail);
    var t := Added(made.st, made.fragment.value);
    RoomShrinks(s, LoadNext(t));
    assert Sizes(s.messages[1..]) == Rests(LoadNext(t));
  }

  /** A piece that fills the space: what is left is too little for another one. */
  lemma FullPiece(st: TxState, avail: int)
    requires Within(st) && Current(st).messages != [] && !Current(st).cyclicCut
    requires var s := Current(st); 0 < Space(s, avail) < Rest(s) && Space(s, avail) <= Room(s)
    ensures var s, made := Current(st), MakeFragment(st, avail);
            && made.fragment.Some? && |made.fragment.value.data| == Space(s, avail)
            && (made.fragment.value.msgSize != 0 <==> s.msgFragmented == 0)
            && var t := Added(made.st, made.fragment.value);
               MakeFragment(t, avail - 4 - Space(s, avail)) == Made(t, None, false) && Within(t) && !t.cyclicCut
  {
  }

  /** A piece limited strictly by the window: the next cut raises. */
  lemma WindowPiece(st: TxState, avail: int)
    requires Within(st) && Current(st).messages != [] && !Current(st).cyclicCut
    requires var s := Current(st); 0 < Room(s) < Space(s, avail) && Room(s) < Rest(s)
    ensures var s, made := Current(st), MakeFragment(st, avail);
            && made.fragment.Some? && |made.fragment.value.data| == Room(s)
            && (made.fragment.value.msgSize != 0 <==> s.msgFragmented == 0)
            && var t := Added(made.st, made.fragment.value);
               (forall a :: MakeFragment(t, a) == Made(t, None, true)) && Within(t) && t.cyclicCut
  {
  }

  /** No piece at all. */
  lemma NoPiece(st: TxState, avail: int)
    requires Within(st)
    requires var s := Current(st);
             s.messages == [] || s.cyclicCut || Rest(s) == 0 || Space(s, avail) <= 0 || Room(s) == 0
    ensures MakeFragment(st, avail).fragment.None?
    ensures MakeFragment(st, avail).raised <==> Current(st).messages != [] && Current(st).cyclicCut
    ensures MakeFragment(st, avail).st == Current(st) && Within(Current(st))
    ensures MakeFragment(st, avail).raised <==> Current(st).cyclicCut
  {
  }

  lemma FirstRest(s: TxState)
    requires Within(s)
    ensures Rests(s) == [] <==> s.messages == []
    ensures s.messages != [] ==> Rests(s)[0] == Rest(s)
  {
  }

  /**
   * What becomes of a plan: it raises exactly if planned, the position it
   * leaves is cyclic exactly then, and the sizes are those planned.
   */
  ghost predicate Follows(r: Sent, c: Cuts) {
    && r.raised == c.ending.Raises? == r.st.cyclicCut && Within(r.st)
    && Estimate(r.out) == c.Counted() && Uncounted(r.out) == c.Extra()
  }

  /** With nothing due, the loop makes exactly the cuts planned. */
  lemma {:induction false} CutsMade(st: TxState, estimate: nat)
    requires estimate <= st.writeSize && NoneWaiting(st.fragments) && Within(st)
    ensures Follows(SendLoop(st, estimate), CutsOf(st, st.writeSize - estimate))
    decreases st.writeSize - estimate, 1
  {
    hide SendLoop, Rests, Room, NoneWaiting, Current, Within, CutsOf, CutsFrom, Follows, Space;
    var s, avail := Current(st), st.writeSize - estimate;
    CurrentWithin(st);
    FirstRest(s);
    if s.messages == [] || s.cyclicCut || Rest(s) == 0 || Space(s, avail) <= 0 || Room(s) == 0 {
      NoneMade(st, estimate);
    } else if Rest(s) <= Space(s, avail) && Rest(s) <= Room(s) {
      MoreMade(st, estimate);
    } else {
      LastMade(st, estimate);
    }
  }

  lemma NoneMade(st: TxState, estimate: nat)
    requires estimate <= st.writeSize && NoneWaiting(st.fragments) && Within(st)
    requires var s, avail := Current(st), st.writeSize - estimate;
             s.messages == [] || s.cyclicCut || Rest(s) == 0 || Space(s, avail) <= 0 || Room(s) == 0
    ensures Follows(SendLoop(st, estimate), CutsOf(st, st.writeSize - estimate))
  {
    hide MakeFragment, SendLoop, Rests, Room, NoneWaiting, Current, Within;
    CutTurn(st, estimate);
    CurrentWithin(st);
    FirstRest(Current(st));
    NoPiece(st, st.writeSize - estimate);
  }

  /** The plan with its first message cut, against the plan of the state after that. */
  lemma PlanShrinks(st: TxState, t: TxState, avail: int)
    requires Within(st) && Within(t)
    requires var s, u := Current(st), Current(t);
             && Within(s) && Within(u) && s.messages != [] && !s.cyclicCut && !u.cyclicCut
             && 0 < Rest(s) <= Space(s, avail) && Rest(s) <= Room(s)
             && Rests(u) == Rests(s)[1..] && u.msgFragmented == 0
             && Room(u) == Room(s) - Rest(s) && ChecksumSize(u) == ChecksumSize(s)
    ensures var s, c := Current(st), CutsOf(t, avail - 4 - Rest(Current(st)));
            CutsOf(st, avail) == c.(whole := c.whole + 1, bytes := c.bytes + Rest(s),
                                    heads := c.heads + if s.msgFragmented == 0 then 1 else 0)
  {
    hide Current, Within, Rests, Room;
    FirstRest(Current(st));
  }

  lemma {:induction false} MoreMade(st: TxState, estimate: nat)
    requires estimate <= st.writeSize && NoneWaiting(st.fragments) && Within(st)
    requires Current(st).messages != [] && !Current(st).cyclicCut
    requires var s, avail := Current(st), st.writeSize - estimate;
             0 < Rest(s) <= Space(s, avail) && Rest(s) <= Room(s)
    ensures Follows(SendLoop(st, estimate), CutsOf(st, st.writeSize - estimate))
    decreases st.writeSize - estimate, 0
  {
    hide MakeFragment, SendLoop, Rests, Room, NoneWaiting, Current, Within, CutsOf, CutsFrom, Follows, Space;
    var s, avail := Current(st), st.writeSize - estimate;
    CutTurn(st, estimate);
    WholePiece(st, avail);
    var made := MakeFragment(st, avail);
    var f, t := made.fragment.value, Added(made.st, made.fragment.value);
    CutsMade(t, estimate + 4 + Rest(s));
    PlanShrinks(st, t, avail);
    WholeFirst(SendLoop(t, estimate + 4 + Rest(s)), CutsOf(t, avail - 4 - Rest(s)), CutsOf(st, avail), f);
  }

  lemma WholeFirst(r: Sent, c: Cuts, c': Cuts, f: TxFrag)
    requires Follows(r, c)
    requires c' == c.(whole := c.whole + 1, bytes := c.bytes + |f.data|,
                      heads := c.heads + if f.msgSize != 0 then 1 else 0)
    ensures Follows(Push(f, r), c')
  {
    hide Within;
    assert ([f] + r.out)[1..] == r.out;
  }

  lemma LastMade(st: TxState, estimate: nat)
    requires estimate <= st.writeSize && NoneWaiting(st.fragments) && Within(st)
    requires Current(st).messages != [] && !Current(st).cyclicCut
    requires var s, avail := Current(st), st.writeSize - estimate;
             Rest(s) != 0 && 0 < Space(s, avail) && 0 < Room(s) && !(Rest(s) <= Space(s, avail) && Rest(s) <= Room(s))
    ensures Follows(SendLoop(st, estimate), CutsOf(st, st.writeSize - estimate))
  {
    hide MakeFragment, SendLoop, Rests, Room, NoneWaiting, Current, Within;
    var s, avail := Current(st), st.writeSize - estimate;
    CutTurn(st, estimate);
    CurrentWithin(st);
    FirstRest(s);
    var made := MakeFragment(st, avail);
    var c := CutsOf(st, avail);
    if Room(s) < Space(s, avail) {
      WindowPiece(st, avail);
      CutTurn(Added(made.st, made.fragment.value), estimate + 4 + Room(s));
      assert c == Cuts(0, 0, 0, s.msgFragmented == 0, Raises(Room(s)));
    } else {
      FullPiece(st, avail);
      CutTurn(Added(made.st, made.fragment.value), estimate + 4 + Space(s, avail));
      assert c == Cuts(0, 0, 0, s.msgFragmented == 0, Fills(Space(s, avail)));
    }
    OnePiece(SendLoop(st, estimate), c, made.fragment.value, Added(made.st, made.fragment.value));
  }

  lemma OnePiece(r: Sent, c: Cuts, f: TxFrag, t: TxState)
    requires c == Cuts(0, 0, 0, f.msgSize != 0, c.ending) && !c.ending.Stops? && c.ending.size == |f.data| > 0
    requires r == Push(f, Sent(t, [], c.ending.Raises?)) && Within(t) && t.cyclicCut == c.ending.Raises?
    ensures Follows(r, c)
  {
    assert r.out == [f] && [f][1..] == [];
  }

  // ------------------------------------------------------ what is due first

  /** The first due fragment is the one selected. */
  lemma {:induction false} DueFrom(fs: seq<TxFrag>, i: nat)
    requires i <= |fs|
    ensures var k := FirstNeedSend(fs, i);
            if k == |fs| then Due(fs[i..]) == [] else Due(fs[i..]) == [fs[k]] + Due(fs[k + 1..])
    decreases |fs| - i
  {
    if i < |fs| {
      assert fs[i..][1..] == fs[i + 1..];
      if fs[i].needSend {
        assert FirstNeedSend(fs, i) == i;
      } else {
        DueFrom(fs, i + 1);
        assert [] + Due(fs[i + 1..]) == Due(fs[i + 1..]);
      }
    }
  }

  lemma {:induction false} DueNone(fs: seq<TxFrag>, i: nat)
    requires i <= |fs| && !exists j :: 0 <= j < i && fs[j].needSend
    ensures Due(fs) == Due(fs[i..])
    decreases i
  {
    if i == 0 {
      assert fs[0..] == fs;
    } else {
      DueNone(fs, i - 1);
      assert fs[i - 1..][1..] == fs[i..];
      assert [] + Due(fs[i..]) == Due(fs[i..]);
    }
  }

  /** With the first due fragment sent, the others remain. */
  lemma DueAfter(fs: seq<TxFrag>, k: nat, f: TxFrag)
    requires k == FirstNeedSend(fs, 0) < |fs| && !f.needSend
    ensures Due(fs) == [fs[k]] + Due(fs[k := f])
  {
    hide FirstNeedSend;
    DueFrom(fs, 0);
    assert fs[0..] == fs;
    var t := fs[k := f];
    DueNone(t, k + 1);
    assert t[k + 1..] == fs[k + 1..];
  }

  /** The state with the first due fragment written. */
  function FirstSent(st: TxState, k: nat): TxState
    requires k < |st.fragments|
  {
    st.(fragments := st.fragments[k := st.fragments[k].(needSend := false, armed := true)])
  }

  lemma DueTurn(st: TxState, estimate: nat)
    requires estimate <= st.writeSize && FirstNeedSend(st.fragments, 0) < |st.fragments|
    ensures var k := FirstNeedSend(st.fragments, 0);
            var f := st.fragments[k].(needSend := false);
            var estimate' := estimate + 4 + |f.data|;
            if estimate' > st.writeSize then
              var r := SendLoop(st, estimate);
              r.out == [] && !r.raised && r.st == st.(fragments := r.st.fragments)
            else SendLoop(st, estimate) == Push(f, SendLoop(FirstSent(st, k), estimate'))
  {
    hide FirstNeedSend, MakeFragment;
    var k := FirstNeedSend(st.fragments, 0);
    var s := st.(fragments := st.fragments[k := st.fragments[k].(needSend := false)]);
    assert Arm(s, k) == FirstSent(st, k);
  }

  lemma WaitingIff(fs: seq<TxFrag>)
    ensures NoneWaiting(fs) <==> FirstNeedSend(fs, 0) == |fs|
    ensures NoneWaiting(fs) <==> Due(fs) == []
  {
    DueFrom(fs, 0);
    assert fs[0..] == fs;
    if FirstNeedSend(fs, 0) < |fs| { assert fs[FirstNeedSend(fs, 0)].needSend; }
  }

  /** Due fragments that fit go first; when one does not, nothing else is sent, else the cuts follow. */
  ghost predicate Planned(r: Sent, st: TxState, space: nat)
    requires Within(st)
  {
    var due := Due(st.fragments);
    var k := FittingData(due, space);
    if k < |due| then
      && !r.raised && r.st == st.(fragments := r.st.fragments)
      && Estimate(r.out) == Estimate(due[..k]) && Uncounted(r.out) == Uncounted(due[..k])
    else
      var c := CutsOf(st, space - Estimate(due));
      && r.raised == c.ending.Raises? == r.st.cyclicCut && Within(r.st)
      && Estimate(r.out) == Estimate(due) + c.Counted() && Uncounted(r.out) == Uncounted(due) + c.Extra()
  }

  /** The plan with the first due fragment sent, against the plan before. */
  lemma PlannedPush(st: TxState, st': TxState, f: TxFrag, first: TxFrag, r: Sent, space: nat)
    requires Within(st) && Due(st.fragments) == [first] + Due(st'.fragments) && st' == st.(fragments := st'.fragments)
    requires f == first.(needSend := false) && 4 + |f.data| <= space && Within(st')
    requires Planned(r, st', space - 4 - |f.data|)
    ensures Planned(Push(f, r), st, space)
  {
    hide Within, Due, CutsFrom, Rests, Current;
    var due, rest := Due(st.fragments), Due(st'.fragments);
    assert due[1..] == rest;
    var k := FittingData(rest, space - 4 - |f.data|);
    assert FittingData(due, space) == 1 + k;
    assert due[..1 + k][1..] == rest[..k];
    assert ([f] + r.out)[1..] == r.out;
    SameCuts(st, st', space - Estimate(due));
  }

  /** The cuts have nothing to do with the fragments cut before. */
  lemma SameCuts(st: TxState, st': TxState, space: int)
    requires Within(st) && Within(st') && st' == st.(fragments := st'.fragments)
    ensures CutsOf(st, space) == CutsOf(st', space)
  {
    hide CutsFrom;
    assert Current(st') == Current(st).(fragments := st'.fragments);
    assert Rests(Current(st')) == Rests(Current(st));
  }

  lemma {:induction false} DataSent(st: TxState, estimate: nat)
    requires estimate <= st.writeSize && Within(st)
    ensures Planned(SendLoop(st, estimate), st, st.writeSize - estimate)
    decreases st.writeSize - estimate
  {
    hide Due, FirstNeedSend, SendLoop, Planned, CutsOf;
    var fs := st.fragments;
    WaitingIff(fs);
    if NoneWaiting(fs) {
      CutsMade(st, estimate);
      NothingDue(SendLoop(st, estimate), st, st.writeSize - estimate);
    } else {
      var k := FirstNeedSend(fs, 0);
      DueTurn(st, estimate);
      var t, estimate' := FirstSent(st, k), estimate + 4 + |fs[k].data|;
      DueAfter(fs, k, t.fragments[k]);
      if estimate' <= st.writeSize {
        DataSent(t, estimate');
        PlannedPush(st, t, fs[k].(needSend := false), fs[k], SendLoop(t, estimate'), st.writeSize - estimate);
      } else {
        FirstTooLong(SendLoop(st, estimate), st, st.writeSize - estimate);
      }
    }
  }

  lemma NothingDue(r: Sent, st: TxState, space: nat)
    requires Within(st) && Due(st.fragments) == [] && Follows(r, CutsOf(st, space))
    ensures Planned(r, st, space)
  {
    hide CutsOf, Within;
  }

  lemma FirstTooLong(r: Sent, st: TxState, space: nat)
    requires Within(st) && Due(st.fragments) != [] && 4 + |Due(st.fragments)[0].data| > space
    requires r.out == [] && !r.raised && r.st == st.(fragments := r.st.fragments)
    ensures Planned(r, st, space)
  {
    hide CutsOf, Within, Due;
  }

  // ------------------------------------------------------------ the whole call

  /** How many control packets and due fragments go out, and the cuts if it comes to those. */
  datatype Plan = Plan(packets: nat, due: nat, cuts: Option<Cuts>)
  {
    predicate Raised() { cuts.Some? && cuts.value.ending.Raises? }
  }

  ghost function PlanOf(st: TxState): (p: Plan)
    requires Within(st)
    ensures p.packets <= |st.packets| && p.due <= |Due(st.fragments)|
  {
    var n := Fitting(st.packets, st.writeSize);
    if n < |st.packets| then Plan(n, 0, None) else
    var space := st.writeSize - Lengths(st.packets[..n]);
    var k := FittingData(Due(st.fragments), space);
    if k < |Due(st.fragments)| then Plan(n, k, None)
    else Plan(n, k, Some(CutsOf(st, space - Estimate(Due(st.fragments)[..k]))))
  }

  /** What the estimate counts of all that, and what it leaves out. */
  ghost function Counted(st: TxState, p: Plan): nat
    requires p.packets <= |st.packets| && p.due <= |Due(st.fragments)|
  {
    Lengths(st.packets[..p.packets]) + Estimate(Due(st.fragments)[..p.due])
    + if p.cuts.Some? then p.cuts.value.Counted() else 0
  }

  ghost function Extra(st: TxState, p: Plan): nat
    requires p.due <= |Due(st.fragments)|
  {
    p.packets + Uncounted(Due(st.fragments)[..p.due]) + if p.cuts.Some? then p.cuts.value.Extra() else 0
  }

  lemma {:induction false} ControlFitting(packets: seq<seq<byte>>, estimate: nat, writeSize: nat)
    requires estimate <= writeSize
    ensures var c, k := ControlLoop(packets, estimate, writeSize), Fitting(packets, writeSize - estimate);
            && c.written == packets[..k] && (c.tooLong <==> k < |packets|)
            && (!c.tooLong ==> c.estimate == estimate + Lengths(packets))
    decreases |packets|
  {
    if packets != [] && |packets[0]| <= writeSize - estimate {
      ControlFitting(packets[1..], estimate + |packets[0]|, writeSize);
      var k := Fitting(packets[1..], writeSize - estimate - |packets[0]|);
      assert [packets[0]] + packets[1..][..k] == packets[..1 + k];
    }
  }

  /**
   * The whole call goes by the plan: it raises exactly if planned, sends the
   * packets and the bytes planned, and leaves a cyclic cut position exactly
   * if it raises or met one.
   */
  lemma CallPlanned(st: TxState)
    requires Within(st)
    ensures var w, p := GetWriteData(st), PlanOf(st);
            && w.raised == p.Raised() && w.control == st.packets[..p.packets]
            && Lengths(w.control) + Estimate(w.data) == Counted(st, p)
            && |w.control| + Uncounted(w.data) == Extra(st, p)
            && Within(w.st) && (w.st.cyclicCut <==> w.raised || st.cyclicCut)
  {
    hide SendLoop, ControlLoop, Lengths, Estimate, Uncounted, Due, CutsOf, FittingData, Fitting;
    var c := ControlLoop(st.packets, 0, st.writeSize);
    ControlFitting(st.packets, 0, st.writeSize);
    NothingSent();
    if !c.tooLong {
      assert st.packets[..|st.packets|] == st.packets;
      var s := st.(packets := c.rest);
      var due := Due(st.fragments);
      assert due[..|due|] == due;
      DataSent(s, c.estimate);
      CutsOfSame(st, s, s.writeSize - c.estimate - Estimate(due));
    }
  }

  lemma NothingSent()
    ensures Estimate([]) == 0 && Uncounted([]) == 0
  {
  }

  /** The cuts have nothing to do with the control packets, and from a cyclic position there are none. */
  lemma CutsOfSame(st: TxState, s: TxState, space: int)
    requires Within(st) && s == st.(packets := s.packets)
    ensures Within(s) && CutsOf(s, space) == CutsOf(st, space)
    ensures st.cyclicCut ==> CutsOf(st, space).ending.Raises?
  {
    hide CutsFrom;
    assert Current(s) == Current(st).(packets := s.packets);
    assert Rests(Current(s)) == Rests(Current(st));
  }

  /** A piece that fills the space is the last record, and with it the bytes reach the limit to the last one. */
  lemma {:induction false} FillsExactly(rests: seq<nat>, head: bool, space: int, room: int)
    requires CutsFrom(rests, head, space, room, 1).ending.Fills?
    ensures var c := CutsFrom(rests, head, space, room, 1);
            c.Last() > 0 && c.Counted() + c.Extra() == space + c.whole + 2 * c.heads
    decreases |rests|
  {
    var most := space - (if head then 6 else 4) - 1;
    if rests[0] <= most && rests[0] <= room {
      FillsExactly(rests[1..], true, space - 4 - rests[0], room - rests[0]);
    }
  }

  /** Messages that end within the window are never cut short by it. */
  lemma {:induction false} NeverRaises(rests: seq<nat>, head: bool, space: int, room: int, checksum: nat)
    requires Sum(rests) <= room
    ensures !CutsFrom(rests, head, space, room, checksum).ending.Raises?
    decreases |rests|
  {
    if rests != [] { NeverRaises(rests[1..], true, space - 4 - rests[0], room - rests[0], checksum); }
  }

  function Sum(rests: seq<nat>): nat { if rests == [] then 0 else rests[0] + Sum(rests[1..]) }
}
