/**
 * When the connection asks the reader for the next access
 * (server/wtp/wtp/connection.py, _request_access_spec): one at a time, and
 * what becomes of it when get_write_data raises.
 */
module AccessLoop {
  import opened Base
  import opened Stream
  import opened TxSpec
  import opened TxProof
  import opened SendPlan
  import opened WindowCut
  import Wire
  import WriteArrives
  import TxControl
  import TxRuns

  datatype OpSpec = Read(size: nat) | Write(written: Written)

  /**
   * The transmit control, the sizes of Reads asked for by the tag, the flag of
   * an ongoing AccessSpec, whether one is with the reader, and every OpSpec
   * sent to it so far.
   */
  datatype Link = Link(st: TxState, readSizes: seq<nat>, ongoing: bool, flying: bool, asked: seq<OpSpec>)

  datatype Requested = Requested(link: Link, raised: bool)

  /** Nothing on the stream. */
  predicate Blank(w: Written) { w.control == [] && w.data == [] }

  /** _request_access_spec; an AccessSpec holds one OpSpec. */
  function Request(l: Link): Requested {
    if l.ongoing then Requested(l, false)
    else if l.readSizes != [] then
      Requested(l.(readSizes := l.readSizes[1..], ongoing := true, flying := true,
                   asked := l.asked + [Read(l.readSizes[0])]), false)
    else
      var w := GetWriteData(l.st);
      if w.raised then Requested(l.(st := w.st, ongoing := true), true)
      else if Blank(w) then Requested(l.(st := w.st), false)
      else Requested(l.(st := w.st, ongoing := true, flying := true, asked := l.asked + [Write(w)]), false)
  }

  datatype LinkOp =
    | Send(msg: Msg)
    | Expire(index: nat)
    | Open(packets: seq<seq<byte>>)
    | Answer(packet: seq<byte>)
    | RequestUplink(readSizes: seq<nat>)
    | Ack(seqNum: int)
    | Result(writeSize: nat, packets: seq<seq<byte>>)

  function Queued(l: Link, packets: seq<seq<byte>>): Link { l.(st := l.st.(packets := l.st.packets + packets)) }

  /** What a handler does before it asks for an AccessSpec, and whether it does ask for one. */
  datatype Handled = Handled(link: Link, requests: bool)

  /** Only the result of an AccessSpec that is with the reader comes back. */
  function Handle(l: Link, op: LinkOp): Handled {
    match op
    case Send(m) => Handled(l.(st := AddMsg(l.st, m)), true)
    case Expire(i) => Handled(if i < |l.st.fragments| then l.(st := Timeout(l.st, i)) else l, true)
    case Open(packets) => Handled(Queued(l, packets), true)
    case Answer(packet) => Handled(Queued(l, [packet]), false)
    case RequestUplink(readSizes) => Handled(l.(readSizes := l.readSizes + readSizes), true)
    case Ack(n) => Handled(l.(st := HandleAck(l.st, n).st), false)
    case Result(size, packets) =>
      if !l.flying then Handled(l, false)
      else Handled(Queued(l.(st := l.st.(writeSize := size), ongoing := false, flying := false), packets), true)
  }

  function Step(l: Link, op: LinkOp): Requested {
    var h := Handle(l, op);
    if h.requests then Request(h.link) else Requested(h.link, false)
  }

  function Run(l: Link, ops: seq<LinkOp>): Link
    decreases |ops|
  {
    if ops == [] then l else Run(Step(l, ops[0]).link, ops[1..])
  }

  predicate AnyRaised(l: Link, ops: seq<LinkOp>)
    decreases |ops|
  {
    ops != [] && (Step(l, ops[0]).raised || AnyRaised(Step(l, ops[0]).link, ops[1..]))
  }

  function Begin(writeSize: nat, windowSize: nat, checksum: bool): Link {
    Link(TxSpec.Init(writeSize, windowSize, checksum), [], false, false, [])
  }

  /** The flag is set without an AccessSpec under way exactly if the cut position is cyclic. */
  ghost predicate LinkInv(l: Link) {
    && Within(l.st) && (l.flying ==> l.ongoing)
    && (l.st.cyclicCut <==> l.ongoing && !l.flying)
  }

  lemma RequestInv(l: Link)
    requires Within(l.st) && (l.flying ==> l.ongoing) && (l.st.cyclicCut <==> l.ongoing && !l.flying)
    ensures LinkInv(Request(l).link)
    ensures Request(l).link.st.cyclicCut <==> l.st.cyclicCut || Request(l).raised
    ensures l.asked <= Request(l).link.asked
  {
    hide GetWriteData, Counted, Extra, PlanOf, Within;
    CallPlanned(l.st);
  }

  lemma HandleInv(l: Link, op: LinkOp)
    requires LinkInv(l)
    ensures LinkInv(Handle(l, op).link)
    ensures Handle(l, op).link.st.cyclicCut == l.st.cyclicCut && Handle(l, op).link.asked == l.asked
  {
    hide HandleAck;
    if op.Ack? { AckKeepsCut(l.st, op.seqNum); }
  }

  lemma StepInv(l: Link, op: LinkOp)
    requires LinkInv(l)
    ensures LinkInv(Step(l, op).link)
    ensures Step(l, op).link.st.cyclicCut <==> l.st.cyclicCut || Step(l, op).raised
    ensures l.st.cyclicCut ==> Step(l, op).link.asked == l.asked
  {
    hide Request, Handle, Within;
    HandleInv(l, op);
    var h := Handle(l, op).link;
    if Handle(l, op).requests {
      RequestInv(h);
      OngoingStops(h);
    }
  }

  lemma OngoingStops(l: Link)
    ensures l.ongoing ==> Request(l) == Requested(l, false)
  {
  }

  lemma {:induction false} RunInv(l: Link, ops: seq<LinkOp>)
    requires LinkInv(l)
    ensures LinkInv(Run(l, ops))
    ensures Run(l, ops).st.cyclicCut <==> l.st.cyclicCut || AnyRaised(l, ops)
    ensures l.st.cyclicCut ==> Run(l, ops).asked == l.asked
    decreases |ops|
  {
    hide LinkInv, Step;
    if ops != [] {
      StepInv(l, ops[0]);
      RunInv(Step(l, ops[0]).link, ops[1..]);
    }
  }

  /**
   * The consequence, over every run: as long as get_write_data has not
   * raised, the flag says whether an AccessSpec is with the reader; once it
   * has, the flag stays set, and whatever is sent, acknowledged, timed out or
   * asked for, no Read or Write is ever sent to the reader again.
   */
  lemma RaiseStopsAccess(writeSize: nat, windowSize: nat, checksum: bool, ops: seq<LinkOp>, more: seq<LinkOp>)
    ensures var begin := Begin(writeSize, windowSize, checksum);
            var l := Run(begin, ops);
            && (!AnyRaised(begin, ops) ==> (l.ongoing <==> l.flying))
            && (AnyRaised(begin, ops) ==> l.ongoing && !l.flying && Run(l, more).asked == l.asked)
  {
    hide Run, AnyRaised, Within;
    var begin := Begin(writeSize, windowSize, checksum);
    assert LinkInv(begin) by { BeginsWithin(writeSize, windowSize, checksum); }
    RunInv(begin, ops);
    RunInv(Run(begin, ops), more);
  }

  lemma BeginsWithin(writeSize: nat, windowSize: nat, checksum: bool)
    ensures Within(TxSpec.Init(writeSize, windowSize, checksum))
  {
  }

  // ------------------------------------------- when something is asked, and what

  /** The plan puts at least one packet or fragment on the stream. */
  ghost predicate HasRecord(p: Plan) {
    p.packets > 0 || p.due > 0 || (p.cuts.Some? && p.cuts.value.Records() > 0)
  }

  lemma CountsNothing(fs: seq<TxFrag>)
    ensures Estimate(fs) == 0 <==> fs == []
    ensures Uncounted(fs) == 0 <==> fs == []
  {
  }

  lemma BlankByPlan(st: TxState)
    requires Within(st)
    ensures Blank(GetWriteData(st)) <==> !HasRecord(PlanOf(st))
  {
    hide GetWriteData, Lengths, Estimate, Uncounted, PlanOf, Within;
    CallPlanned(st);
    var w, p := GetWriteData(st), PlanOf(st);
    CountsNothing(w.data);
    CountsNothing(Due(st.fragments)[..p.due]);
    if p.cuts.Some? { WriteArrives.HeadsAtMostWhole(st); }
  }

  /**
   * On the state before the call: there is a record if and only if the first
   * control packet fits the size limit, or with none pending the first due
   * fragment does, or with none due either something is left to cut, with
   * space for it and room in the window.
   */
  lemma RecordIff(st: TxState)
    requires Within(st)
    ensures HasRecord(PlanOf(st)) <==>
              var due, s := Due(st.fragments), Current(st);
              if st.packets != [] then |st.packets[0]| <= st.writeSize
              else if due != [] then 4 + |due[0].data| <= st.writeSize
              else
                s.messages != [] && !s.cyclicCut && 0 < Rest(s) && 0 < Space(s, st.writeSize) && 0 < Room(s)
  {
    hide Within, Current, Rests, Room, Space, Due;
    CurrentWithin(st);
    FirstRest(Current(st));
    var due := Due(st.fragments);
    if st.packets == [] && due == [] {
      assert st.packets[..0] == [] && due[..0] == [];
      CutsRecord(st);
    }
  }

  lemma CutsRecord(st: TxState)
    requires Within(st)
    ensures CutsOf(st, st.writeSize).Records() > 0 <==>
              var s := Current(st);
              s.messages != [] && !s.cyclicCut && 0 < Rest(s) && 0 < Space(s, st.writeSize) && 0 < Room(s)
  {
    hide Within, Current, Rests, Room;
    CurrentWithin(st);
    FirstRest(Current(st));
  }

  /** A Read size is pending, or the plan does not raise and has a record. */
  ghost predicate Asks(l: Link)
    requires Within(l.st)
  {
    l.readSizes != [] || (!PlanOf(l.st).Raised() && HasRecord(PlanOf(l.st)))
  }

  /** The OpSpec: pending Reads first, else what the plan says. */
  ghost predicate AskedFor(l: Link, o: OpSpec)
    requires Within(l.st)
  {
    if l.readSizes != [] then o == Read(l.readSizes[0])
    else
      var p := PlanOf(l.st);
      && o.Write? && o.written.control == l.st.packets[..p.packets]
      && Estimate(o.written.data) == Counted(l.st, p) - Lengths(l.st.packets[..p.packets])
      && o.written == GetWriteData(l.st)
  }

  /**
   * A request with the flag clear asks for exactly one OpSpec if a Read size
   * is pending or the plan made from the state before it has a record and
   * does not raise, and then the flag is set; else for nothing, and unless it
   * raises the flag stays clear.
   */
  lemma RequestExact(l: Link)
    requires LinkInv(l) && !l.ongoing
    ensures var r := Request(l);
            && (r.raised <==> l.readSizes == [] && PlanOf(l.st).Raised())
            && (r.link.ongoing <==> Asks(l) || r.raised) && (r.link.flying <==> Asks(l))
            && r.link.readSizes == (if l.readSizes == [] then [] else l.readSizes[1..])
            && (if Asks(l) then exists o :: AskedFor(l, o) && r.link.asked == l.asked + [o]
                else r.link.asked == l.asked)
  {
    hide GetWriteData, PlanOf, Within, Counted, Extra, Lengths, Estimate, HasRecord, Blank;
    CallPlanned(l.st);
    BlankByPlan(l.st);
    if Asks(l) {
      var o := if l.readSizes != [] then Read(l.readSizes[0]) else Write(GetWriteData(l.st));
      assert AskedFor(l, o);
    }
  }

  /** The Reads among these, in order. */
  function Reads(asked: seq<OpSpec>): seq<nat> {
    if asked == [] then [] else ReadOf(asked[0]) + Reads(asked[1..])
  }

  /** The sizes the tag asked for, in order. */
  function Sizes(ops: seq<LinkOp>): seq<nat> {
    if ops == [] then [] else (match ops[0] case RequestUplink(n) => n case _ => []) + Sizes(ops[1..])
  }

  /** How many results came back. */
  function Results(l: Link, ops: seq<LinkOp>): nat
    decreases |ops|
  {
    if ops == [] then 0 else (if ops[0].Result? && l.flying then 1 else 0) + Results(Step(l, ops[0]).link, ops[1..])
  }

  function ReadOf(o: OpSpec): seq<nat> {
    match o
    case Read(n) => [n]
    case Write(_) => []
  }

  lemma {:induction false} ReadsAppend(asked: seq<OpSpec>, more: seq<OpSpec>)
    ensures Reads(asked + more) == Reads(asked) + Reads(more)
    decreases |asked|
  {
    hide ReadOf;
    if asked == [] {
      assert asked + more == more;
    } else {
      assert (asked + more)[1..] == asked[1..] + more;
      ReadsAppend(asked[1..], more);
      var first := ReadOf(asked[0]);
      assert first + (Reads(asked[1..]) + Reads(more)) == (first + Reads(asked[1..])) + Reads(more);
    }
  }

  /** Every Write asked for has something on its stream, and, once encoded, at least one byte. */
  ghost predicate NoneEmpty(asked: seq<OpSpec>) {
    forall i :: 0 <= i < |asked| && asked[i].Write? ==>
                  && !asked[i].written.raised && !Blank(asked[i].written)
                  && (Encoded(asked[i].written) ==> WriteArrives.Output(asked[i].written) != [])
  }

  predicate Encoded(w: Written) { forall i :: 0 <= i < |w.data| ==> Wire.Encodable(w.data[i]) }

  lemma BlankIff(w: Written)
    requires Encoded(w)
    ensures WriteArrives.Output(w) == [] <==> Blank(w)
  {
    WriteArrives.ControlLength([], w.control);
    WriteArrives.DataLength(Wire.WriteControl([], w.control, true), w.data);
  }

  lemma RequestAsks(l: Link)
    requires NoneEmpty(l.asked)
    ensures var r := Request(l).link;
            && NoneEmpty(r.asked)
            && Reads(r.asked) + r.readSizes == Reads(l.asked) + l.readSizes
            && ((r.asked == l.asked && r.flying == l.flying)
                || exists o :: r.asked == l.asked + [o] && !l.ongoing && r.flying && (o.Write? ==> r.readSizes == []))
  {
    hide GetWriteData, Blank, Encoded, WriteArrives.Output;
    if !l.ongoing {
      if l.readSizes != [] {
        var o := Read(l.readSizes[0]);
        ReadsAppend(l.asked, [o]);
        assert [o][1..] == [];
        assert Reads(l.asked) + [l.readSizes[0]] + l.readSizes[1..] == Reads(l.asked) + l.readSizes;
        assert Request(l).link.asked == l.asked + [o];
      } else {
        var w := GetWriteData(l.st);
        ReadsAppend(l.asked, [Write(w)]);
        assert [Write(w)][1..] == [];
        if !w.raised && !Blank(w) {
          if Encoded(w) { BlankIff(w); }
          assert Request(l).link.asked == l.asked + [Write(w)];
        }
      }
    }
  }

  lemma HandleAsks(l: Link, op: LinkOp)
    ensures var h := Handle(l, op).link;
            && h.asked == l.asked && h.readSizes == l.readSizes + Sizes([op])
            && h.flying == (l.flying && !op.Result?)
  {
    hide HandleAck;
    assert [op][1..] == [];
    assert Sizes([op]) == match op case RequestUplink(n) => n case _ => [];
  }

  /** One AccessSpec at a time, its OpSpecs a Read as long as one is pending. */
  ghost predicate AsksInTurn(l: Link, l': Link) {
    || (l'.asked == l.asked && (l'.flying ==> l.flying))
    || exists o :: l'.asked == l.asked + [o] && l'.flying && (o.Write? ==> l'.readSizes == [])
  }

  lemma StepAsks(l: Link, op: LinkOp)
    requires LinkInv(l) && NoneEmpty(l.asked)
    ensures var l' := Step(l, op).link;
            && NoneEmpty(l'.asked) && AsksInTurn(l, l')
            && Reads(l'.asked) + l'.readSizes == Reads(l.asked) + l.readSizes + Sizes([op])
            && |l'.asked| + (if l.flying && !op.Result? then 1 else 0) == |l.asked| + (if l'.flying then 1 else 0)
  {
    hide Request, Handle, NoneEmpty, Reads, Sizes, Within;
    HandleInv(l, op);
    HandleAsks(l, op);
    var h := Handle(l, op);
    if h.requests { RequestAsks(h.link); }
  }

  lemma SizesOfFirst(ops: seq<LinkOp>)
    requires ops != []
    ensures Sizes(ops) == Sizes([ops[0]]) + Sizes(ops[1..])
  {
    assert [ops[0]][1..] == [];
  }

  lemma {:induction false} RunAsks(l: Link, ops: seq<LinkOp>)
    requires LinkInv(l) && NoneEmpty(l.asked)
    ensures var l' := Run(l, ops);
            && NoneEmpty(l'.asked)
            && Reads(l'.asked) + l'.readSizes == Reads(l.asked) + l.readSizes + Sizes(ops)
            && |l'.asked| + (if l.flying then 1 else 0) == |l.asked| + Results(l, ops) + (if l'.flying then 1 else 0)
    decreases |ops|
  {
    hide LinkInv, Step, NoneEmpty, Reads, AsksInTurn;
    if ops != [] {
      StepInv(l, ops[0]);
      StepAsks(l, ops[0]);
      RunAsks(Step(l, ops[0]).link, ops[1..]);
      SizesOfFirst(ops);
    }
  }

  /**
   * Over every run and its next step: the Reads asked for, followed by the
   * sizes still pending, are the sizes the tag asked for, in order; an OpSpec
   * is asked for only with the results of all earlier ones back, and a Write
   * only with no size pending; a step asks for one exactly if it is no ack,
   * no data packet and no stray result, the flag is clear and there is one to
   * ask for; and every Write has at least one byte.
   */
  lemma AskedInOrder(writeSize: nat, windowSize: nat, checksum: bool, ops: seq<LinkOp>, op: LinkOp)
    ensures var begin := Begin(writeSize, windowSize, checksum);
            var l, h := Run(begin, ops), Handle(Run(begin, ops), op);
            var l' := Step(l, op).link;
            && Reads(l.asked) + l.readSizes == Sizes(ops) && NoneEmpty(l.asked)
            && |l.asked| == Results(begin, ops) + (if l.flying then 1 else 0)
            && AsksInTurn(l, l') && Within(h.link.st)
            && (|l'.asked| > |l.asked| <==>
                  && !op.Answer? && !op.Ack? && (op.Result? ==> l.flying)
                  && !h.link.ongoing && Asks(h.link))
            && (|l'.asked| > |l.asked| ==> AskedFor(h.link, l'.asked[|l.asked|]))
  {
    hide Run, Step, Handle, Request, Within, NoneEmpty, Reads, Asks, AskedFor;
    var begin := Begin(writeSize, windowSize, checksum);
    assert LinkInv(begin) by { BeginsWithin(writeSize, windowSize, checksum); }
    assert NoneEmpty(begin.asked) && Reads([]) == [] by { NothingAsked(); }
    RunInv(begin, ops);
    RunAsks(begin, ops);
    var l := Run(begin, ops);
    StepAsks(l, op);
    HandleInv(l, op);
    StepByHandle(l, op);
    WhoRequests(l, op);
  }

  lemma WhoRequests(l: Link, op: LinkOp)
    ensures Handle(l, op).requests <==> !op.Answer? && !op.Ack? && (op.Result? ==> l.flying)
  {
    hide HandleAck;
  }

  lemma NothingAsked()
    ensures NoneEmpty([]) && Reads([]) == []
  {
  }

  lemma StepByHandle(l: Link, op: LinkOp)
    requires LinkInv(l)
    ensures var h, l' := Handle(l, op), Step(l, op).link;
            && Within(h.link.st)
            && (|l'.asked| > |l.asked| <==> h.requests && !h.link.ongoing && Asks(h.link))
            && (|l'.asked| > |l.asked| ==> AskedFor(h.link, l'.asked[|l.asked|]))
  {
    hide Request, Handle, Within, Asks, AskedFor;
    HandleInv(l, op);
    var h := Handle(l, op);
    if h.requests {
      OngoingStops(h.link);
      if !h.link.ongoing { RequestExact(h.link); }
    }
  }

  // ------------------------------------------- the connection's sender is a sender

  function Controls(packets: seq<seq<byte>>): seq<TxRuns.TxOp> {
    if packets == [] then [] else [TxRuns.Control(packets[0])] + Controls(packets[1..])
  }

  /** What happens to the transmit control apart from writes. */
  function EventsOf(l: Link, op: LinkOp): seq<TxRuns.TxOp> {
    match op
    case Send(m) => [TxRuns.Add(m)]
    case Expire(i) => [TxRuns.Expire(i)]
    case Open(packets) => Controls(packets)
    case Answer(packet) => [TxRuns.Control(packet)]
    case RequestUplink(_) => []
    case Ack(n) => [TxRuns.Ack(n)]
    case Result(size, packets) => if l.flying then [TxRuns.Resize(size)] + Controls(packets) else []
  }

  function Events(l: Link, ops: seq<LinkOp>): seq<TxRuns.TxOp>
    decreases |ops|
  {
    if ops == [] then [] else EventsOf(l, ops[0]) + Events(Step(l, ops[0]).link, ops[1..])
  }

  function NoWrites(ops: seq<TxRuns.TxOp>): seq<TxRuns.TxOp> {
    if ops == [] then [] else (if ops[0].Write? then [] else [ops[0]]) + NoWrites(ops[1..])
  }

  lemma {:induction false} NoWritesAppend(a: seq<TxRuns.TxOp>, b: seq<TxRuns.TxOp>)
    ensures NoWrites(a + b) == NoWrites(a) + NoWrites(b)
    decreases |a|
  {
    if a == [] {
      assert a + b == b;
    } else {
      var first := if a[0].Write? then [] else [a[0]];
      assert (a + b)[1..] == a[1..] + b;
      NoWritesAppend(a[1..], b);
      assert first + (NoWrites(a[1..]) + NoWrites(b)) == (first + NoWrites(a[1..])) + NoWrites(b);
    }
  }

  lemma {:induction false} SenderRunAppend(r: TxRuns.TxRun, a: seq<TxRuns.TxOp>, b: seq<TxRuns.TxOp>)
    ensures TxRuns.Run(r, a + b) == TxRuns.Run(TxRuns.Run(r, a), b)
    decreases |a|
  {
    hide TxRuns.Step;
    if a == [] {
      assert a + b == b;
    } else {
      assert (a + b)[1..] == a[1..] + b;
      SenderRunAppend(TxRuns.Step(r, a[0]), a[1..], b);
    }
  }

  lemma {:induction false} ControlsQueued(r: TxRuns.TxRun, packets: seq<seq<byte>>)
    ensures TxRuns.Run(r, Controls(packets)).st == r.st.(packets := r.st.packets + packets)
    ensures NoWrites(Controls(packets)) == Controls(packets)
    decreases |packets|
  {
    if packets == [] {
      assert r.st.packets + [] == r.st.packets;
    } else {
      var ops := Controls(packets);
      assert ops[1..] == Controls(packets[1..]);
      ControlsQueued(TxRuns.Step(r, ops[0]), packets[1..]);
      assert r.st.packets + [packets[0]] + packets[1..] == r.st.packets + packets;
    }
  }

  lemma OneOp(r: TxRuns.TxRun, op: TxRuns.TxOp)
    ensures TxRuns.Run(r, [op]) == TxRuns.Step(r, op)
    ensures NoWrites([op]) == if op.Write? then [] else [op]
  {
    hide TxRuns.Step;
    assert [op][1..] == [];
    assert TxRuns.Run(TxRuns.Step(r, op), []) == TxRuns.Step(r, op);
  }

  /** What a handler does to the transmit control before it requests. */
  lemma HandleIsSender(l: Link, op: LinkOp, r: TxRuns.TxRun) returns (ops: seq<TxRuns.TxOp>)
    requires r.st == l.st
    ensures TxRuns.Run(r, ops).st == Handle(l, op).link.st
    ensures NoWrites(ops) == ops == EventsOf(l, op)
  {
    hide HandleAck;
    match op
    case Send(m) => ops := [TxRuns.Add(m)]; OneOp(r, ops[0]);
    case Expire(i) => ops := [TxRuns.Expire(i)]; OneOp(r, ops[0]);
    case Open(packets) => ops := Controls(packets); ControlsQueued(r, packets);
    case Answer(packet) => ops := [TxRuns.Control(packet)]; OneOp(r, ops[0]);
    case RequestUplink(_) => ops := [];
    case Ack(n) => ops := [TxRuns.Ack(n)]; OneOp(r, ops[0]);
    case Result(size, packets) =>
      if l.flying {
        var resize := [TxRuns.Resize(size)];
        ops := resize + Controls(packets);
        OneOp(r, resize[0]);
        ControlsQueued(TxRuns.Run(r, resize), packets);
        SenderRunAppend(r, resize, Controls(packets));
        NoWritesAppend(resize, Controls(packets));
      } else {
        ops := [];
      }
  }

  lemma RequestIsSender(l: Link, r: TxRuns.TxRun) returns (ops: seq<TxRuns.TxOp>)
    requires r.st == l.st
    ensures TxRuns.Run(r, ops).st == Request(l).link.st && NoWrites(ops) == []
  {
    hide GetWriteData, Blank;
    ops := [];
    if !l.ongoing && l.readSizes == [] {
      ops := [TxRuns.Write];
      OneOp(r, TxRuns.Write);
    }
  }

  lemma StepIsSender(l: Link, op: LinkOp, r: TxRuns.TxRun) returns (ops: seq<TxRuns.TxOp>)
    requires r.st == l.st
    ensures TxRuns.Run(r, ops).st == Step(l, op).link.st && NoWrites(ops) == EventsOf(l, op)
  {
    hide Handle, Request, EventsOf, NoWrites, TxRuns.Run;
    ops := HandleIsSender(l, op, r);
    if Handle(l, op).requests {
      var more := RequestIsSender(Handle(l, op).link, TxRuns.Run(r, ops));
      SenderRunAppend(r, ops, more);
      NoWritesAppend(ops, more);
      ops := ops + more;
    }
  }

  lemma {:induction false} RunIsSender(l: Link, ops: seq<LinkOp>, r: TxRuns.TxRun) returns (tops: seq<TxRuns.TxOp>)
    requires r.st == l.st
    ensures TxRuns.Run(r, tops).st == Run(l, ops).st && NoWrites(tops) == Events(l, ops)
    decreases |ops|
  {
    hide Step, EventsOf, NoWrites, TxRuns.Run, TxRuns.Step;
    if ops == [] {
      tops := [];
      assert TxRuns.Run(r, []) == r && NoWrites([]) == [] && Events(l, []) == [] by { NoOps(l, r); }
    } else {
      tops := StepIsSender(l, ops[0], r);
      var more := RunIsSender(Step(l, ops[0]).link, ops[1..], TxRuns.Run(r, tops));
      SenderRunAppend(r, tops, more);
      NoWritesAppend(tops, more);
      tops := tops + more;
    }
  }

  lemma NoOps(l: Link, r: TxRuns.TxRun)
    ensures TxRuns.Run(r, []) == r && NoWrites([]) == [] && Events(l, []) == []
  {
  }

  /**
   * Every run of the connection drives its transmit control through a run of
   * adds, control packets, timeouts, size changes and acks, those of its own
   * events in order, with writes in between; so the tiling and the completion
   * proved of such runs hold at every moment of a connection.
   */
  lemma ConnectionDrivesSender(writeSize: nat, windowSize: nat, checksum: bool, ops: seq<LinkOp>)
    returns (tops: seq<TxRuns.TxOp>)
    requires windowSize < 0x10000
    ensures var begin := Begin(writeSize, windowSize, checksum);
            var r := TxRuns.Run(TxRuns.Begin(writeSize, windowSize, checksum), tops);
            && r.st == Run(begin, ops).st && NoWrites(tops) == Events(begin, ops)
            && TxRuns.SeenTiling(r) && (TxRuns.MessagesNonEmpty(tops) ==> TxRuns.SeenCompletion(r))
  {
    hide Run, Events, NoWrites, TxRuns.Run, TxRuns.SeenTiling, TxRuns.SeenCompletion;
    tops := RunIsSender(Begin(writeSize, windowSize, checksum), ops, TxRuns.Begin(writeSize, windowSize, checksum));
    TxRuns.SenderRun(writeSize, windowSize, checksum, tops);
  }

  // ------------------------------------------------------------- a long message

  lemma RequestsPiece(l: Link, m: Msg, n: nat)
    requires Cutting(l.st, m, n) && !l.ongoing && l.readSizes == [] && 0 < FullSize(n, l.st.writeSize)
    requires n + FullSize(n, l.st.writeSize) < |m| && n + FullSize(n, l.st.writeSize) <= 64
    ensures var r := Request(l);
            && !r.raised && Cutting(r.link.st, m, n + FullSize(n, l.st.writeSize))
            && r.link == l.(st := r.link.st, ongoing := true, flying := true, asked := r.link.asked)
            && |r.link.asked| == |l.asked| + 1
  {
    hide GetWriteData, Cutting;
    FullWrite(l.st, m, n);
  }

  lemma ResultRequests(l: Link, size: nat)
    requires l.flying
    ensures Step(l, Result(size, [])) == Request(l.(st := l.st.(writeSize := size), ongoing := false, flying := false))
  {
    assert l.st.packets + [] == l.st.packets;
  }

  /**
   * From the start, with the size limit growing as writes succeed: a message
   * of more than 64 bytes is written as far as 17, 38 and 61 bytes; then the
   * connection raises and asks for nothing more, whatever happens.
   */
  lemma LongMessageStops(m: Msg, more: seq<LinkOp>)
    requires 64 < |m| < 0x10000
    ensures var ops := [Send(m), Result(26, []), Result(28, []), Result(30, [])];
            var l := Run(Begin(24, 64, true), ops);
            && AnyRaised(Begin(24, 64, true), ops) && |l.asked| == 3
            && Run(l, more).asked == l.asked
  {
    hide Request, Cutting, Run, AnyRaised, Step;
    var b := Begin(24, 64, true);
    var l0 := b.(st := AddMsg(b.st, m));
    FirstCutting(m);
    RequestsPiece(l0, m, 0);
    var l1 := Request(l0).link;
    NextPiece(l1, m, 17, 26);
    var l2 := Step(l1, Result(26, [])).link;
    NextPiece(l2, m, 38, 28);
    var l3 := Step(l2, Result(28, [])).link;
    LastPiece(l3, m, 61, 30);
    Sends(b, m);
    RunFour(b, Send(m), Result(26, []), Result(28, []), Result(30, []));
    RaiseStopsAccess(24, 64, true, [Send(m), Result(26, []), Result(28, []), Result(30, [])], more);
  }

  lemma FirstCutting(m: Msg)
    ensures Cutting(AddMsg(TxSpec.Init(24, 64, true), m), m, 0)
  {
    assert [] + [m] == [m];
  }

  lemma Sends(l: Link, m: Msg)
    ensures Step(l, Send(m)) == Request(l.(st := AddMsg(l.st, m)))
  {
  }

  lemma NextPiece(l: Link, m: Msg, n: nat, size: nat)
    requires Cutting(l.st, m, n) && l.flying && l.readSizes == [] && 0 < n && 5 < size && n + size - 5 <= 64 < |m|
    ensures var r := Step(l, Result(size, []));
            && !r.raised && Cutting(r.link.st, m, n + size - 5) && r.link.flying && r.link.readSizes == []
            && |r.link.asked| == |l.asked| + 1
  {
    hide Request;
    ResultRequests(l, size);
    RequestsPiece(l.(st := l.st.(writeSize := size), ongoing := false, flying := false), m, n);
  }

  lemma LastPiece(l: Link, m: Msg, n: nat, size: nat)
    requires Cutting(l.st, m, n) && l.flying && l.readSizes == [] && 0 < n < 64 < |m| && 64 - n < size - 5
    ensures Step(l, Result(size, [])).raised && Step(l, Result(size, [])).link.asked == l.asked
  {
    ResultRequests(l, size);
    WindowWrite(l.st.(writeSize := size), m, n);
  }

  lemma RunCons(l: Link, op: LinkOp, ops: seq<LinkOp>)
    ensures Run(l, [op] + ops) == Run(Step(l, op).link, ops)
    ensures AnyRaised(l, [op] + ops) <==> Step(l, op).raised || AnyRaised(Step(l, op).link, ops)
  {
    hide Step;
    assert ([op] + ops)[1..] == ops;
  }

  lemma RunFour(l: Link, a: LinkOp, b: LinkOp, c: LinkOp, d: LinkOp)
    ensures var l3 := Step(Step(Step(l, a).link, b).link, c).link;
            && Run(l, [a, b, c, d]) == Step(l3, d).link
            && (Step(l3, d).raised ==> AnyRaised(l, [a, b, c, d]))
  {
    hide Step, Run, AnyRaised;
    var l1 := Step(l, a).link;
    var l2 := Step(l1, b).link;
    var l3 := Step(l2, c).link;
    RunCons(l, a, [b, c, d]);
    RunCons(l1, b, [c, d]);
    RunCons(l2, c, [d]);
    RunCons(l3, d, []);
    assert [a] + [b, c, d] == [a, b, c, d] && [b] + [c, d] == [b, c, d] && [c] + [d] == [c, d] && [d] + [] == [d];
    RunNothing(Step(l3, d).link);
  }

  lemma RunNothing(l: Link)
    ensures Run(l, []) == l
  {
  }

  // ---------------------------------------------------------------- the code

  class AccessRequests {
    const txCtrl: TxControl.SlidingWindowTxControl
    var readOpspecSizes: seq<nat>
    var ongoingAccessSpec: bool
    /** Whether an AccessSpec is with the reader, and the OpSpecs sent to it so far. */
    ghost var flying: bool
    ghost var asked: seq<OpSpec>

    ghost predicate Valid()
      reads this, txCtrl, txCtrl.fragments
    {
      txCtrl.Valid() && txCtrl.checksum
    }

    ghost function State(): Link
      reads this, txCtrl, txCtrl.fragments
    {
      Link(txCtrl.State(), readOpspecSizes, ongoingAccessSpec, flying, asked)
    }

    constructor (txCtrl: TxControl.SlidingWindowTxControl)
      requires txCtrl.Valid() && txCtrl.checksum
      ensures Valid() && State() == Link(txCtrl.State(), [], false, false, [])
    {
      this.txCtrl := txCtrl;
      readOpspecSizes, ongoingAccessSpec, flying, asked := [], false, false, [];
    }

    /** The loop over OpSpecs ends in its first turn, as an AccessSpec holds one. */
    method RequestAccessSpec() returns (raised: bool)
      requires Valid()
      modifies this, txCtrl, txCtrl.fragments
      ensures Valid()
      ensures Requested(State(), raised) == Request(old(State()))
    {
      hide TxControl.SlidingWindowTxControl.Valid, TxControl.SlidingWindowTxControl.State, GetWriteData, Wire.Encodable;
      raised := false;
      if ongoingAccessSpec { return; }
      ongoingAccessSpec := true;
      if readOpspecSizes != [] {
        var readSize := readOpspecSizes[0];
        readOpspecSizes := readOpspecSizes[1..];
        asked, flying := asked + [Read(readSize)], true;
        return;
      }
      var writeData;
      ghost var written;
      writeData, raised, written := txCtrl.GetWriteData();
      if raised { return; }
      BlankIff(written);
      if writeData != [] {
        asked, flying := asked + [Write(written)], true;
      } else {
        ongoingAccessSpec := false;
      }
    }
  }
}
