/**
 * Whole runs of the transmit control: any interleaving of new messages,
 * control packets, timeouts, size changes, writes and acknowledgements.
 */
module TxRuns {
  import opened Base
  import opened Cyclic
  import opened Stream
  import opened TxSpec
  import opened TxProof

  datatype TxOp =
    | Add(msg: Msg)
    | Control(packet: seq<byte>)
    | Expire(index: nat)
    | Resize(writeSize: nat)
    | Write
    | Ack(seqNum: int)

  /** A run and what an observer of it sees: messages given, fragments cut, removed, and messages reported sent. */
  datatype TxRun = TxRun(st: TxState, msgs: seq<Msg>, cut: seq<TxFrag>, removed: nat, reported: nat)

  function Begin(writeSize: nat, windowSize: nat, checksum: bool): TxRun {
    TxRun(TxSpec.Init(writeSize, windowSize, checksum), [], [], 0, 0)
  }

  function Step(r: TxRun, op: TxOp): TxRun {
    match op
    case Add(m) => r.(st := AddMsg(r.st, m), msgs := r.msgs + [m])
    case Control(p) => r.(st := AddPacket(r.st, p))
    case Expire(i) => if i < |r.st.fragments| then r.(st := Timeout(r.st, i)) else r
    case Resize(n) => r.(st := r.st.(writeSize := n))
    case Write => AfterWrite(r, GetWriteData(r.st).st)
    case Ack(a) => AfterAck(r, HandleAck(r.st, a))
  }

  /** Fragments that were not outstanding before are the ones just cut. */
  function AfterWrite(r: TxRun, s: TxState): TxRun {
    var before := |r.st.fragments|;
    r.(st := s, cut := r.cut + if before <= |s.fragments| then s.fragments[before..] else [])
  }

  function AfterAck(r: TxRun, a: AckResult): TxRun {
    var now := |a.st.fragments|;
    r.(st := a.st, removed := r.removed + (if now <= |r.st.fragments| then |r.st.fragments| - now else 0),
       reported := r.reported + a.sent)
  }

  function Run(r: TxRun, ops: seq<TxOp>): TxRun
    decreases |ops|
  {
    if ops == [] then r else Run(Step(r, ops[0]), ops[1..])
  }

  ghost predicate MessagesNonEmpty(ops: seq<TxOp>) {
    forall i :: 0 <= i < |ops| ==> ops[i].Add? ==> ops[i].msg != []
  }

  /** The absolute view that explains what the observer saw, of any run. */
  ghost predicate ExplainsCore(r: TxRun, g: TxGhost) {
    && TxCore(r.st, g) && SettledIf(r.st, g.msgs) && AllArmed(r.st.fragments)
    && g.msgs == r.msgs && g.base == r.removed && g.done == r.reported
    && |r.cut| == |g.hist|
    && forall i :: 0 <= i < |r.cut| ==> Image(g.msgs, g.hist[i], r.cut[i])
  }

  /** Messages are non-empty, and those reported are exactly those wholly acknowledged. */
  ghost predicate Completes(g: TxGhost) {
    NonEmpty(g.msgs) && g.base <= |g.hist| && DoneAt(g.msgs, g.done, Acked(g))
  }

  ghost predicate Explains(r: TxRun, g: TxGhost) { ExplainsCore(r, g) && Completes(g) }

  lemma AddExplains(r: TxRun, g: TxGhost, m: Msg)
    requires ExplainsCore(r, g)
    ensures var g' := g.(msgs := g.msgs + [m]);
            && ExplainsCore(r.(st := AddMsg(r.st, m), msgs := r.msgs + [m]), g')
            && (Completes(g) && m != [] ==> Completes(g'))
  {
    hide TxCore;
    var g' := g.(msgs := g.msgs + [m]);
    AddCore(r.st, g, m);
    AddSettled(r.st, g, m);
    if Completes(g) && m != [] { AddInv(r.st, g, m); }
    forall i | 0 <= i < |r.cut| ensures Image(g'.msgs, g'.hist[i], r.cut[i]) {
      assert Image(g.msgs, g.hist[i], r.cut[i]);
      StartAppend(g.msgs, m, g.hist[i].msg);
    }
  }

  lemma WriteExplains(r: TxRun, g: TxGhost) returns (g': TxGhost)
    requires ExplainsCore(r, g)
    ensures ExplainsCore(AfterWrite(r, GetWriteData(r.st).st), g')
    ensures Grows(g, g') && (Completes(g) ==> Completes(g'))
  {
    hide GetWriteData;
    g' := GetWriteDataCore(r.st, g);
    CutExplains(r, GetWriteData(r.st), g, g');
    AckedKept(g, g');
  }

  lemma CutExplains(r: TxRun, w: Written, g: TxGhost, g': TxGhost)
    requires ExplainsCore(r, g) && SendCore(Sent(w.st, w.data, w.raised), g, g')
    ensures ExplainsCore(AfterWrite(r, w.st), g')
  {
    var r' := AfterWrite(r, w.st);
    var before := |r.st.fragments|;
    forall i | 0 <= i < |r'.cut| ensures Image(g'.msgs, g'.hist[i], r'.cut[i]) {
      if i < |r.cut| {
        assert Image(g.msgs, g.hist[i], r.cut[i]) && g'.hist[i] == g.hist[i];
      } else {
        var j := i - g.base;
        assert r'.cut[i] == w.st.fragments[j];
        assert Image(g'.msgs, g'.hist[g'.base + j], w.st.fragments[j]);
      }
    }
  }

  lemma AckExplains(r: TxRun, g: TxGhost, a: int) returns (g': TxGhost)
    requires ExplainsCore(r, g)
    ensures ExplainsCore(AfterAck(r, HandleAck(r.st, a)), g')
    ensures Completes(g) ==> Completes(g')
    ensures g.base <= g'.base && g' == g.(base := g'.base, done := g'.done)
    ensures g'.base - g.base <= |r.st.fragments|
    ensures g'.done == g.done + PopEnds(r.st.msgEnds, r.st.fragments[..g'.base - g.base], r.st.seqNum).count
  {
    hide TxCore, HandleAck;
    g' := HandleAckCore(r.st, g, a);
    CoreBase(r.st, g);
    CoreBase(HandleAck(r.st, a).st, g');
    if Completes(g) { AckCompletes(r.st, g, g'.base - g.base); }
  }

  lemma ExpireExplains(r: TxRun, g: TxGhost, i: nat)
    requires ExplainsCore(r, g) && i < |r.st.fragments|
    ensures ExplainsCore(r.(st := Timeout(r.st, i)), g)
  {
    FlagsCore(r.st, g, i, r.st.fragments[i].(needSend := true));
  }

  /** Each single operation, with empty messages or without. */
  lemma StepExplainsCore(r: TxRun, g: TxGhost, op: TxOp) returns (g': TxGhost)
    requires ExplainsCore(r, g)
    ensures ExplainsCore(Step(r, op), g')
    ensures Completes(g) && (op.Add? ==> op.msg != []) ==> Completes(g')
    ensures op.Add? ==> g' == g.(msgs := g.msgs + [op.msg])
    ensures op.Write? ==> Grows(g, g')
    ensures op.Ack? ==>
              && g.base <= g'.base && g' == g.(base := g'.base, done := g'.done)
              && g'.base - g.base <= |r.st.fragments|
              && g'.done == g.done + PopEnds(r.st.msgEnds, r.st.fragments[..g'.base - g.base], r.st.seqNum).count
    ensures op.Control? || op.Expire? || op.Resize? ==> g' == g
  {
    hide GetWriteData, HandleAck;
    g' := g;
    match op
    case Add(m) => AddExplains(r, g, m); g' := g.(msgs := g.msgs + [m]);
    case Control(p) =>
    case Expire(i) => if i < |r.st.fragments| { ExpireExplains(r, g, i); }
    case Resize(n) =>
    case Write => g' := WriteExplains(r, g);
    case Ack(a) => g' := AckExplains(r, g, a);
  }

  lemma StepExplains(r: TxRun, g: TxGhost, op: TxOp) returns (g': TxGhost)
    requires Explains(r, g) && (op.Add? ==> op.msg != [])
    ensures Explains(Step(r, op), g')
  {
    hide ExplainsCore;
    g' := StepExplainsCore(r, g, op);
  }

  lemma {:induction false} RunExplains(r: TxRun, g: TxGhost, ops: seq<TxOp>) returns (g': TxGhost)
    requires ExplainsCore(r, g)
    ensures ExplainsCore(Run(r, ops), g')
    ensures Completes(g) && MessagesNonEmpty(ops) ==> Completes(g')
    decreases |ops|
  {
    hide ExplainsCore, Completes, Step;
    g' := g;
    if ops != [] {
      var g1 := StepExplainsCore(r, g, ops[0]);
      g' := RunExplains(Step(r, ops[0]), g1, ops[1..]);
    }
  }

  lemma BeginExplains(writeSize: nat, windowSize: nat, checksum: bool)
    requires windowSize < 0x10000
    ensures Explains(Begin(writeSize, windowSize, checksum), TxGhost([], 0, [], 0, 0))
  {
  }

  // ------------------------------------------------------------- what is seen

  /** The payloads of the first i fragments cut, in order. */
  function Payload(fs: seq<TxFrag>, i: nat): seq<byte>
    requires i <= |fs|
  {
    if i == 0 then [] else Payload(fs, i - 1) + fs[i - 1].data
  }

  lemma {:induction false} PayloadIsPrefix(ms: seq<Msg>, h: seq<Frag>, cut: seq<TxFrag>, i: nat)
    requires Tiles(ms, h) && |cut| == |h| && i <= |cut|
    requires forall j :: 0 <= j < |cut| ==> Image(ms, h[j], cut[j])
    ensures Edge(h, i) <= Total(ms)
    ensures Payload(cut, i) == Bytes(ms)[..Edge(h, i)]
    decreases i
  {
    if i > 0 {
      PayloadIsPrefix(ms, h, cut, i - 1);
      var f := h[i - 1];
      assert Fits(ms, f) && Image(ms, f, cut[i - 1]);
      FragInStream(ms, f);
      var b := Bytes(ms);
      assert b[..f.pos] + b[f.pos..f.End()] == b[..f.End()];
    }
  }

  /** Fragment i of the cut ones, read against the stream of the messages. */
  ghost predicate CutAt(ms: seq<Msg>, t: TxFrag, pos: nat) {
    && t.data != []
    && t.seqNum == Wrap(pos)
    && exists k :: 0 <= k < |ms| && Start(ms, k) <= pos && pos + |t.data| <= Start(ms, k) + |ms[k]|
        && t.msgSize == (if pos == Start(ms, k) then |ms[k]| else 0)
  }

  /** What an observer of the sender sees of the tiling. */
  ghost predicate SeenTiling(r: TxRun) {
    && r.removed + |r.st.fragments| == |r.cut|
    && Payload(r.cut, |r.cut|) <= Bytes(r.msgs)
    && (forall i :: 0 <= i < |r.cut| ==> CutAt(r.msgs, r.cut[i], |Payload(r.cut, i)|))
    && (forall i :: 0 <= i < |r.st.fragments| ==> SameFragment(r.st.fragments[i], r.cut[r.removed + i]))
    && AllArmed(r.st.fragments)
    && r.st.seqNum == Wrap(|Payload(r.cut, r.removed)|)
    && |Payload(r.cut, |r.cut|)| - |Payload(r.cut, r.removed)| <= r.st.windowSize
  }

  predicate SameFragment(t: TxFrag, c: TxFrag) {
    t.seqNum == c.seqNum && t.msgSize == c.msgSize && t.data == c.data
  }

  /** The messages reported sent are exactly those lying wholly below the acknowledged position. */
  ghost predicate SeenCompletion(r: TxRun) {
    && r.removed <= |r.cut|
    && r.reported <= |r.msgs|
    && forall k :: 0 <= k < |r.msgs| ==>
         (k < r.reported <==> Start(r.msgs, k) + |r.msgs[k]| <= |Payload(r.cut, r.removed)|)
  }

  lemma TilingSeen(r: TxRun, g: TxGhost)
    requires ExplainsCore(r, g)
    ensures SeenTiling(r) && |Payload(r.cut, r.removed)| == Acked(g)
  {
    PayloadIsPrefix(g.msgs, g.hist, r.cut, |r.cut|);
    PayloadIsPrefix(g.msgs, g.hist, r.cut, r.removed);
    forall i | 0 <= i < |r.cut| ensures CutAt(r.msgs, r.cut[i], |Payload(r.cut, i)|) {
      PayloadIsPrefix(g.msgs, g.hist, r.cut, i);
      var f := g.hist[i];
      assert Fits(g.msgs, f) && Image(g.msgs, f, r.cut[i]);
      assert Start(g.msgs, f.msg) <= f.pos;
    }
    forall i | 0 <= i < |r.st.fragments| ensures SameFragment(r.st.fragments[i], r.cut[r.removed + i]) {
      assert Image(g.msgs, g.hist[g.base + i], r.st.fragments[i]);
      assert Image(g.msgs, g.hist[g.base + i], r.cut[g.base + i]);
    }
  }

  lemma CompletionSeen(r: TxRun, g: TxGhost)
    requires r.reported <= |r.msgs| && r.removed <= |r.cut|
    requires DoneAt(r.msgs, r.reported, |Payload(r.cut, r.removed)|)
    ensures SeenCompletion(r)
  {
    forall k | 0 <= k < |r.msgs|
      ensures k < r.reported <==> Start(r.msgs, k) + |r.msgs[k]| <= |Payload(r.cut, r.removed)|
    {
      if k < r.reported { StartMonotone(r.msgs, k, r.reported); }
      else { StartMonotone(r.msgs, r.reported, k); }
    }
  }

  /**
   * The tiling, over any run, empty messages included, and whatever the
   * number of 16-bit wraps: the fragments cut so far carry a prefix of the
   * stream of messages without gap or overlap, none straddles two messages,
   * the size field is set exactly on a message's first fragment, and the
   * outstanding fragments, each with its timer set, are the unacknowledged
   * tail of them, at most a window long.  With non-empty messages, send
   * completion is exact: the counts handle_ack returned add up to the number
   * of messages lying wholly below the acknowledged position.
   */
  lemma SenderRun(writeSize: nat, windowSize: nat, checksum: bool, ops: seq<TxOp>)
    requires windowSize < 0x10000
    ensures SeenTiling(Run(Begin(writeSize, windowSize, checksum), ops))
    ensures MessagesNonEmpty(ops) ==> SeenCompletion(Run(Begin(writeSize, windowSize, checksum), ops))
  {
    BeginExplains(writeSize, windowSize, checksum);
    var begin := Begin(writeSize, windowSize, checksum);
    var g := RunExplains(begin, TxGhost([], 0, [], 0, 0), ops);
    TilingSeen(Run(begin, ops), g);
    if MessagesNonEmpty(ops) { Observed(Run(begin, ops), g); }
  }

  lemma Observed(r: TxRun, g: TxGhost)
    requires Explains(r, g)
    ensures SeenTiling(r) && SeenCompletion(r)
  {
    TilingSeen(r, g);
    CompletionSeen(r, g);
  }

  lemma AllReported(ms: seq<Msg>, done: nat)
    requires DoneAt(ms, done, Total(ms))
    ensures done == |ms|
  {
    if done < |ms| { StartMonotone(ms, done + 1, |ms|); }
  }
}
