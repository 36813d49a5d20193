/**
 * The connection object (server/wtp/wtp/connection.py): which Deferred gets
 * which message, and when the Deferred of a sent message fires.  The k-th
 * call of recv or send makes Deferred number k.
 */
module Connection {
  import opened Base
  import opened Stream
  import opened TxSpec
  import opened TxProof
  import opened TxRuns
  import TxControl

  /** The numbers from a up to b. */
  function Numbers(a: nat, b: nat): (s: seq<nat>)
    requires a <= b
    ensures |s| == b - a && forall i :: 0 <= i < |s| ==> s[i] == a + i
  {
    seq(b - a, i requires 0 <= i < b - a => a + i)
  }

  // -------------------------------------------------------------- receiving

  datatype Fired = Fired(deferred: nat, msg: Msg)

  /** recvMsgs and recvDeferreds, the number of recv calls so far, and the Deferreds resolved, in order. */
  datatype RecvState = RecvState(msgs: seq<Msg>, deferreds: seq<nat>, calls: nat, fired: seq<Fired>)

  function RecvOnce(s: RecvState): RecvState {
    var d := s.calls;
    var t := s.(calls := s.calls + 1);
    if s.msgs != [] then t.(msgs := s.msgs[1..], fired := s.fired + [Fired(d, s.msgs[0])])
    else t.(deferreds := s.deferreds + [d])
  }

  function RecvTimes(s: RecvState, n: nat): RecvState
    decreases n
  {
    if n == 0 then s else RecvTimes(RecvOnce(s), n - 1)
  }

  function ResolveOne(s: RecvState, msg: Msg): RecvState
    requires s.deferreds != []
  {
    s.(deferreds := s.deferreds[1..], fired := s.fired + [Fired(s.deferreds[0], msg)])
  }

  /** Resolving loop; the i-th callback run calls recv again nested(i) times. */
  function Resolve(s: RecvState, newMsgs: seq<Msg>, nested: nat -> nat, i: nat): RecvState
    decreases |newMsgs|
  {
    if s.deferreds == [] || newMsgs == [] then s.(msgs := s.msgs + newMsgs) else
    var t := ResolveOne(s, newMsgs[0]);
    Resolve(RecvTimes(t, nested(i)), newMsgs[1..], nested, i + 1)
  }

  /** Everything that arrived so far, against what was asked for. */
  ghost predicate Matched(s: RecvState, arrived: seq<Msg>) {
    var n := |s.fired|;
    && n <= |arrived| && n <= s.calls
    && (forall k :: 0 <= k < n ==> s.fired[k] == Fired(k, arrived[k]))
    && s.msgs == arrived[n..]
    && s.deferreds == Numbers(n, s.calls)
    && (s.msgs == [] || s.deferreds == [])
  }

  lemma RecvMatches(s: RecvState, arrived: seq<Msg>)
    requires Matched(s, arrived)
    ensures Matched(RecvOnce(s), arrived) && RecvOnce(s).calls == s.calls + 1
  {
    if s.msgs == [] { assert Numbers(|s.fired|, s.calls) + [s.calls] == Numbers(|s.fired|, s.calls + 1); }
  }

  lemma {:induction false} RecvTimesMatches(s: RecvState, arrived: seq<Msg>, n: nat)
    requires Matched(s, arrived)
    ensures Matched(RecvTimes(s, n), arrived) && RecvTimes(s, n).calls == s.calls + n
    ensures s.msgs == [] ==> RecvTimes(s, n).msgs == [] && |RecvTimes(s, n).fired| == |s.fired|
    decreases n
  {
    if n > 0 {
      RecvMatches(s, arrived);
      RecvTimesMatches(RecvOnce(s), arrived, n - 1);
    }
  }

  lemma ResolveOneMatches(s: RecvState, arrived: seq<Msg>, msg: Msg)
    requires Matched(s, arrived) && s.deferreds != []
    ensures Matched(ResolveOne(s, msg), arrived + [msg])
  {
    assert Numbers(|s.fired|, s.calls)[1..] == Numbers(|s.fired| + 1, s.calls);
  }

  lemma {:induction false} ResolveMatches(s: RecvState, arrived: seq<Msg>, newMsgs: seq<Msg>,
                                          nested: nat -> nat, i: nat)
    requires Matched(s, arrived)
    ensures Matched(Resolve(s, newMsgs, nested, i), arrived + newMsgs)
    decreases |newMsgs|
  {
    if s.deferreds != [] && newMsgs != [] {
      hide Matched, ResolveOne;
      var t := ResolveOne(s, newMsgs[0]);
      var arrived' := arrived + [newMsgs[0]];
      ResolveOneMatches(s, arrived, newMsgs[0]);
      RecvTimesMatches(t, arrived', nested(i));
      ResolveMatches(RecvTimes(t, nested(i)), arrived', newMsgs[1..], nested, i + 1);
      assert arrived' + newMsgs[1..] == arrived + newMsgs;
    } else {
      KeepRest(s, arrived, newMsgs);
    }
  }

  lemma KeepRest(s: RecvState, arrived: seq<Msg>, newMsgs: seq<Msg>)
    requires Matched(s, arrived) && (s.deferreds == [] || newMsgs == [])
    ensures Matched(s.(msgs := s.msgs + newMsgs), arrived + newMsgs)
  {
  }

  datatype RecvOp = Call | Arrive(msgs: seq<Msg>, nested: nat -> nat)

  function RecvStep(s: RecvState, op: RecvOp): RecvState {
    match op
    case Call => RecvOnce(s)
    case Arrive(msgs, nested) => Resolve(s, msgs, nested, 0)
  }

  function RecvRun(s: RecvState, ops: seq<RecvOp>): RecvState
    decreases |ops|
  {
    if ops == [] then s else RecvRun(RecvStep(s, ops[0]), ops[1..])
  }

  function Arrived(ops: seq<RecvOp>): seq<Msg> {
    if ops == [] then [] else
    (match ops[0] case Call => [] case Arrive(msgs, _) => msgs) + Arrived(ops[1..])
  }

  lemma {:induction false} RecvRunMatches(s: RecvState, arrived: seq<Msg>, ops: seq<RecvOp>)
    requires Matched(s, arrived)
    ensures Matched(RecvRun(s, ops), arrived + Arrived(ops))
    decreases |ops|
  {
    hide Matched;
    if ops == [] {
      assert arrived + [] == arrived;
    } else {
      match ops[0] {
        case Call =>
          RecvMatches(s, arrived);
          RecvRunMatches(RecvOnce(s), arrived, ops[1..]);
          assert [] + Arrived(ops[1..]) == Arrived(ops[1..]);
        case Arrive(msgs, nested) =>
          ResolveMatches(s, arrived, msgs, nested, 0);
          RecvRunMatches(RecvStep(s, ops[0]), arrived + msgs, ops[1..]);
          assert (arrived + msgs) + Arrived(ops[1..]) == arrived + (msgs + Arrived(ops[1..]));
      }
    }
  }

  /**
   * Matching, for every interleaving of recv calls and arriving messages, and
   * whatever the callbacks run by the resolving loop ask for in turn: the
   * k-th recv gets the k-th message, once, as soon as both exist, and pending
   * messages and pending Deferreds are never both there.
   */
  lemma ReceiveMatching(ops: seq<RecvOp>)
    ensures var s, all := RecvRun(RecvState([], [], 0, []), ops), Arrived(ops);
            && |s.fired| == (if s.calls < |all| then s.calls else |all|)
            && (forall k :: 0 <= k < |s.fired| ==> s.fired[k] == Fired(k, all[k]))
            && s.msgs == all[|s.fired|..] && s.deferreds == Numbers(|s.fired|, s.calls)
            && (s.msgs == [] || s.deferreds == [])
  {
    var begin := RecvState([], [], 0, []);
    assert Numbers(0, 0) == [];
    RecvRunMatches(begin, [], ops);
    assert [] + Arrived(ops) == Arrived(ops);
  }

  // ---------------------------------------------------------------- sending

  datatype LinkState = Closed | Opening | Opened | Closing

  /** A sender's run with the Deferreds of its messages; popping from an empty list raises. */
  datatype SendRun = SendRun(run: TxRun, link: LinkState, deferreds: seq<nat>, fired: seq<nat>, raised: bool)

  datatype SendOp = Become(link: LinkState) | Tx(op: TxOp)

  /** The ack that opens the downlink, or closes it, changes the link and nothing else. */
  function LinkAfter(link: LinkState, ack: int): LinkState {
    if link == Opening && ack == 0 then Opened else if link == Closing then Closed else link
  }

  function SendStep(s: SendRun, op: SendOp): SendRun {
    match op
    case Become(link) => s.(link := link)
    case Tx(Add(m)) => s.(run := Step(s.run, Add(m)), deferreds := s.deferreds + [|s.run.msgs|])
    case Tx(Ack(n)) =>
      if LinkAfter(s.link, n) != s.link then s.(link := LinkAfter(s.link, n)) else Complete(s, n)
    case Tx(o) => s.(run := Step(s.run, o))
  }

  /** As many Deferreds fire as messages were sent. */
  function Complete(s: SendRun, ack: int): SendRun {
    var n := HandleAck(s.run.st, ack).sent;
    var t := s.(run := Step(s.run, Ack(ack)));
    if n > |s.deferreds| then t.(deferreds := [], fired := s.fired + s.deferreds, raised := true)
    else t.(deferreds := s.deferreds[n..], fired := s.fired + s.deferreds[..n])
  }

  function SendRunAll(s: SendRun, ops: seq<SendOp>): SendRun
    decreases |ops|
  {
    if ops == [] then s else SendRunAll(SendStep(s, ops[0]), ops[1..])
  }

  ghost predicate SendInv(s: SendRun, g: TxGhost) {
    && Explains(s.run, g) && !s.raised
    && s.run.reported <= |s.run.msgs|
    && s.deferreds == Numbers(s.run.reported, |s.run.msgs|)
    && s.fired == Numbers(0, s.run.reported)
  }

  ghost predicate SentNonEmpty(ops: seq<SendOp>) {
    forall i :: 0 <= i < |ops| ==> ops[i].Tx? && ops[i].op.Add? ==> ops[i].op.msg != []
  }

  lemma ReportedInRange(r: TxRun, g: TxGhost)
    requires Explains(r, g)
    ensures r.reported <= |r.msgs|
  {
  }

  lemma NumbersSplit(a: nat, b: nat, c: nat)
    requires a <= b <= c
    ensures Numbers(a, c)[b - a..] == Numbers(b, c) && Numbers(a, c)[..b - a] == Numbers(a, b)
    ensures Numbers(a, b) + Numbers(b, c) == Numbers(a, c)
  {
  }

  lemma CompleteInv(s: SendRun, g: TxGhost, ack: int) returns (g': TxGhost)
    requires SendInv(s, g)
    ensures SendInv(Complete(s, ack), g')
  {
    hide Explains, HandleAck;
    g' := StepExplains(s.run, g, Ack(ack));
    var r := Step(s.run, Ack(ack));
    ReportedInRange(r, g');
    var n := HandleAck(s.run.st, ack).sent;
    assert r.reported == s.run.reported + n && r.msgs == s.run.msgs;
    NumbersSplit(s.run.reported, r.reported, |r.msgs|);
    NumbersSplit(0, s.run.reported, r.reported);
  }

  lemma SendStepInv(s: SendRun, g: TxGhost, op: SendOp) returns (g': TxGhost)
    requires SendInv(s, g) && (op.Tx? && op.op.Add? ==> op.op.msg != [])
    ensures SendInv(SendStep(s, op), g')
  {
    hide Explains, HandleAck, GetWriteData, Numbers;
    g' := g;
    match op
    case Become(_) =>
    case Tx(Add(m)) =>
      g' := StepExplains(s.run, g, Add(m));
      NumbersOne(s.run.reported, |s.run.msgs|);
    case Tx(Ack(n)) => if LinkAfter(s.link, n) == s.link { g' := CompleteInv(s, g, n); }
    case Tx(o) => g' := StepExplains(s.run, g, o);
  }

  lemma NumbersOne(a: nat, b: nat)
    requires a <= b
    ensures Numbers(a, b) + [b] == Numbers(a, b + 1)
  {
  }

  lemma {:induction false} SendRunInv(s: SendRun, g: TxGhost, ops: seq<SendOp>) returns (g': TxGhost)
    requires SendInv(s, g) && SentNonEmpty(ops)
    ensures SendInv(SendRunAll(s, ops), g')
    decreases |ops|
  {
    hide SendInv, SendStep;
    g' := g;
    if ops != [] {
      var g1 := SendStepInv(s, g, ops[0]);
      g' := SendRunInv(SendStep(s, ops[0]), g1, ops[1..]);
    }
  }

  /**
   * Completion, over every run: the Deferreds fire in the order of the sends,
   * Deferred k has fired exactly when the last byte of message k is
   * acknowledged, and the list they are popped from is never found empty.
   */
  lemma SendCompletion(writeSize: nat, windowSize: nat, checksum: bool, ops: seq<SendOp>)
    requires windowSize < 0x10000 && SentNonEmpty(ops)
    ensures var s := SendRunAll(SendRun(Begin(writeSize, windowSize, checksum), Closed, [], [], false), ops);
            && !s.raised
            && s.fired == Numbers(0, |s.fired|)
            && s.run.removed <= |s.run.cut|
            && forall k :: 0 <= k < |s.run.msgs| ==>
                 (k in s.fired <==> Start(s.run.msgs, k) + |s.run.msgs[k]| <= |Payload(s.run.cut, s.run.removed)|)
  {
    BeginExplains(writeSize, windowSize, checksum);
    var begin := SendRun(Begin(writeSize, windowSize, checksum), Closed, [], [], false);
    assert SendInv(begin, TxGhost([], 0, [], 0, 0));
    var g := SendRunInv(begin, TxGhost([], 0, [], 0, 0), ops);
    var s := SendRunAll(begin, ops);
    Observed(s.run, g);
    forall k | 0 <= k < |s.run.msgs| ensures k in s.fired <==> k < s.run.reported {
      if k < s.run.reported { assert s.fired[k] == k; }
    }
  }

  // ---------------------------------------------------------------- opening and closing

  function Acks(ns: seq<int>): (ops: seq<SendOp>)
    ensures |ops| == |ns| && forall i :: 0 <= i < |ns| ==> ops[i] == Tx(Ack(ns[i]))
  {
    seq(|ns|, i requires 0 <= i < |ns| => Tx(Ack(ns[i])))
  }

  function SenderAcks(ns: seq<int>): (ops: seq<TxOp>)
    ensures |ops| == |ns| && forall i :: 0 <= i < |ns| ==> ops[i] == Ack(ns[i])
  {
    seq(|ns|, i requires 0 <= i < |ns| => Ack(ns[i]))
  }

  /** Acks that change no link all reach the sender. */
  lemma {:induction false} AcksReachSender(s: SendRun, ns: seq<int>)
    requires s.link == Opened || s.link == Closed || (s.link == Opening && 0 !in ns)
    ensures var t := SendRunAll(s, Acks(ns)); t.link == s.link && t.run == Run(s.run, SenderAcks(ns))
    decreases |ns|
  {
    hide HandleAck;
    if ns != [] {
      assert Acks(ns)[1..] == Acks(ns[1..]) && SenderAcks(ns)[1..] == SenderAcks(ns[1..]);
      AcksReachSender(SendStep(s, Tx(Ack(ns[0]))), ns[1..]);
    }
  }

  lemma {:induction false} SendRunAppend(s: SendRun, a: seq<SendOp>, b: seq<SendOp>)
    ensures SendRunAll(s, a + b) == SendRunAll(SendRunAll(s, a), b)
    decreases |a|
  {
    hide SendStep;
    if a == [] {
      assert a + b == b;
    } else {
      assert (a + b)[1..] == a[1..] + b;
      SendRunAppend(SendStep(s, a[0]), a[1..], b);
    }
  }

  lemma {:induction false} RunAppend(r: TxRun, a: seq<TxOp>, b: seq<TxOp>)
    ensures Run(r, a + b) == Run(Run(r, a), b)
    decreases |a|
  {
    hide Step;
    if a == [] {
      assert a + b == b;
    } else {
      assert (a + b)[1..] == a[1..] + b;
      RunAppend(Step(r, a[0]), a[1..], b);
    }
  }

  /**
   * While the downlink is opening, over any list of acks: it is open from the
   * first ack of 0 on, and that ack alone does not reach the sender.
   */
  lemma OpenedByFirstZero(s: SendRun, before: seq<int>, after: seq<int>)
    requires s.link == Opening && 0 !in before
    ensures SendRunAll(s, Acks(before)).link == Opening
    ensures var t := SendRunAll(s, Acks(before + [0] + after));
            t.link == Opened && t.run == Run(s.run, SenderAcks(before + after))
  {
    hide HandleAck, SendRunAll, Run;
    AcksReachSender(s, before);
    var u := SendRunAll(s, Acks(before));
    LinkAck(u, 0);
    AcksReachSender(SendStep(u, Tx(Ack(0))), after);
    SendRunAppend(s, Acks(before), Acks([0]));
    SendRunAppend(s, Acks(before) + Acks([0]), Acks(after));
    RunAppend(s.run, SenderAcks(before), SenderAcks(after));
    assert Acks(before + [0] + after) == Acks(before) + Acks([0]) + Acks(after);
    assert SenderAcks(before + after) == SenderAcks(before) + SenderAcks(after);
  }

  /** While it is closing, the first ack closes it, whatever its number, and alone does not reach the sender. */
  lemma ClosedByFirstAck(s: SendRun, n: int, after: seq<int>)
    requires s.link == Closing
    ensures var t := SendRunAll(s, Acks([n] + after)); t.link == Closed && t.run == Run(s.run, SenderAcks(after))
  {
    hide HandleAck, SendRunAll, Run;
    LinkAck(s, n);
    AcksReachSender(SendStep(s, Tx(Ack(n))), after);
    SendRunAppend(s, Acks([n]), Acks(after));
    assert Acks([n] + after) == Acks([n]) + Acks(after);
  }

  lemma LinkAck(s: SendRun, n: int)
    requires (s.link == Opening && n == 0) || s.link == Closing
    ensures var t := SendStep(s, Tx(Ack(n)));
            && t == s.(link := if s.link == Opening then Opened else Closed)
            && SendRunAll(s, Acks([n])) == t
  {
    assert Acks([n])[1..] == [];
    assert SendRunAll(SendStep(s, Tx(Ack(n))), []) == SendStep(s, Tx(Ack(n)));
  }

  // ---------------------------------------------------------------- the code

  class WTPConnection {
    const txCtrl: TxControl.SlidingWindowTxControl
    var link: LinkState
    var recvMsgs: seq<Msg>
    var recvDeferreds: seq<nat>
    var sendDeferreds: seq<nat>
    /** How often recv and send were called, and the Deferreds resolved so far. */
    var recvCalls: nat
    var sendCalls: nat
    ghost var recvFired: seq<Fired>
    ghost var sendFired: seq<nat>

    ghost function Receiving(): RecvState
      reads this
    {
      RecvState(recvMsgs, recvDeferreds, recvCalls, recvFired)
    }

    /** The Deferreds waiting are those of the messages not wholly acknowledged; the others have fired. */
    ghost predicate Valid()
      reads this, txCtrl, txCtrl.fragments
    {
      && txCtrl.Valid() && sendCalls == |txCtrl.view.msgs|
      && txCtrl.view.done <= |txCtrl.view.msgs|
      && sendDeferreds == Numbers(txCtrl.view.done, |txCtrl.view.msgs|)
      && sendFired == Numbers(0, txCtrl.view.done)
    }

    constructor ()
      ensures Valid() && txCtrl.view.msgs == []
      ensures Receiving() == RecvState([], [], 0, []) && link == Closed
    {
      hide TxControl.SlidingWindowTxControl.Valid, TxControl.SlidingWindowTxControl.State, TxSpec.Init, Numbers;
      var tx := new TxControl.SlidingWindowTxControl(24, 64, true);
      txCtrl := tx;
      link, recvMsgs, recvDeferreds, sendDeferreds := Closed, [], [], [];
      recvCalls, sendCalls := 0, 0;
      recvFired, sendFired := [], [];
      new;
      NoNumbers();
    }

    lemma NoNumbers()
      ensures Numbers(0, 0) == []
    {
    }

    method Send(msgData: seq<byte>) returns (d: nat)
      requires Valid() && |msgData| < 0x10000
      modifies this`sendDeferreds, this`sendCalls, txCtrl`messages, txCtrl`view
      ensures Valid() && d == |old(txCtrl.view.msgs)|
      ensures txCtrl.view == old(txCtrl.view).(msgs := old(txCtrl.view.msgs) + [msgData])
    {
      hide TxSound;
      d := sendCalls;
      sendCalls := sendCalls + 1;
      txCtrl.AddMsg(msgData);
      NumbersOne(txCtrl.view.done, |txCtrl.view.msgs| - 1);
      sendDeferreds := sendDeferreds + [d];
    }

    method Recv() returns (d: nat)
      modifies this`recvMsgs, this`recvDeferreds, this`recvCalls, this`recvFired
      ensures Receiving() == RecvOnce(old(Receiving())) && d == old(recvCalls)
    {
      d := recvCalls;
      recvCalls := recvCalls + 1;
      if recvMsgs != [] {
        recvFired := recvFired + [Fired(d, recvMsgs[0])];
        recvMsgs := recvMsgs[1..];
      } else {
        recvDeferreds := recvDeferreds + [d];
      }
    }

    /** A callback that calls recv n times. */
    method Callback(n: nat)
      modifies this`recvMsgs, this`recvDeferreds, this`recvCalls, this`recvFired
      ensures Receiving() == RecvTimes(old(Receiving()), n)
    {
      ghost var goal := RecvTimes(Receiving(), n);
      for i := 0 to n
        invariant goal == RecvTimes(Receiving(), n - i)
      {
        var d := Recv();
      }
    }

    /** The tail of _handle_data_packet: resolve waiting Deferreds, then keep what is left. */
    method HandOver(msgs: seq<Msg>, nested: nat -> nat)
      modifies this`recvMsgs, this`recvDeferreds, this`recvCalls, this`recvFired
      ensures Receiving() == Resolve(old(Receiving()), msgs, nested, 0)
    {
      ghost var goal := Resolve(Receiving(), msgs, nested, 0);
      var newMsgs, i := msgs, 0;
      while recvDeferreds != [] && newMsgs != []
        invariant goal == Resolve(Receiving(), newMsgs, nested, i)
        decreases |newMsgs|
      {
        var d, msg := recvDeferreds[0], newMsgs[0];
        recvDeferreds, newMsgs := recvDeferreds[1..], newMsgs[1..];
        recvFired := recvFired + [Fired(d, msg)];
        Callback(nested(i));
        i := i + 1;
      }
      if newMsgs != [] {
        recvMsgs := recvMsgs + newMsgs;
      } else {
        assert recvMsgs + [] == recvMsgs;
      }
    }

    /** _handle_ack: opened by the ack of nothing, closed by any, else taken by the transmit control. */
    method HandleAck(seqNum: int)
      requires Valid()
      modifies this`link, this`sendDeferreds, this`sendFired
      modifies txCtrl`seqNum, txCtrl`fragments, txCtrl`msgEnds, txCtrl`view
      ensures Valid() && txCtrl.view.msgs == old(txCtrl.view.msgs)
      ensures link == LinkAfter(old(link), seqNum)
      ensures link != old(link) ==>
                txCtrl.State() == old(txCtrl.State()) && txCtrl.view == old(txCtrl.view) && sendFired == old(sendFired)
      ensures link == old(link) ==>
                && txCtrl.State() == TxSpec.HandleAck(old(txCtrl.State()), seqNum).st
                && sendFired == Numbers(0, old(txCtrl.view.done) + TxSpec.HandleAck(old(txCtrl.State()), seqNum).sent)
    {
      hide TxControl.SlidingWindowTxControl.Valid, TxControl.SlidingWindowTxControl.State, TxSpec.HandleAck, Numbers;
      if link == Opening && seqNum == 0 {
        link := Opened;
      } else if link == Closing {
        link := Closed;
      } else {
        TakeAck(seqNum);
      }
    }

    /** The list popped from is never empty. */
    method TakeAck(seqNum: int)
      requires Valid()
      modifies this`sendDeferreds, this`sendFired
      modifies txCtrl`seqNum, txCtrl`fragments, txCtrl`msgEnds, txCtrl`view
      ensures Valid() && txCtrl.view.msgs == old(txCtrl.view.msgs)
      ensures txCtrl.State() == TxSpec.HandleAck(old(txCtrl.State()), seqNum).st
      ensures sendFired == Numbers(0, old(txCtrl.view.done) + TxSpec.HandleAck(old(txCtrl.State()), seqNum).sent)
    {
      hide TxControl.SlidingWindowTxControl.Valid, TxControl.SlidingWindowTxControl.State, TxSpec.HandleAck, Numbers;
      ghost var done := txCtrl.view.done;
      var nSentMsgs := txCtrl.HandleAck(seqNum);
      DoneInRange();
      NumbersSplit(done, done + nSentMsgs, |txCtrl.view.msgs|);
      NumbersSplit(0, done, done + nSentMsgs);
      ResolveSent(nSentMsgs);
    }

    lemma DoneInRange()
      requires txCtrl.Valid()
      ensures txCtrl.view.done <= |txCtrl.view.msgs|
    {
    }

    method ResolveSent(n: nat)
      requires n <= |sendDeferreds|
      modifies this`sendDeferreds, this`sendFired
      ensures sendDeferreds == old(sendDeferreds)[n..] && sendFired == old(sendFired) + old(sendDeferreds)[..n]
    {
      for i := 0 to n
        invariant sendDeferreds == old(sendDeferreds)[i..]
        invariant sendFired == old(sendFired) + old(sendDeferreds)[..i]
      {
        sendFired := sendFired + [sendDeferreds[0]];
        sendDeferreds := sendDeferreds[1..];
      }
    }
  }
}
