/**
 * The queue of control packets (server/wtp/wtp/transmission.py): every one is
 * written in its turn, or lost, and when.
 */
module ControlQueue {
  import opened Base
  import opened TxSpec
  import opened SendPlan
  import TxRuns

  lemma {:induction false} LengthsNext(packets: seq<seq<byte>>, p: seq<byte>)
    ensures Lengths(packets + [p]) == Lengths(packets) + |p|
  {
    if packets == [] {
      assert [] + [p] == [p] && [p][1..] == [];
    } else {
      assert (packets + [p])[1..] == packets[1..] + [p];
      LengthsNext(packets[1..], p);
    }
  }

  /** Packets are taken first to last until one does not fit; that one is gone too. */
  lemma {:induction false} LoopTakes(packets: seq<seq<byte>>, estimate: nat, writeSize: nat)
    requires estimate <= writeSize
    ensures var c := ControlLoop(packets, estimate, writeSize);
            var k := |c.written|;
            && k <= |packets| && c.written == packets[..k] && estimate + Lengths(packets[..k]) <= writeSize
            && (c.tooLong <==> k < |packets|)
            && (k < |packets| ==> estimate + Lengths(packets[..k]) + |packets[k]| > writeSize)
            && c.rest == if k < |packets| then packets[k + 1..] else []
    decreases |packets|
  {
    if packets != [] && estimate + |packets[0]| <= writeSize {
      LoopTakes(packets[1..], estimate + |packets[0]|, writeSize);
      var k := |ControlLoop(packets[1..], estimate + |packets[0]|, writeSize).written|;
      assert packets[..1 + k] == [packets[0]] + packets[1..][..k];
      assert packets[..1 + k][1..] == packets[1..][..k];
    } else {
      assert packets[..0] == [];
    }
  }

  /**
   * One write: the packets that fit the limit together go out in order; if
   * one does not fit behind those, it is popped and lost, nothing else is
   * sent, and the ones behind it stay; else none stays.
   */
  lemma ControlTaken(st: TxState)
    ensures var w, ps := GetWriteData(st), st.packets;
            var k := |w.control|;
            && k <= |ps| && w.control == ps[..k] && Lengths(ps[..k]) <= st.writeSize
            && (k == |ps| ==> w.st.packets == [])
            && (k < |ps| ==>
                  && Lengths(ps[..k + 1]) > st.writeSize && w.st.packets == ps[k + 1..]
                  && w.data == [] && !w.raised && w.st == st.(packets := w.st.packets))
  {
    hide ControlLoop, SendLoop, Lengths;
    LoopTakes(st.packets, 0, st.writeSize);
    var k := |ControlLoop(st.packets, 0, st.writeSize).written|;
    if k < |st.packets| {
      LengthsNext(st.packets[..k], st.packets[k]);
      assert st.packets[..k + 1] == st.packets[..k] + [st.packets[k]];
    }
  }

  // ---------------------------------------------------------------------- runs

  /** What became of a packet: returned to the caller of a write, or gone without that. */
  datatype Entry = Returned(packet: seq<byte>) | Lost(packet: seq<byte>)

  function Entries(packets: seq<seq<byte>>, lost: bool): (es: seq<Entry>)
    ensures |es| == |packets|
  {
    seq(|packets|, i requires 0 <= i < |packets| => if lost then Lost(packets[i]) else Returned(packets[i]))
  }

  /** Of one write: with an exception nothing is returned. */
  function OfWrite(st: TxState): seq<Entry> {
    var w := GetWriteData(st);
    Entries(w.control, w.raised)
    + if |w.control| < |st.packets| then [Lost(st.packets[|w.control|])] else []
  }

  /** Of a run, in the order in which they left the queue. */
  function Log(r: TxRuns.TxRun, ops: seq<TxRuns.TxOp>): seq<Entry>
    decreases |ops|
  {
    if ops == [] then [] else
    (if ops[0].Write? then OfWrite(r.st) else []) + Log(TxRuns.Step(r, ops[0]), ops[1..])
  }

  function Packets(log: seq<Entry>): (ps: seq<seq<byte>>)
    ensures |ps| == |log| && forall i :: 0 <= i < |log| ==> ps[i] == log[i].packet
  {
    seq(|log|, i requires 0 <= i < |log| => log[i].packet)
  }

  function Given(ops: seq<TxRuns.TxOp>): seq<seq<byte>> {
    if ops == [] then [] else (if ops[0].Control? then [ops[0].packet] else []) + Given(ops[1..])
  }

  lemma WriteTakes(st: TxState)
    ensures Packets(OfWrite(st)) + GetWriteData(st).st.packets == st.packets
  {
    hide GetWriteData, Lengths;
    ControlTaken(st);
  }

  lemma StepTakes(r: TxRuns.TxRun, op: TxRuns.TxOp)
    ensures Packets(if op.Write? then OfWrite(r.st) else []) + TxRuns.Step(r, op).st.packets
         == r.st.packets + if op.Control? then [op.packet] else []
  {
    hide GetWriteData, AckCount, PopEnds, OfWrite;
    if op.Write? { WriteTakes(r.st); }
  }

  lemma PacketsAppend(a: seq<Entry>, b: seq<Entry>)
    ensures Packets(a + b) == Packets(a) + Packets(b)
  {
  }

  /**
   * Over every run: the control packets that have left the queue, returned by
   * a write or lost, and those still in it are the ones given, each once and
   * in order.
   */
  lemma {:induction false} EachOnceInOrder(r: TxRuns.TxRun, ops: seq<TxRuns.TxOp>)
    ensures Packets(Log(r, ops)) + TxRuns.Run(r, ops).st.packets == r.st.packets + Given(ops)
    decreases |ops|
  {
    hide TxRuns.Step, OfWrite, Packets;
    if ops == [] {
      assert Packets([]) == [];
    } else {
      var t := TxRuns.Step(r, ops[0]);
      StepTakes(r, ops[0]);
      EachOnceInOrder(t, ops[1..]);
      var now := if ops[0].Write? then OfWrite(r.st) else [];
      var given := if ops[0].Control? then [ops[0].packet] else [];
      PacketsAppend(now, Log(t, ops[1..]));
      Regroups(Packets(now), Packets(Log(t, ops[1..])), TxRuns.Run(t, ops[1..]).st.packets, t.st.packets,
               Given(ops[1..]), r.st.packets, given);
    }
  }

  lemma Regroups(a: seq<seq<byte>>, b: seq<seq<byte>>, c: seq<seq<byte>>, t: seq<seq<byte>>, d: seq<seq<byte>>,
                 p: seq<seq<byte>>, g: seq<seq<byte>>)
    requires a + t == p + g && b + c == t + d
    ensures (a + b) + c == p + (g + d)
  {
    assert (a + b) + c == a + (b + c);
    assert a + (t + d) == (a + t) + d;
    assert (p + g) + d == p + (g + d);
  }
}
