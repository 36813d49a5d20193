/** The packets the downlink puts on the air, down to the bytes and up again. */
module DownlinkBytes {
  import opened Base
  import opened Stream
  import opened TxSpec
  import opened TxProof
  import opened Wire
  import opened WriteArrives
  import BlockWrite
  import Framing
  import Downlink
  import opened RxProof

  /** What the data packet handlers hand to the receive control, in order. */
  function Inputs(ps: seq<Framing.Packet>): seq<Downlink.Packet> {
    if ps == [] then [] else
    (if ps[0].BeginMsg? || ps[0].ContMsg? then [HandlerInput(ps[0])] else []) + Inputs(ps[1..])
  }

  function Airborne(fs: seq<TxFrag>): seq<Downlink.Packet> {
    if fs == [] then [] else [Downlink.PacketOf(fs[0])] + Airborne(fs[1..])
  }

  lemma {:induction false} InputsAppend(ps: seq<Framing.Packet>, qs: seq<Framing.Packet>)
    ensures Inputs(ps + qs) == Inputs(ps) + Inputs(qs)
  {
    hide HandlerInput;
    if ps == [] {
      assert ps + qs == qs;
    } else {
      var first := if ps[0].BeginMsg? || ps[0].ContMsg? then [HandlerInput(ps[0])] else [];
      assert (ps + qs)[1..] == ps[1..] + qs;
      InputsAppend(ps[1..], qs);
      assert Inputs(ps + qs) == first + Inputs(ps[1..] + qs);
      assert first + (Inputs(ps[1..]) + Inputs(qs)) == (first + Inputs(ps[1..])) + Inputs(qs);
    }
  }

  lemma {:induction false} NoInputs(cs: seq<Framing.Packet>)
    requires forall i :: 0 <= i < |cs| ==> Framing.IsControl(cs[i])
    ensures Inputs(cs) == []
  {
    if cs != [] { NoInputs(cs[1..]); }
  }

  lemma {:induction false} InputsOfData(fs: seq<TxFrag>)
    requires forall i :: 0 <= i < |fs| ==> Encodable(fs[i])
    ensures Inputs(Framing.DataPackets(fs)) == Airborne(fs)
  {
    if fs != [] {
      HandlersSeePackets(fs[0]);
      assert Framing.DataPackets(fs)[1..] == Framing.DataPackets(fs[1..]);
      InputsOfData(fs[1..]);
    }
  }

  lemma {:induction false} AirborneSet(fs: seq<TxFrag>)
    ensures (set p | p in Airborne(fs)) == Downlink.PacketsOf(fs)
  {
    if fs != [] {
      AirborneSet(fs[1..]);
      assert fs == [fs[0]] + fs[1..];
      assert Downlink.PacketsOf(fs) == {Downlink.PacketOf(fs[0])} + Downlink.PacketsOf(fs[1..]);
    }
  }

  /** Every word of the data is among the ones stored, and no other. */
  predicate Covers(order: seq<nat>, words: nat) {
    (forall j :: 0 <= j < |order| ==> order[j] < words) && (forall p :: 0 <= p < words ==> p in order)
  }

  /** The bytes, stored on the tag in this order, are parsed into the data packets of these fragments. */
  ghost predicate ReachControl(data: seq<byte>, fs: seq<TxFrag>, mem: seq<byte>, order: seq<nat>)
    requires |data| < 256 && |BlockWrite.Padded(data)| <= |mem| && Covers(order, |BlockWrite.Padded(data)| / 2)
  {
    var after := BlockWrite.Stored(mem, BlockWrite.Swapped(BlockWrite.Padded(data)), order);
    && |after| > 0 && 1 + after[0] as int <= |after|
    && Framing.ParseMemory(after).status == Framing.Ok
    && Inputs(Framing.ParseMemory(after).packets) == Airborne(fs)
  }

  /**
   * In every legal run of the downlink, at every moment: the bytes of the
   * next write, stored on the tag word by word in any order with repeats, are
   * parsed without error, and what the handlers of the data packets hand to
   * the receive control is, packet by packet and in order, what Send puts on
   * the air.
   */
  lemma SendIsWhatArrives(writeSize: nat, windowSize: nat, slots: nat, capacity: nat, acts: seq<Downlink.Action>,
                          cs: seq<Framing.Packet>, mem: seq<byte>, order: seq<nat>)
    requires 0 < windowSize < 0x100
    requires Downlink.Legal(Downlink.Begin(writeSize, windowSize, true, slots, capacity), acts)
    requires forall i :: 0 <= i < |cs| ==> Framing.IsControl(cs[i]) && Framing.Sendable(cs[i])
    requires var s := Downlink.Run(Downlink.Begin(writeSize, windowSize, true, slots, capacity), acts);
             s.tx.packets == Framing.Records(cs) && s.tx.writeSize < 128
    ensures var s := Downlink.Run(Downlink.Begin(writeSize, windowSize, true, slots, capacity), acts);
            var w := GetWriteData(s.tx);
            && (forall i :: 0 <= i < |w.data| ==> Encodable(w.data[i]))
            && |Output(w)| < 256
            && (|BlockWrite.Padded(Output(w))| <= |mem| && Covers(order, |BlockWrite.Padded(Output(w))| / 2) ==>
                  ReachControl(Output(w), w.data, mem, order))
            && (w.raised ==> Downlink.Step(s, Downlink.Send).air == s.air)
            && (!w.raised ==> Downlink.Step(s, Downlink.Send).air == s.air + set p | p in Airborne(w.data))
  {
    hide Downlink.SysInv, TxCore, SettledIf, AllArmed, GetWriteData, Output, Covers, ReachControl, Framing.Records;
    var s0 := Downlink.Begin(writeSize, windowSize, true, slots, capacity);
    var s := Downlink.Run(s0, acts);
    Downlink.BeginInv(writeSize, windowSize, true, slots, capacity);
    var tg, rg := Downlink.RunInv(s0, TxGhost([], 0, [], 0, 0), RxGhost(0, 0, [], []), acts);
    WindowKept(s0, acts);
    SenderReady(s, tg, rg);
    WriteReachesControl(s.tx, tg, cs, mem, order);
    AirborneSet(GetWriteData(s.tx).data);
  }

  lemma WriteReachesControl(st: TxState, g: TxGhost, cs: seq<Framing.Packet>, mem: seq<byte>, order: seq<nat>)
    requires TxCore(st, g) && SettledIf(st, g.msgs) && AllArmed(st.fragments) && st.windowSize < 0x100
    requires forall i :: 0 <= i < |g.msgs| ==> |g.msgs[i]| < 0x10000
    requires forall i :: 0 <= i < |cs| ==> Framing.IsControl(cs[i]) && Framing.Sendable(cs[i])
    requires st.packets == Framing.Records(cs) && st.writeSize < 128
    ensures var w := GetWriteData(st);
            && (forall i :: 0 <= i < |w.data| ==> Encodable(w.data[i]))
            && |Output(w)| < 256
            && (|BlockWrite.Padded(Output(w))| <= |mem| && Covers(order, |BlockWrite.Padded(Output(w))| / 2) ==>
                  ReachControl(Output(w), w.data, mem, order))
  {
    hide TxCore, SettledIf, GetWriteData, BlockWrite.Padded, BlockWrite.Swapped, BlockWrite.Stored, Framing.ParseMemory,
      Framing.DataPackets, Encodable, WriteControl, WriteData, Inputs, Airborne;
    var k := WriteReachesHandlers(st, g, cs, mem, order);
    OutputAtMostDouble(st);
    var w := GetWriteData(st);
    InputsAppend(cs[..k], Framing.DataPackets(w.data));
    NoInputs(cs[..k]);
    InputsOfData(w.data);
    assert [] + Airborne(w.data) == Airborne(w.data);
  }

  lemma SenderReady(s: Downlink.Sys, tg: TxGhost, rg: RxGhost)
    requires Downlink.SysInv(s, tg, rg)
    ensures TxCore(s.tx, tg) && SettledIf(s.tx, tg.msgs) && AllArmed(s.tx.fragments)
    ensures forall k :: 0 <= k < |tg.msgs| ==> |tg.msgs[k]| < 0x10000
  {
    hide TxCore, RxInv, Downlink.AirOk, Downlink.AcksOk;
    Downlink.StreamFits(s, tg, rg);
    forall k | 0 <= k < |tg.msgs| ensures |tg.msgs[k]| < 0x10000 { StartMonotone(tg.msgs, k, |tg.msgs|); }
  }

  lemma {:induction false} WindowKept(s: Downlink.Sys, acts: seq<Downlink.Action>)
    ensures Downlink.Run(s, acts).tx.windowSize == s.tx.windowSize
    decreases |acts|
  {
    hide GetWriteData, HandleAck, Downlink.Receive;
    if acts != [] {
      if acts[0].Ack? { AckKeepsWindow(s.tx, acts[0].seqNum); }
      WindowKept(Downlink.Step(s, acts[0]), acts[1..]);
    }
  }

  lemma AckKeepsWindow(st: TxState, ack: int)
    ensures HandleAck(st, ack).st.windowSize == st.windowSize
  {
  }
}
