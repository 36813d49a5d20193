/** One write from get_write_data to the tag's packet handlers. */
module WriteArrives {
  import opened Base
  import opened Cyclic
  import opened TxSpec
  import opened TxProof
  import opened SendPlan
  import opened Wire
  import BlockWrite
  import Framing
  import Downlink

  /** Control packets are written in order until one does not fit. */
  lemma {:induction false} ControlPrefix(packets: seq<seq<byte>>, estimate: nat, writeSize: nat) returns (k: nat)
    requires estimate <= writeSize
    ensures k <= |packets| && ControlLoop(packets, estimate, writeSize).written == packets[..k]
    decreases |packets|
  {
    k := 0;
    if packets != [] && estimate + |packets[0]| <= writeSize {
      var n := ControlPrefix(packets[1..], estimate + |packets[0]|, writeSize);
      k := n + 1;
      assert [packets[0]] + packets[1..][..n] == packets[..k];
    }
  }

  lemma WrittenEncodable(st: TxState, g: TxGhost)
    requires TxCore(st, g) && SettledIf(st, g.msgs) && AllArmed(st.fragments) && st.windowSize < 0x100
    requires forall k :: 0 <= k < |g.msgs| ==> |g.msgs[k]| < 0x10000
    ensures var out := GetWriteData(st).data; forall i :: 0 <= i < |out| ==> Encodable(out[i])
  {
    hide TxCore, GetWriteData;
    var w := GetWriteData(st);
    var g' := GetWriteDataCore(st, g);
    forall i | 0 <= i < |w.data| ensures Encodable(w.data[i]) {
      assert w.data[i] in w.data;
      var k :| g'.base <= k < |g'.hist| && Image(g'.msgs, g'.hist[k], w.data[i]);
      WindowOf(w.st, g');
      OutstandingEncodable(w.st, g', k, w.data[i]);
    }
  }

  lemma WindowOf(st: TxState, g: TxGhost)
    requires TxCore(st, g)
    ensures Window(st, g)
  {
  }

  /**
   * In every state of the sender: what get_write_data returns, if its length
   * fits the length byte, reaches the tag's packet handlers as the first k
   * pending control packets followed by the fragments selected for sending.
   */
  lemma WriteReachesHandlers(st: TxState, g: TxGhost, cs: seq<Framing.Packet>, mem: seq<byte>, order: seq<nat>)
    returns (k: nat)
    requires TxCore(st, g) && SettledIf(st, g.msgs) && AllArmed(st.fragments) && st.windowSize < 0x100
    requires forall i :: 0 <= i < |g.msgs| ==> |g.msgs[i]| < 0x10000
    requires forall i :: 0 <= i < |cs| ==> Framing.IsControl(cs[i]) && Framing.Sendable(cs[i])
    requires st.packets == Framing.Records(cs)
    ensures var w := GetWriteData(st);
            && k <= |cs| && w.control == Framing.Records(cs[..k])
            && (forall i :: 0 <= i < |w.data| ==> Encodable(w.data[i]))
            && var data := WriteData(WriteControl([], w.control, true), w.data, true);
            (|data| < 256 && |BlockWrite.Padded(data)| <= |mem|
             && (forall j :: 0 <= j < |order| ==> order[j] < |BlockWrite.Padded(data)| / 2)
             && (forall p :: 0 <= p < |BlockWrite.Padded(data)| / 2 ==> p in order) ==>
               var after := BlockWrite.Stored(mem, BlockWrite.Swapped(BlockWrite.Padded(data)), order);
               && |after| > 0 && 1 + after[0] as int <= |after|
               && Framing.ParseMemory(after) == Framing.Parsed(cs[..k] + Framing.DataPackets(w.data), Framing.Ok))
  {
    hide TxCore, SendLoop, BlockWrite.Padded, BlockWrite.Swapped, BlockWrite.Stored, Framing.ParseMemory,
      WriteControl, WriteData;
    var w := GetWriteData(st);
    WrittenEncodable(st, g);
    k := ControlPrefix(st.packets, 0, st.writeSize);
    assert Framing.Records(cs)[..k] == Framing.Records(cs[..k]);
    var data := WriteData(WriteControl([], w.control, true), w.data, true);
    assert data == Framing.WriteBytes(cs[..k], w.data);
    if |data| < 256 && |BlockWrite.Padded(data)| <= |mem|
       && (forall j :: 0 <= j < |order| ==> order[j] < |BlockWrite.Padded(data)| / 2)
       && (forall p :: 0 <= p < |BlockWrite.Padded(data)| / 2 ==> p in order)
    {
      Framing.FramingRoundTrip(cs[..k], w.data, mem, order);
    }
  }

  /** What the handler of a data packet calls the receive control with. */
  function HandlerInput(p: Framing.Packet): Downlink.Packet
    requires p.BeginMsg? || p.ContMsg?
  {
    match p
    case BeginMsg(m, n, data) => Downlink.Packet(n, m, data)
    case ContMsg(n, data) => Downlink.Packet(n, 0, data)
  }

  /** The packets on the air of the downlink are what the tag's handlers make of the bytes. */
  lemma HandlersSeePackets(f: TxFrag)
    requires Encodable(f)
    ensures var p := Framing.DataPacket(f);
            (p.BeginMsg? || p.ContMsg?) && HandlerInput(p) == Downlink.PacketOf(f)
  {
  }

  // ------------------------------------------------------ how long it gets

  lemma {:induction false} DataLength(s: seq<byte>, fs: seq<TxFrag>)
    requires forall i :: 0 <= i < |fs| ==> Encodable(fs[i])
    ensures |WriteData(s, fs, true)| == |s| + Estimate(fs) + Uncounted(fs)
    decreases |fs|
  {
    if fs != [] { DataLength(s + Seal([], DataRecord(fs[0]), true), fs[1..]); }
  }

  lemma {:induction false} ControlLength(s: seq<byte>, packets: seq<seq<byte>>)
    ensures |WriteControl(s, packets, true)| == |s| + Lengths(packets) + |packets|
    decreases |packets|
  {
    if packets != [] { ControlLength(s + Seal(s, packets[0], true), packets[1..]); }
  }

  lemma {:induction false} SendEstimate(st: TxState, estimate: nat)
    requires estimate <= st.writeSize
    ensures estimate + Estimate(SendLoop(st, estimate).out) <= st.writeSize
    decreases st.writeSize - estimate
  {
    hide Select, Arm;
    var p := Select(st, st.writeSize - estimate);
    if p.Picked? {
      var estimate' := estimate + 4 + |p.st.fragments[p.index].data|;
      if estimate' <= st.writeSize { SendEstimate(Arm(p.st, p.index), estimate'); }
    }
  }

  lemma {:induction false} ControlEstimate(packets: seq<seq<byte>>, estimate: nat, writeSize: nat)
    requires estimate <= writeSize
    ensures var c := ControlLoop(packets, estimate, writeSize);
            && estimate + Lengths(c.written) <= writeSize
            && (!c.tooLong ==> c.estimate == estimate + Lengths(c.written) && c.written == packets)
    decreases |packets|
  {
    if packets != [] && estimate + |packets[0]| <= writeSize {
      ControlEstimate(packets[1..], estimate + |packets[0]|, writeSize);
    }
  }

  /** The bytes of a write. */
  ghost function Output(w: Written): seq<byte>
    requires forall i :: 0 <= i < |w.data| ==> Encodable(w.data[i])
  {
    WriteData(WriteControl([], w.control, true), w.data, true)
  }

  /**
   * The size limit is on an estimate.  The bytes written are the estimate,
   * one for every control packet, one for every continuation and three for
   * every first fragment.
   */
  lemma WriteLength(st: TxState)
    requires var out := GetWriteData(st).data; forall i :: 0 <= i < |out| ==> Encodable(out[i])
    ensures var w := GetWriteData(st);
            var estimate := Lengths(w.control) + Estimate(w.data);
            && estimate <= st.writeSize
            && |Output(w)| == estimate + |w.control| + Uncounted(w.data)
  {
    hide SendLoop, ControlLoop, WriteControl, WriteData, Encodable, Lengths;
    var w, c := GetWriteData(st), ControlLoop(st.packets, 0, st.writeSize);
    ControlEstimate(st.packets, 0, st.writeSize);
    ControlLength([], w.control);
    DataLength(WriteControl([], w.control, true), w.data);
    if !c.tooLong { SendEstimate(st.(packets := c.rest), c.estimate); }
  }

  lemma {:induction false} UncountedAtMost(fs: seq<TxFrag>)
    ensures Uncounted(fs) <= Estimate(fs)
  {
    if fs != [] { UncountedAtMost(fs[1..]); }
  }

  lemma {:induction false} CountAtMost(packets: seq<seq<byte>>)
    requires forall i :: 0 <= i < |packets| ==> packets[i] != []
    ensures |packets| <= Lengths(packets)
  {
    if packets != [] { CountAtMost(packets[1..]); }
  }

  /** So no write is longer than twice the limit, and up to a limit of 127 the length byte of write_opspec holds it. */
  lemma OutputAtMostDouble(st: TxState)
    requires forall i :: 0 <= i < |st.packets| ==> st.packets[i] != []
    requires var out := GetWriteData(st).data; forall i :: 0 <= i < |out| ==> Encodable(out[i])
    ensures |Output(GetWriteData(st))| <= 2 * st.writeSize
  {
    hide SendLoop, ControlLoop, Output, Encodable, Lengths, Estimate, Uncounted;
    var w := GetWriteData(st);
    var k := ControlPrefix(st.packets, 0, st.writeSize);
    WriteLength(st);
    UncountedAtMost(w.data);
    CountAtMost(w.control);
  }

  // ----------------------------------------------------- when the limit is kept

  lemma {:induction false} UncountedAtLeast(fs: seq<TxFrag>)
    ensures |fs| <= Uncounted(fs)
  {
    if fs != [] { UncountedAtLeast(fs[1..]); }
  }

  /** A plan whose last piece fills the space: the limit and everything not counted before that piece. */
  lemma FilledLength(st: TxState)
    requires Within(st) && st.checksum
    requires var p := PlanOf(st); p.cuts.Some? && p.cuts.value.ending.Fills?
    ensures var p := PlanOf(st);
            var c := p.cuts.value;
            Counted(st, p) + Extra(st, p) ==
            st.writeSize + p.packets + Uncounted(Due(st.fragments)[..p.due]) + c.whole + 2 * c.heads
  {
    hide Lengths, Estimate, Uncounted, Due, FittingData, Fitting, Rests, Room, Within, CutsFrom;
    var p, s := PlanOf(st), Current(st);
    CurrentWithin(st);
    assert ChecksumSize(s) == 1;
    var space := st.writeSize - Lengths(st.packets[..p.packets]) - Estimate(Due(st.fragments)[..p.due]);
    FillsExactly(Rests(s), s.msgFragmented == 0, space, Room(s));
  }

  /**
   * When the limit is kept, on the state before the call: with a last piece
   * that fills the space, if and only if that is the only record; otherwise
   * if and only if what is planned leaves room for what the estimate does not
   * count.
   */
  lemma LimitKeptIff(st: TxState)
    requires Within(st) && st.checksum
    requires var out := GetWriteData(st).data; forall i :: 0 <= i < |out| ==> Encodable(out[i])
    ensures var p := PlanOf(st);
            && GetWriteData(st).raised == p.Raised()
            && |Output(GetWriteData(st))| == Counted(st, p) + Extra(st, p)
            && (|Output(GetWriteData(st))| <= st.writeSize <==>
                  if p.cuts.Some? && p.cuts.value.ending.Fills? then
                    p.packets == 0 && p.due == 0 && p.cuts.value.whole == 0
                  else Counted(st, p) + Extra(st, p) <= st.writeSize)
  {
    hide GetWriteData, Output, Encodable, Lengths, Estimate, Uncounted, Due, PlanOf, Within, Counted, Extra;
    WriteLength(st);
    CallPlanned(st);
    var p := PlanOf(st);
    if p.cuts.Some? && p.cuts.value.ending.Fills? {
      FilledLength(st);
      NothingSent();
      UncountedAtLeast(Due(st.fragments)[..p.due]);
      HeadsAtMostWhole(st);
    }
  }

  lemma HeadsAtMostWhole(st: TxState)
    requires Within(st) && PlanOf(st).cuts.Some?
    ensures PlanOf(st).cuts.value.heads <= PlanOf(st).cuts.value.whole
  {
    hide CutsFrom, Lengths, Estimate, Due, FittingData, Fitting, Within, Rests;
    var p, s := PlanOf(st), Current(st);
    CurrentWithin(st);
    var space := st.writeSize - Lengths(st.packets[..p.packets]) - Estimate(Due(st.fragments)[..p.due]);
    HeadsWhole(Rests(s), s.msgFragmented == 0, space, Room(s), ChecksumSize(s));
  }

  lemma {:induction false} HeadsWhole(rests: seq<nat>, head: bool, space: int, room: int, checksum: nat)
    ensures CutsFrom(rests, head, space, room, checksum).heads <= CutsFrom(rests, head, space, room, checksum).whole
    decreases |rests|
  {
    if rests != [] { HeadsWhole(rests[1..], true, space - 4 - rests[0], room - rests[0], checksum); }
  }

  lemma FirstMessage(st: TxState, m: seq<byte>)
    requires st == TxSpec.Init(24, 64, true).(packets := st.packets, messages := [m]) && m != []
    ensures TxCore(st, TxGhost([m], 0, [], 0, 0)) && SettledIf(st, [m]) && AllArmed(st.fragments)
  {
  }

  /** So any ack in front of a message that space limits: at 24 bytes, 25 are written. */
  lemma AckBeforeMessage(ack: seq<byte>, m: seq<byte>)
    requires |ack| == 3 && 14 < |m| < 0x10000
    ensures var st := TxSpec.Init(24, 64, true).(packets := [ack], messages := [m]);
            var w := GetWriteData(st);
            && (forall i :: 0 <= i < |w.data| ==> Encodable(w.data[i]))
            && !w.raised && |Output(w)| == 25 > st.writeSize
  {
    hide GetWriteData, Output, Encodable;
    var st := TxSpec.Init(24, 64, true).(packets := [ack], messages := [m]);
    assert [ack][..1] == [ack] && [ack][1..] == [];
    assert Lengths([ack]) == 3 && Fitting([ack], 24) == 1;
    assert Rests(st) == [|m|] + Sizes(st.messages[1..]);
    assert CutsOf(st, 21) == Cuts(0, 0, 0, true, Fills(14));
    assert PlanOf(st) == Plan(1, 0, Some(Cuts(0, 0, 0, true, Fills(14))));
    FirstMessage(st, m);
    WrittenEncodable(st, TxGhost([m], 0, [], 0, 0));
    LimitKeptIff(st);
  }

  /** At the server's first size limit, 24 bytes: eight acks of three bytes each are written as 32. */
  lemma LimitOverrun(acks: seq<seq<byte>>)
    requires |acks| == 8 && forall i :: 0 <= i < |acks| ==> |acks[i]| == 3
    ensures var st := TxSpec.Init(24, 64, true).(packets := acks);
            var w := GetWriteData(st);
            w.data == [] && |Output(w)| == 32 > st.writeSize
  {
    hide SendLoop, ControlLoop, Output, Lengths, Estimate, Uncounted, Fitting, GetWriteData;
    var st := TxSpec.Init(24, 64, true).(packets := acks);
    EqualLengths(acks, 3);
    AllFit(acks, 24);
    AcksOnly(st);
    WriteLength(st);
    NothingSent();
  }

  lemma {:induction false} EqualLengths(packets: seq<seq<byte>>, n: nat)
    requires forall i :: 0 <= i < |packets| ==> |packets[i]| == n
    ensures Lengths(packets) == n * |packets|
  {
    if packets != [] { EqualLengths(packets[1..], n); }
  }

  lemma {:induction false} AllFit(packets: seq<seq<byte>>, room: nat)
    requires Lengths(packets) <= room
    ensures Fitting(packets, room) == |packets|
    decreases |packets|
  {
    if packets != [] { AllFit(packets[1..], room - |packets[0]|); }
  }

  lemma AcksOnly(st: TxState)
    requires st.messages == [] && st.fragments == [] && Fitting(st.packets, st.writeSize) == |st.packets|
    ensures GetWriteData(st).data == [] && GetWriteData(st).control == st.packets
  {
    hide ControlLoop, Lengths, Fitting;
    var c := ControlLoop(st.packets, 0, st.writeSize);
    ControlFitting(st.packets, 0, st.writeSize);
    ControlEstimate(st.packets, 0, st.writeSize);
    assert SendLoop(st.(packets := c.rest), c.estimate).out == [];
  }
}
