/** The server's sliding-window transmit control (server/wtp/wtp/transmission.py). */
module TxControl {
  import opened Base
  import opened Cyclic
  import opened Stream
  import opened TxSpec
  import opened TxProof
  import opened Wire

  /** An outstanding fragment; its timer holds a reference to it and sets needSend. */
  class TxFragment {
    const seqNum: int
    const msgSize: nat
    const data: seq<byte>
    var needSend: bool
    var armed: bool

    constructor (seqNum: int, msgSize: nat, data: seq<byte>)
      ensures Value() == TxFrag(seqNum, msgSize, data, false, false)
    {
      this.seqNum, this.msgSize, this.data := seqNum, msgSize, data;
      needSend, armed := false, false;
    }

    ghost function Value(): TxFrag
      reads this
    {
      TxFrag(seqNum, msgSize, data, needSend, armed)
    }
  }

  ghost function Values(fs: seq<TxFragment>): (v: seq<TxFrag>)
    reads fs
    ensures |v| == |fs| && forall i :: 0 <= i < |fs| ==> v[i] == fs[i].Value()
  {
    seq(|fs|, i requires 0 <= i < |fs| reads fs => fs[i].Value())
  }

  ghost predicate Distinct(fs: seq<TxFragment>) {
    forall i, j :: 0 <= i < j < |fs| ==> fs[i] != fs[j]
  }

  class SlidingWindowTxControl {
    var writeSize: nat
    const windowSize: nat
    const checksum: bool
    var seqNum: int
    var packets: seq<seq<byte>>
    var messages: seq<seq<byte>>
    var msgBegin: int
    var msgFragmented: nat
    var msgEnds: seq<int>
    var fragments: seq<TxFragment>
    /** The cut position is a cyclic integer. */
    var cyclicCut: bool
    /** The absolute view: every message given and every fragment ever cut. */
    ghost var view: TxGhost

    ghost function State(): TxState
      reads this, fragments
    {
      TxState(seqNum, packets, messages, msgBegin, msgFragmented, msgEnds, Values(fragments),
              writeSize, windowSize, checksum, cyclicCut)
    }

    /** The tiling, every timer set, exact completion if no message is empty, and sizes that fit their header fields. */
    ghost predicate Valid()
      reads this, fragments
    {
      && Distinct(fragments)
      && TxSound(State(), view) && AllArmed(State().fragments)
      && windowSize < 0x100
      && forall k :: 0 <= k < |view.msgs| ==> |view.msgs[k]| < 0x10000
    }

    constructor (writeSize: nat, windowSize: nat, checksum: bool)
      requires windowSize < 0x100
      ensures Valid() && State() == Init(writeSize, windowSize, checksum)
      ensures view == TxGhost([], 0, [], 0, 0)
    {
      this.writeSize, this.windowSize, this.checksum := writeSize, windowSize, checksum;
      seqNum, packets, messages, msgBegin, msgFragmented, msgEnds, fragments := 0, [], [], 0, 0, [], [];
      cyclicCut := false;
      view := TxGhost([], 0, [], 0, 0);
    }

    method MakeFragment(availSize: int) returns (fragment: TxFragment?, raised: bool)
      modifies this`messages, this`msgBegin, this`msgFragmented, this`msgEnds, this`cyclicCut
      ensures fragments == old(fragments) && view == old(view)
      ensures var made := TxSpec.MakeFragment(old(State()), availSize);
              && State() == made.st && raised == made.raised
              && (fragment == null <==> made.fragment.None?)
              && (fragment != null ==> fresh(fragment) && fragment.Value() == made.fragment.value)
    {
      if messages == [] { return null, false; }
      LoadNextMessage();
      if messages == [] { return null, false; }
      fragment, raised := CutFragment(availSize);
    }

    /** Move on from a fully cut message, recording its end. */
    method LoadNextMessage()
      requires messages != []
      modifies this`messages, this`msgBegin, this`msgFragmented, this`msgEnds, this`cyclicCut
      ensures State() == LoadNext(old(State()))
    {
      if msgFragmented >= |messages[0]| {
        msgBegin := Wrap(msgBegin + |messages[0]|);
        msgFragmented, cyclicCut := 0, false;
        msgEnds := msgEnds + [msgBegin];
        messages := messages[1..];
      }
    }

    /** Cut the largest piece that space, message and window allow; a cyclic integer has no difference to take. */
    method CutFragment(availSize: int) returns (fragment: TxFragment?, raised: bool)
      requires messages != []
      modifies this`msgFragmented, this`cyclicCut
      ensures raised == old(cyclicCut)
      ensures var st, size := old(State()), PieceSize(old(State()), availSize);
              && (fragment == null <==> raised || size <= 0)
              && (fragment == null ==> State() == st)
              && (fragment != null ==>
                    && State() == st.(msgFragmented := st.msgFragmented + size, cyclicCut := ByWindow(st, availSize))
                    && fresh(fragment) && fragment.Value() == CutPiece(st, size))
    {
      var msg, at := messages[0], msgFragmented;
      var seq_ := Wrap(msgBegin + at);
      var maxAvail := availSize - (if at == 0 then 6 else 4);
      if checksum { maxAvail := maxAvail - 1; }
      if cyclicCut { return null, true; }
      var maxMsg := |msg| - at;
      var maxWindow := Wrap(seqNum + windowSize - seq_);
      var size := Min(Min(maxAvail, maxMsg), maxWindow);
      if size <= 0 { return null, false; }
      cyclicCut := maxWindow < Min(maxAvail, maxMsg);
      msgFragmented := msgFragmented + size;
      fragment := new TxFragment(seq_, if at == 0 then |msg| else 0, msg[at..at + size]);
      raised := false;
    }

    method AddMsg(msgData: seq<byte>)
      requires Valid() && |msgData| < 0x10000
      modifies this`messages, this`view
      ensures Valid() && State() == TxSpec.AddMsg(old(State()), msgData)
      ensures view == old(view).(msgs := old(view.msgs) + [msgData])
    {
      hide TxSound;
      AddSound(State(), view, msgData);
      messages := messages + [msgData];
      view := view.(msgs := view.msgs + [msgData]);
    }

    method AddPacket(packetData: seq<byte>)
      requires Valid()
      modifies this`packets
      ensures Valid() && State() == TxSpec.AddPacket(old(State()), packetData)
    {
      packets := packets + [packetData];
    }

    lemma TimeoutKeeps(st: TxState, g: TxGhost, i: nat)
      requires TxSound(st, g) && AllArmed(st.fragments) && i < |st.fragments|
      ensures TxSound(Timeout(st, i), g) && AllArmed(Timeout(st, i).fragments)
    {
      hide TxCore;
      FlagsCore(st, g, i, st.fragments[i].(needSend := true));
    }

    /** A fragment's timer fires; the fragment may have been acknowledged meanwhile. */
    method HandlePacketTimeout(fragment: TxFragment)
      requires Valid()
      modifies fragment`needSend
      ensures Valid()
      ensures fragment !in fragments ==> State() == old(State())
      ensures forall i :: 0 <= i < |fragments| && fragments[i] == fragment ==> State() == Timeout(old(State()), i)
    {
      hide TxSound, AllArmed;
      ghost var before := State();
      fragment.needSend := true;
      if fragment in fragments {
        ghost var i :| 0 <= i < |fragments| && fragments[i] == fragment;
        TimeoutKeeps(before, view, i);
        assert Values(fragments) == before.fragments[i := before.fragments[i].(needSend := true)];
      } else {
        assert Values(fragments) == before.fragments;
      }
    }

    /** Index of the first fragment waiting for retransmission, or the length. */
    method FindWaiting() returns (i: nat)
      ensures i <= |fragments| && i == FirstNeedSend(State().fragments, 0)
    {
      i := 0;
      while i < |fragments| && !fragments[i].needSend
        invariant i <= |fragments|
        invariant FirstNeedSend(State().fragments, 0) == FirstNeedSend(State().fragments, i)
      {
        i := i + 1;
      }
    }

    /** Choose what to write next: a fragment waiting for retransmission, else a new one. */
    method SelectFragment(availSize: int) returns (fragment: TxFragment?, raised: bool, ghost k: nat)
      requires Distinct(fragments)
      modifies this`messages, this`msgBegin, this`msgFragmented, this`msgEnds, this`cyclicCut
      modifies this`fragments, fragments
      ensures Distinct(fragments)
      ensures |old(fragments)| <= |fragments| && fragments[..|old(fragments)|] == old(fragments)
      ensures forall i :: |old(fragments)| <= i < |fragments| ==> fresh(fragments[i])
      ensures var p := Select(old(State()), availSize);
              && State() == p.st
              && (fragment == null <==> p.Nothing?) && raised == (p.Nothing? && p.raised)
              && (fragment != null ==> k == p.index && k < |fragments| && fragments[k] == fragment)
    {
      hide TxSpec.MakeFragment, FirstNeedSend;
      ghost var before := State();
      var i := FindWaiting();
      k := i;
      if i < |fragments| {
        fragment, raised := fragments[i], false;
        ClearWaiting(i);
      } else {
        fragment, raised := MakeFragment(availSize);
        if fragment != null { Append(fragment); }
      }
    }

    method ClearWaiting(i: nat)
      requires Distinct(fragments) && i < |fragments|
      modifies fragments
      ensures var fs := old(State()).fragments;
              State() == old(State()).(fragments := fs[i := fs[i].(needSend := false)])
    {
      ghost var fs := Values(fragments);
      fragments[i].needSend := false;
      assert Values(fragments) == fs[i := fs[i].(needSend := false)];
    }

    method Append(fragment: TxFragment)
      modifies this`fragments
      ensures fragments == old(fragments) + [fragment]
      ensures State() == old(State()).(fragments := old(State()).fragments + [fragment.Value()])
    {
      ghost var fs := Values(fragments);
      fragments := fragments + [fragment];
      assert Values(fragments) == fs + [fragment.Value()];
    }

    /** One turn of the loop over control packets. */
    lemma ControlTurn(ps: seq<seq<byte>>, estimate: nat, limit: nat, begun: seq<byte>, sealed: bool)
      requires ps != [] && estimate <= limit
      ensures var c, estimate' := ControlLoop(ps, estimate, limit), estimate + |ps[0]|;
              if estimate' > limit then c == Control(ps[1..], [], estimate', true)
              else
                var rest := ControlLoop(ps[1..], estimate', limit);
                && c == rest.(written := c.written)
                && WriteControl(begun, c.written, sealed) ==
                   WriteControl(begun + Seal(begun, ps[0], sealed), rest.written, sealed)
    {
      hide Seal;
      if estimate + |ps[0]| <= limit {
        var rest := ControlLoop(ps[1..], estimate + |ps[0]|, limit);
        assert ([ps[0]] + rest.written)[1..] == rest.written;
      }
    }

    lemma NoControl(estimate: nat, limit: nat, begun: seq<byte>, sealed: bool)
      requires estimate <= limit
      ensures ControlLoop([], estimate, limit) == Control([], [], estimate, false)
      ensures WriteControl(begun, [], sealed) == begun
    {
    }

    /** The control part of get_write_data. */
    method WriteControlPackets(stream: ChecksumStream) returns (estimateSize: nat, tooLong: bool)
      requires stream.checksum == checksum && stream.buffer == [] && stream.beginPos == 0
      modifies this`packets, stream`buffer
      ensures var c := ControlLoop(old(packets), 0, writeSize);
              && packets == c.rest && tooLong == c.tooLong && estimateSize == c.estimate
              && stream.buffer == WriteControl([], c.written, checksum)
    {
      hide ControlLoop, WriteControl;
      estimateSize := 0;
      ghost var all := ControlLoop(packets, 0, writeSize);
      while packets != []
        invariant estimateSize <= writeSize
        invariant stream.beginPos == 0
        invariant var c := ControlLoop(packets, estimateSize, writeSize);
                  && c == all.(written := c.written)
                  && WriteControl(stream.buffer, c.written, checksum) == WriteControl([], all.written, checksum)
        decreases |packets|
      {
        ControlTurn(packets, estimateSize, writeSize, stream.buffer, checksum);
        NoControl(0, writeSize, stream.buffer, checksum);
        var packet := packets[0];
        packets := packets[1..];
        estimateSize := estimateSize + |packet|;
        if estimateSize > writeSize { return estimateSize, true; }
        ghost var before := stream.buffer;
        stream.Write(packet);
        stream.WriteChecksum();
        assert stream.buffer == before + Seal(before, packet, checksum);
      }
      NoControl(estimateSize, writeSize, stream.buffer, checksum);
      tooLong := false;
    }

    /** Put one data packet on the stream. */
    method WriteDataPacket(stream: ChecksumStream, fragment: TxFragment)
      requires stream.checksum == checksum && Encodable(fragment.Value())
      modifies stream
      ensures stream.buffer == old(stream.buffer) + Seal([], DataRecord(fragment.Value()), checksum)
    {
      ghost var begin, value := stream.buffer, fragment.Value();
      stream.BeginChecksum();
      WriteHeader(stream, fragment);
      stream.Write(fragment.data);
      SealedAlone(begin, DataHeader(value), fragment.data, checksum);
      stream.WriteChecksum();
    }

    method WriteHeader(stream: ChecksumStream, fragment: TxFragment)
      requires Encodable(fragment.Value())
      modifies stream`buffer
      ensures stream.buffer == old(stream.buffer) + DataHeader(fragment.Value())
    {
      if fragment.msgSize != 0 {
        stream.Write([PKT_BEGIN_MSG] + Le16(fragment.msgSize));
      } else {
        stream.Write([PKT_CONT_MSG]);
      }
      stream.Write(Le16(fragment.seqNum) + [ByteOf(|fragment.data|)]);
    }

    /** What get_write_data writes can all be encoded. */
    lemma SentEncodable(r: Sent, g: TxGhost, g': TxGhost)
      requires SendCore(r, g, g') && r.st.windowSize < 0x100
      requires forall k :: 0 <= k < |g.msgs| ==> |g.msgs[k]| < 0x10000
      ensures forall i :: 0 <= i < |r.out| ==> Encodable(r.out[i])
    {
      forall i | 0 <= i < |r.out| ensures Encodable(r.out[i]) {
        assert r.out[i] in r.out;
        var k :| g'.base <= k < |g'.hist| && Image(g'.msgs, g'.hist[k], r.out[i]);
        OutstandingEncodable(r.st, g', k, r.out[i]);
      }
    }

    lemma LoopTurn(st: TxState, estimate: nat)
      requires estimate <= st.writeSize
      ensures var p, all := Select(st, st.writeSize - estimate), SendLoop(st, estimate);
              && (p.Nothing? ==> all == Sent(p.st, [], p.raised))
              && (p.Picked? ==>
                    var f := p.st.fragments[p.index];
                    var estimate' := estimate + 4 + |f.data|;
                    && (estimate' > st.writeSize ==> all == Sent(p.st, [], false))
                    && (estimate' <= st.writeSize ==> all == Push(f, SendLoop(Arm(p.st, p.index), estimate'))))
    {
      hide Select, Arm;
    }

    /** One turn of the loop of get_write_data over data fragments. */
    method WriteNext(stream: ChecksumStream, estimate: nat)
      returns (more: bool, raised: bool, estimate': nat, ghost f: TxFrag)
      requires estimate <= writeSize && Distinct(fragments)
      requires stream.checksum == checksum
      requires forall i :: 0 <= i < |SendLoop(State(), estimate).out| ==> Encodable(SendLoop(State(), estimate).out[i])
      modifies this`messages, this`msgBegin, this`msgFragmented, this`msgEnds, this`cyclicCut
      modifies this`fragments, fragments, stream
      ensures Distinct(fragments) && writeSize == old(writeSize)
      ensures |old(fragments)| <= |fragments| && fragments[..|old(fragments)|] == old(fragments)
      ensures forall i :: |old(fragments)| <= i < |fragments| ==> fresh(fragments[i])
      ensures var all := SendLoop(old(State()), estimate);
              if more then
                && estimate < estimate' <= writeSize && Encodable(f)
                && all == Push(f, SendLoop(State(), estimate'))
                && stream.buffer == old(stream.buffer) + Seal([], DataRecord(f), checksum)
              else
                all == Sent(State(), [], raised) && stream.buffer == old(stream.buffer)
    {
      hide Select, DataRecord, SendLoop, WritePicked, Arm;
      ghost var before := State();
      LoopTurn(before, estimate);
      var fragment, failed, k := SelectFragment(writeSize - estimate);
      ghost var p := Select(before, writeSize - estimate);
      ghost var all := SendLoop(before, estimate);
      more, raised, estimate' := false, failed, estimate;
      f := TxFrag(0, 0, [], false, false);
      if fragment == null { return; }
      f := fragment.Value();
      if estimate + 4 + |fragment.data| > writeSize { return; }
      estimate' := estimate + 4 + |fragment.data|;
      assert all == Push(f, SendLoop(Arm(p.st, k), estimate'));
      assert all.out[0] == f;
      WriteDataPacket(stream, fragment);
      SetTimeout(fragment, k);
      more := true;
    }

    /** The data part of get_write_data. */
    method WriteFragments(stream: ChecksumStream, estimate: nat) returns (raised: bool)
      requires estimate <= writeSize && Distinct(fragments)
      requires stream.checksum == checksum
      requires forall i :: 0 <= i < |SendLoop(State(), estimate).out| ==> Encodable(SendLoop(State(), estimate).out[i])
      modifies this`messages, this`msgBegin, this`msgFragmented, this`msgEnds, this`cyclicCut
      modifies this`fragments, fragments, stream
      ensures Distinct(fragments)
      ensures |old(fragments)| <= |fragments| && fragments[..|old(fragments)|] == old(fragments)
      ensures forall i :: |old(fragments)| <= i < |fragments| ==> fresh(fragments[i])
      ensures State() == SendLoop(old(State()), estimate).st && raised == SendLoop(old(State()), estimate).raised
      ensures stream.buffer == WriteData(old(stream.buffer), SendLoop(old(State()), estimate).out, checksum)
    {
      hide WritePicked, Select, DataRecord, Seal;
      var estimateSize, more := estimate, true;
      raised := false;
      ghost var all := SendLoop(State(), estimate);
      ghost var final := WriteData(stream.buffer, all.out, checksum);
      ghost var rest := all;
      while more
        invariant Distinct(fragments) && (more ==> estimateSize <= writeSize)
        invariant |old(fragments)| <= |fragments| && fragments[..|old(fragments)|] == old(fragments)
        invariant forall i :: |old(fragments)| <= i < |fragments| ==> fresh(fragments[i])
        invariant rest == if more then SendLoop(State(), estimateSize) else Sent(State(), [], raised)
        invariant rest.st == all.st && rest.raised == all.raised
        invariant forall i :: 0 <= i < |rest.out| ==> Encodable(rest.out[i])
        invariant WriteData(stream.buffer, rest.out, checksum) == final
        decreases more, writeSize - estimateSize
      {
        ghost var f;
        more, raised, estimateSize, f := WriteNext(stream, estimateSize);
        if more {
          assert rest.out[0] == f && rest.out[1..] == SendLoop(State(), estimateSize).out;
          rest := SendLoop(State(), estimateSize);
        }
      }
    }

    /** The Deferred created for a written fragment. */
    method SetTimeout(fragment: TxFragment, ghost k: nat)
      requires Distinct(fragments) && k < |fragments| && fragments[k] == fragment
      modifies fragment`armed
      ensures State() == Arm(old(State()), k)
    {
      ghost var fs := Values(fragments);
      fragment.armed := true;
      assert Values(fragments) == fs[k := fs[k].(armed := true)];
    }

    /** Build the data of the next Write or BlockWrite; when it raises there is none. */
    method GetWriteData() returns (data: seq<byte>, raised: bool, ghost written: Written)
      requires Valid()
      modifies this, fragments
      ensures Valid() && Grows(old(view), view)
      ensures |old(fragments)| <= |fragments| && fragments[..|old(fragments)|] == old(fragments)
      ensures forall i :: |old(fragments)| <= i < |fragments| ==> fresh(fragments[i])
      ensures written == TxSpec.GetWriteData(old(State())) && State() == written.st
      ensures forall i :: 0 <= i < |written.data| ==> Encodable(written.data[i])
      ensures raised == written.raised
      ensures data == if raised then []
                      else WriteData(WriteControl([], written.control, checksum), written.data, checksum)
    {
      hide TxSound, TxSpec.GetWriteData, Encodable, AllArmed, FromTiling;
      written := TxSpec.GetWriteData(State());
      ghost var g := GetWriteDataSound(State(), view);
      SentEncodable(Sent(written.st, written.data, written.raised), view, g);
      data, raised := BuildWriteData();
      view := g;
    }

    method BuildWriteData() returns (data: seq<byte>, raised: bool)
      requires Distinct(fragments)
      requires var out := TxSpec.GetWriteData(State()).data; forall i :: 0 <= i < |out| ==> Encodable(out[i])
      modifies this`packets, this`messages, this`msgBegin, this`msgFragmented, this`msgEnds, this`cyclicCut
      modifies this`fragments, fragments
      ensures Distinct(fragments)
      ensures |old(fragments)| <= |fragments| && fragments[..|old(fragments)|] == old(fragments)
      ensures forall i :: |old(fragments)| <= i < |fragments| ==> fresh(fragments[i])
      ensures var written := TxSpec.GetWriteData(old(State()));
              && State() == written.st && raised == written.raised
              && data == if raised then []
                         else WriteData(WriteControl([], written.control, checksum), written.data, checksum)
    {
      hide SendLoop, ControlLoop, Encodable, WriteControl, WriteData;
      var stream := new ChecksumStream(checksum);
      var estimateSize, tooLong := WriteControlPackets(stream);
      raised := false;
      if tooLong {
        assert WriteData(stream.buffer, [], checksum) == stream.buffer by { NothingWritten(stream.buffer, checksum); }
      } else {
        raised := WriteFragments(stream, estimateSize);
      }
      data := if raised then [] else stream.buffer;
    }

    lemma NothingWritten(s: seq<byte>, checksum: bool)
      ensures WriteData(s, [], checksum) == s
    {
    }

    /** How many outstanding fragments an ack covers, if it is not to be dropped. */
    method CountAcked(ack: int) returns (count: Option<nat>)
      ensures count == AckCount(State(), ack)
    {
      ghost var fs := Values(fragments);
      if Rel(seqNum, ack) > Rel(seqNum, Wrap(msgBegin + msgFragmented)) { return None; }
      var i := 0;
      while i < |fragments|
        invariant i <= |fragments|
        invariant AckScan(fs, seqNum, ack, 0) == AckScan(fs, seqNum, ack, i)
      {
        var end := Wrap(fragments[i].seqNum + |fragments[i].data|);
        assert end == fs[i].End();
        if end == ack { return Some(i + 1); }
        if Rel(seqNum, end) > Rel(seqNum, ack) { return None; }
        i := i + 1;
      }
      return Some(i);
    }

    /** Remove the first n fragments; each Deferred must have been set to be fired. */
    method RemoveAckedFragments(n: nat) returns (nSentMsgs: nat)
      requires n <= |fragments| && forall i :: 0 <= i < n ==> fragments[i].armed
      modifies this`fragments, this`msgEnds
      ensures fragments == old(fragments)[n..]
      ensures var p := PopEnds(old(msgEnds), Values(old(fragments))[..n], seqNum);
              msgEnds == p.ends && nSentMsgs == p.count
    {
      ghost var all := Values(fragments);
      nSentMsgs := 0;
      for i := 0 to n
        invariant fragments == old(fragments)[i..]
        invariant var p := PopEnds(msgEnds, all[i..n], seqNum);
                  var p0 := PopEnds(old(msgEnds), all[..n], seqNum);
                  p.ends == p0.ends && nSentMsgs + p.count == p0.count
      {
        var fragment := fragments[0];
        fragments := fragments[1..];
        assert all[i..n][0] == fragment.Value() && all[i..n][1..] == all[i + 1..n];
        if msgEnds != [] && Rel(seqNum, msgEnds[0]) <= Rel(seqNum, Wrap(fragment.seqNum + |fragment.data|)) {
          nSentMsgs := nSentMsgs + 1;
          msgEnds := msgEnds[1..];
        }
        assert fragment.armed;
      }
      assert all[..n] == all[0..n];
    }

    /** An acknowledgement arrives; the Deferreds of the acknowledged fragments fire. */
    method HandleAck(seqNum: int) returns (nSentMsgs: nat)
      requires Valid()
      modifies this`seqNum, this`fragments, this`msgEnds, this`view
      ensures Valid()
      ensures var r := TxSpec.HandleAck(old(State()), seqNum);
              State() == r.st && nSentMsgs == r.sent
      ensures |fragments| <= |old(fragments)|
      ensures fragments == old(fragments)[|old(fragments)| - |fragments|..]
      ensures view == old(view).(base := old(view.base) + |old(fragments)| - |fragments|,
                                 done := old(view.done) + nSentMsgs)
    {
      hide TxSound, TxSpec.HandleAck, AllArmed, Distinct;
      ghost var g := HandleAckSound(State(), view, seqNum);
      ghost var before := fragments;
      nSentMsgs := ApplyAck(seqNum);
      TailKeeps(before, |before| - |fragments|);
      view := g;
    }

    lemma TailKeeps(fs: seq<TxFragment>, k: nat)
      requires Distinct(fs) && AllArmed(Values(fs)) && k <= |fs|
      ensures Distinct(fs[k..]) && AllArmed(Values(fs[k..]))
    {
    }

    lemma ArmedOnes(fs: seq<TxFragment>)
      requires AllArmed(Values(fs))
      ensures forall i :: 0 <= i < |fs| ==> fs[i].armed
    {
      forall i | 0 <= i < |fs| ensures fs[i].armed { assert Values(fs)[i].armed; }
    }

    lemma ValuesTail(fs: seq<TxFragment>, n: nat)
      requires n <= |fs|
      ensures Values(fs[n..]) == Values(fs)[n..] && Values(fs)[..n] == Values(fs[..n])
    {
    }

    /** The state and count once n fragments are known to be acknowledged. */
    lemma AckApplied(st: TxState, ackNum: int)
      ensures var r, n := TxSpec.HandleAck(st, ackNum), AckCount(st, Wrap(ackNum));
              && (n.None? ==> r == AckResult(st, 0))
              && (n.Some? ==>
                    var p := PopEnds(st.msgEnds, st.fragments[..n.value], st.seqNum);
                    r == AckResult(st.(seqNum := Wrap(ackNum), fragments := st.fragments[n.value..], msgEnds := p.ends),
                                   p.count))
    {
      hide AckCount, PopEnds;
    }

    /** Remove the first n fragments and move on to the number acknowledged. */
    method MoveTo(n: nat, ack: int) returns (nSentMsgs: nat)
      requires n <= |fragments| && AllArmed(Values(fragments))
      modifies this`seqNum, this`fragments, this`msgEnds
      ensures fragments == old(fragments)[n..]
      ensures var st := old(State());
              var p := PopEnds(st.msgEnds, st.fragments[..n], st.seqNum);
              State() == st.(seqNum := ack, fragments := st.fragments[n..], msgEnds := p.ends) && nSentMsgs == p.count
    {
      hide PopEnds, AllArmed, Values;
      ArmedOnes(fragments);
      ValuesTail(fragments, n);
      nSentMsgs := RemoveAckedFragments(n);
      seqNum := ack;
    }

    method ApplyAck(ackNum: int) returns (nSentMsgs: nat)
      requires AllArmed(Values(fragments))
      modifies this`seqNum, this`fragments, this`msgEnds
      ensures var r := TxSpec.HandleAck(old(State()), ackNum);
              State() == r.st && nSentMsgs == r.sent
      ensures |fragments| <= |old(fragments)|
      ensures fragments == old(fragments)[|old(fragments)| - |fragments|..]
    {
      hide AckCount, PopEnds, AllArmed, TxSpec.HandleAck, Values, Wrap;
      AckApplied(State(), ackNum);
      var ack := Wrap(ackNum);
      var count := CountAcked(ack);
      nSentMsgs := 0;
      if count.Some? { nSentMsgs := MoveTo(count.value, ack); }
    }
  }
}
