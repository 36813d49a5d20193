/**
 * What the tag makes of a BlockWrite (client/wtp/wtp/endpoint.c): packets are
 * parsed one after the other, each with its own XOR checksum.
 */
module Framing {
  import opened Base
  import opened TxSpec
  import opened Wire
  import BlockWrite

  const PARAM_READ_SIZE: byte := 1

  /** A packet as its handler understands it. */
  datatype Packet =
    | Open
    | Ack(seqNum: U16)
    | ReadSize(size: byte)
    | BeginMsg(msgSize: U16, seqNum: U16, data: seq<byte>)
    | ContMsg(seqNum: U16, data: seq<byte>)

  datatype Status = Ok | OutOfRange | BadChecksum | Unsupported

  /** What one turn of the parsing loop finds at the front of the remaining bytes. */
  datatype Front =
    | End
    | Got(packet: Packet, size: nat)
    | Ignored(size: nat)
    | Failed(status: Status)

  /** The checksum covers the first n bytes and is the byte after them. */
  function Verify(s: seq<byte>, n: nat): (r: Status)
    ensures r == Ok ==> n < |s|
  {
    if n >= |s| then OutOfRange
    else if Xor(s[..n]) == s[n] then Ok else BadChecksum
  }

  /** A data packet whose sequence number begins at i. */
  function DataFront(s: seq<byte>, i: nat, msgSize: Option<U16>): Front {
    if |s| < i + 3 then Failed(OutOfRange) else
    var end := i + 3 + s[i + 2] as int;
    var status := Verify(s, end);
    if status != Ok then Failed(status) else
    var seqNum, data := Word(s[i], s[i + 1]), s[i + 3..end];
    Got(DataOf(msgSize, seqNum, data), end + 1)
  }

  function DataOf(msgSize: Option<U16>, seqNum: U16, data: seq<byte>): Packet {
    match msgSize
    case None => ContMsg(seqNum, data)
    case Some(n) => BeginMsg(n, seqNum, data)
  }

  function ParseFront(s: seq<byte>): (f: Front)
    ensures f.Got? || f.Ignored? ==> 0 < f.size <= |s|
  {
    if s == [] || s[0] == PKT_END then End
    else if s[0] == PKT_OPEN then
      if Verify(s, 1) == Ok then Got(Open, 2) else Failed(Verify(s, 1))
    else if s[0] == PKT_ACK then
      if |s| < 3 then Failed(OutOfRange)
      else if Verify(s, 3) == Ok then Got(Ack(Word(s[1], s[2])), 4) else Failed(Verify(s, 3))
    else if s[0] == PKT_BEGIN_MSG then
      if |s| < 3 then Failed(OutOfRange) else DataFront(s, 3, Some(Word(s[1], s[2])))
    else if s[0] == PKT_CONT_MSG then DataFront(s, 1, None)
    else if s[0] == PKT_SET_PARAM then
      if |s| < 2 then Failed(OutOfRange)
      else if s[1] != PARAM_READ_SIZE then Ignored(2)
      else if |s| < 3 then Failed(OutOfRange)
      else if Verify(s, 3) == Ok then Got(ReadSize(s[2]), 4) else Failed(Verify(s, 3))
    else Failed(Unsupported)
  }

  datatype Parsed = Parsed(packets: seq<Packet>, status: Status)

  /** The whole loop: it stops at the first packet its handler refuses. */
  function Parse(s: seq<byte>): Parsed
    decreases |s|
  {
    match ParseFront(s)
    case End => Parsed([], Ok)
    case Failed(status) => Parsed([], status)
    case Ignored(n) => Parse(s[n..])
    case Got(p, n) => var rest := Parse(s[n..]); rest.(packets := [p] + rest.packets)
  }

  // ------------------------------------------------------- what is sent

  /** A packet that its header fields can hold. */
  predicate Sendable(p: Packet) {
    match p
    case BeginMsg(_, _, data) => |data| < 256
    case ContMsg(_, data) => |data| < 256
    case _ => true
  }

  /** The bytes of a packet before its checksum. */
  function Record(p: Packet): (r: seq<byte>)
    requires Sendable(p)
  {
    match p
    case Open => [PKT_OPEN]
    case Ack(n) => [PKT_ACK] + Le16(n)
    case ReadSize(n) => [PKT_SET_PARAM, PARAM_READ_SIZE, n]
    case BeginMsg(m, n, data) => [PKT_BEGIN_MSG] + Le16(m) + (Le16(n) + [ByteOf(|data|)]) + data
    case ContMsg(n, data) => [PKT_CONT_MSG] + (Le16(n) + [ByteOf(|data|)]) + data
  }

  ghost function Sealed(p: Packet): seq<byte>
    requires Sendable(p)
  {
    Record(p) + [Xor(Record(p))]
  }

  /** Packets one after the other, each with the checksum of its own bytes. */
  ghost function Bytes(ps: seq<Packet>): seq<byte>
    requires forall i :: 0 <= i < |ps| ==> Sendable(ps[i])
    decreases |ps|
  {
    if ps == [] then [] else Sealed(ps[0]) + Bytes(ps[1..])
  }

  // ------------------------------------------------- one packet comes back

  lemma VerifySealed(record: seq<byte>, rest: seq<byte>)
    ensures Verify(record + [Xor(record)] + rest, |record|) == Ok
  {
    hide Xor;
    var s := record + [Xor(record)] + rest;
    assert s[..|record|] == record;
    assert s[|record|] == Xor(record);
  }

  lemma FrontOfShort(p: Packet, rest: seq<byte>)
    requires p.Open? || p.Ack? || p.ReadSize?
    ensures ParseFront(Sealed(p) + rest) == Got(p, |Sealed(p)|)
  {
    hide Le16, Word;
    VerifySealed(Record(p), rest);
    if p.Ack? { WordOfLe16(p.seqNum); }
  }

  /** The fields of a data packet are where the parser looks for them. */
  lemma FieldsAt(head: seq<byte>, mid: seq<byte>, data: seq<byte>, rest: seq<byte>)
    requires |mid| == 3
    ensures var s, i := head + mid + data + rest, |head|;
            && |s| >= i + 3 + |data|
            && s[i] == mid[0] && s[i + 1] == mid[1] && s[i + 2] == mid[2]
            && s[i + 3..i + 3 + |data|] == data
  {
  }

  lemma FrontOfFields(head: seq<byte>, seqNum: U16, data: seq<byte>, rest: seq<byte>, msgSize: Option<U16>)
    requires |data| < 256
    ensures var record := head + (Le16(seqNum) + [ByteOf(|data|)]) + data;
            DataFront(record + [Xor(record)] + rest, |head|, msgSize) ==
            Got(DataOf(msgSize, seqNum, data), |record| + 1)
  {
    hide Le16, Word, ByteOf, Verify, Xor;
    var mid := Le16(seqNum) + [ByteOf(|data|)];
    var record := head + mid + data;
    var s := record + [Xor(record)] + rest;
    FieldsAt(head, mid, data, [Xor(record)] + rest);
    assert s == record + ([Xor(record)] + rest);
    VerifySealed(record, rest);
    WordOfLe16(seqNum);
    IntOfByteOf(|data|);
  }

  lemma FrontOfBegin(msgSize: U16, seqNum: U16, data: seq<byte>, rest: seq<byte>)
    requires |data| < 256
    ensures var p := BeginMsg(msgSize, seqNum, data);
            ParseFront(Sealed(p) + rest) == Got(p, |Sealed(p)|)
  {
    hide Le16, Word, ByteOf, Verify, Xor, DataFront;
    var head := [PKT_BEGIN_MSG] + Le16(msgSize);
    FrontOfFields(head, seqNum, data, rest, Some(msgSize));
    WordOfLe16(msgSize);
    var tail := (Le16(seqNum) + [ByteOf(|data|)]) + data;
    assert Record(BeginMsg(msgSize, seqNum, data)) == head + tail;
  }

  lemma FrontOfCont(seqNum: U16, data: seq<byte>, rest: seq<byte>)
    requires |data| < 256
    ensures var p := ContMsg(seqNum, data);
            ParseFront(Sealed(p) + rest) == Got(p, |Sealed(p)|)
  {
    hide Le16, Word, ByteOf, Verify, Xor, DataFront;
    FrontOfFields([PKT_CONT_MSG], seqNum, data, rest, None);
    var tail := (Le16(seqNum) + [ByteOf(|data|)]) + data;
    assert Record(ContMsg(seqNum, data)) == [PKT_CONT_MSG] + tail;
  }

  lemma FrontOfSealed(p: Packet, rest: seq<byte>)
    requires Sendable(p)
    ensures ParseFront(Sealed(p) + rest) == Got(p, |Sealed(p)|)
  {
    match p
    case BeginMsg(m, n, data) => FrontOfBegin(m, n, data, rest);
    case ContMsg(n, data) => FrontOfCont(n, data, rest);
    case _ => FrontOfShort(p, rest);
  }

  /** The list comes back, every checksum accepted. */
  lemma {:induction false} ParseBytes(ps: seq<Packet>)
    requires forall i :: 0 <= i < |ps| ==> Sendable(ps[i])
    ensures Parse(Bytes(ps)) == Parsed(ps, Ok)
    decreases |ps|
  {
    hide ParseFront, Sealed;
    if ps == [] {
      NothingLeft();
    } else {
      var rest := Bytes(ps[1..]);
      FrontOfSealed(ps[0], rest);
      assert (Sealed(ps[0]) + rest)[|Sealed(ps[0])|..] == rest;
      ParseBytes(ps[1..]);
    }
  }

  lemma NothingLeft()
    ensures ParseFront([]) == End
  {
  }

  // ------------------------------------------------ the server's bytes

  predicate IsControl(p: Packet) { p.Open? || p.Ack? || p.ReadSize? }

  function Records(ps: seq<Packet>): (r: seq<seq<byte>>)
    requires forall i :: 0 <= i < |ps| ==> Sendable(ps[i])
    ensures |r| == |ps|
  {
    seq(|ps|, i requires 0 <= i < |ps| => Record(ps[i]))
  }

  /** The data packet that carries a fragment. */
  function DataPacket(f: TxFrag): (p: Packet)
    requires Encodable(f)
    ensures Sendable(p)
  {
    if f.msgSize != 0 then BeginMsg(f.msgSize, f.seqNum, f.data) else ContMsg(f.seqNum, f.data)
  }

  function DataPackets(fs: seq<TxFrag>): (ps: seq<Packet>)
    requires forall i :: 0 <= i < |fs| ==> Encodable(fs[i])
    ensures |ps| == |fs| && forall i :: 0 <= i < |ps| ==> Sendable(ps[i])
  {
    seq(|fs|, i requires 0 <= i < |fs| => DataPacket(fs[i]))
  }

  /** A prefix whose XOR is zero does not show in a checksum taken from the start of the stream. */
  lemma SealedFromStart(prefix: seq<byte>, p: Packet)
    requires Sendable(p) && Xor(prefix) == 0
    ensures Seal(prefix, Record(p), true) == Sealed(p)
    ensures Xor(prefix + Sealed(p)) == 0
  {
    XorAppend(prefix, Record(p));
    XorAppend(prefix, Sealed(p));
    XorCancels(Record(p));
  }

  /** Control packets are sealed from offset 0, yet each checksum is that of its own record. */
  lemma {:induction false} ControlBytes(stream: seq<byte>, ps: seq<Packet>)
    requires Xor(stream) == 0 && forall i :: 0 <= i < |ps| ==> Sendable(ps[i])
    ensures WriteControl(stream, Records(ps), true) == stream + Bytes(ps)
    decreases |ps|
  {
    hide Record, Sealed, Seal;
    if ps == [] {
      assert stream + [] == stream;
    } else {
      SealedFromStart(stream, ps[0]);
      var next := stream + Sealed(ps[0]);
      assert Records(ps)[1..] == Records(ps[1..]);
      ControlBytes(next, ps[1..]);
      assert next + Bytes(ps[1..]) == stream + (Sealed(ps[0]) + Bytes(ps[1..]));
    }
  }

  lemma RecordOfFragment(f: TxFrag)
    requires Encodable(f)
    ensures Seal([], DataRecord(f), true) == Sealed(DataPacket(f))
  {
    assert [] + DataRecord(f) == DataRecord(f);
  }

  lemma {:induction false} DataBytes(stream: seq<byte>, fs: seq<TxFrag>)
    requires forall i :: 0 <= i < |fs| ==> Encodable(fs[i])
    ensures WriteData(stream, fs, true) == stream + Bytes(DataPackets(fs))
    decreases |fs|
  {
    hide Record, Sealed, Seal, DataRecord, DataPacket;
    if fs == [] {
      assert stream + [] == stream;
    } else {
      var ps := DataPackets(fs);
      assert ps[1..] == DataPackets(fs[1..]);
      RecordOfFragment(fs[0]);
      var next := stream + Sealed(ps[0]);
      DataBytes(next, fs[1..]);
      assert next + Bytes(ps[1..]) == stream + (Sealed(ps[0]) + Bytes(ps[1..]));
    }
  }

  lemma {:induction false} BytesAppend(ps: seq<Packet>, qs: seq<Packet>)
    requires forall i :: 0 <= i < |ps| ==> Sendable(ps[i])
    requires forall i :: 0 <= i < |qs| ==> Sendable(qs[i])
    ensures Bytes(ps + qs) == Bytes(ps) + Bytes(qs)
    decreases |ps|
  {
    hide Sealed;
    if ps == [] {
      assert ps + qs == qs;
    } else {
      assert (ps + qs)[1..] == ps[1..] + qs;
      BytesAppend(ps[1..], qs);
    }
  }

  /** What wtp_handle_blockwrite finds in the BlockWrite memory: a length byte, then packets. */
  function ParseMemory(mem: seq<byte>): Parsed
    requires |mem| > 0 && 1 + mem[0] as int <= |mem|
  {
    Parse(mem[1..1 + mem[0] as int])
  }

  /** The server's bytes for these packets: what get_write_data returns when it writes them all. */
  function WriteBytes(cs: seq<Packet>, fs: seq<TxFrag>): seq<byte>
    requires forall i :: 0 <= i < |cs| ==> Sendable(cs[i])
    requires forall i :: 0 <= i < |fs| ==> Encodable(fs[i])
  {
    WriteData(WriteControl([], Records(cs), true), fs, true)
  }

  lemma WriteBytesIs(cs: seq<Packet>, fs: seq<TxFrag>)
    requires forall i :: 0 <= i < |cs| ==> Sendable(cs[i])
    requires forall i :: 0 <= i < |fs| ==> Encodable(fs[i])
    ensures WriteBytes(cs, fs) == Bytes(cs + DataPackets(fs))
  {
    ControlBytes([], cs);
    DataBytes([] + Bytes(cs), fs);
    BytesAppend(cs, DataPackets(fs));
    assert [] + Bytes(cs) == Bytes(cs);
  }

  /**
   * The framing round trip: control packets and data fragments, written by
   * get_write_data, wrapped and word-swapped by write_opspec, sent word by
   * word in any order and with any repeats, and stored on the tag, are parsed
   * into exactly the same list, every checksum accepted.
   */
  lemma FramingRoundTrip(cs: seq<Packet>, fs: seq<TxFrag>, mem: seq<byte>, order: seq<nat>)
    requires forall i :: 0 <= i < |cs| ==> IsControl(cs[i]) && Sendable(cs[i])
    requires forall i :: 0 <= i < |fs| ==> Encodable(fs[i])
    requires |WriteBytes(cs, fs)| < 256
    requires |BlockWrite.Padded(WriteBytes(cs, fs))| <= |mem|
    requires forall j :: 0 <= j < |order| ==> order[j] < |BlockWrite.Padded(WriteBytes(cs, fs))| / 2
    requires forall p :: 0 <= p < |BlockWrite.Padded(WriteBytes(cs, fs))| / 2 ==> p in order
    ensures var after := BlockWrite.Stored(mem, BlockWrite.Swapped(BlockWrite.Padded(WriteBytes(cs, fs))), order);
            && |after| > 0 && 1 + after[0] as int <= |after|
            && ParseMemory(after) == Parsed(cs + DataPackets(fs), Ok)
  {
    hide BlockWrite.Padded, BlockWrite.Swapped, BlockWrite.Stored, WriteBytes, ByteOf;
    var data := WriteBytes(cs, fs);
    BlockWrite.DataArrives(data, mem, order);
    IntOfByteOf(|data|);
    WriteBytesIs(cs, fs);
    ParseBytes(cs + DataPackets(fs));
  }

  // ---------------------------------------------------------- the tag's code

  /** wtp_xor_checksum */
  method XorRange(mem: array<byte>, begin: nat, end: nat) returns (checksum: byte)
    requires begin <= end <= mem.Length
    ensures checksum == Xor(mem[begin..end])
  {
    checksum := 0;
    for i := begin to end
      invariant checksum == Xor(mem[begin..i])
    {
      assert mem[begin..i + 1][..i - begin] == mem[begin..i];
      checksum := checksum ^ mem[i];
    }
  }

  /** The write buffer of wtp_handle_blockwrite over the memory behind the length byte, and the packet's begin. */
  class PacketBuf {
    const mem: array<byte>
    const size: nat
    var posA: nat
    var pktBegin: nat

    ghost predicate Valid()
      reads this
    {
      1 + size <= mem.Length && pktBegin <= posA && pktBegin <= size
    }

    /** The unparsed bytes from the begin of the packet on. */
    ghost function Left(): seq<byte>
      requires Valid()
      reads this, mem
    {
      mem[1 + pktBegin..1 + size]
    }

    /** The bytes after the cursor. */
    ghost function Rest(): seq<byte>
      requires Valid() && posA <= size
      reads this, mem
    {
      mem[1 + posA..1 + size]
    }

    constructor (mem: array<byte>)
      requires mem.Length > 0 && 1 + mem[0] as int <= mem.Length
      ensures Valid() && this.mem == mem && posA == 0 && pktBegin == 0
      ensures posA <= size && Rest() == mem[1..1 + mem[0] as int]
    {
      this.mem, size := mem, mem[0] as int;
      posA, pktBegin := 0, 0;
    }

    method ReadByte() returns (ok: bool, b: byte)
      requires Valid()
      modifies this`posA
      ensures Valid() && Left() == old(Left()) && (ok <==> old(posA) - pktBegin < |Left()|)
      ensures ok ==> b == Left()[old(posA) - pktBegin] && posA == old(posA) + 1
    {
      ok, b := false, 0;
      if posA + 1 <= size {
        ok, b := true, mem[1 + posA];
        posA := posA + 1;
      }
    }

    method ReadWord() returns (ok: bool, w: U16)
      requires Valid()
      modifies this`posA
      ensures Valid() && Left() == old(Left()) && (ok <==> old(posA) - pktBegin + 2 <= |Left()|)
      ensures ok ==> posA == old(posA) + 2 &&
                     w == Word(Left()[old(posA) - pktBegin], Left()[old(posA) - pktBegin + 1])
    {
      hide Word;
      ok, w := false, 0;
      if posA + 2 <= size {
        ok, w := true, Word(mem[1 + posA], mem[2 + posA]);
        posA := posA + 2;
      }
    }

    /** A payload that runs past the end is refused before its checksum is looked at. */
    method VerifyChecksum() returns (status: Status)
      requires Valid()
      modifies this`posA
      ensures Valid() && status == Verify(Left(), old(posA) - pktBegin)
      ensures status == Ok ==> posA == old(posA) + 1
    {
      var pktEnd := posA;
      var ok, checksum := ReadByte();
      if !ok { return OutOfRange; }
      var calculated := XorRange(mem, 1 + pktBegin, 1 + pktEnd);
      assert Left()[..pktEnd - pktBegin] == mem[1 + pktBegin..1 + pktEnd];
      status := if calculated == checksum then Ok else BadChecksum;
    }

    /** The payload and the checksum behind it. */
    method ReadPayload(n: nat) returns (status: Status, data: seq<byte>)
      requires Valid()
      modifies this`posA
      ensures Valid() && Left() == old(Left()) && status == Verify(Left(), old(posA) - pktBegin + n)
      ensures status == Ok ==>
                && posA == old(posA) + n + 1 <= size
                && data == Left()[old(posA) - pktBegin..old(posA) - pktBegin + n]
    {
      var payload, i := 1 + posA, posA - pktBegin;
      posA := posA + n;
      data := [];
      status := VerifyChecksum();
      if status == Ok {
        data := mem[payload..payload + n];
        assert i + n < |Left()|;
        forall k | 0 <= k < n ensures data[k] == Left()[i..i + n][k] { assert Left()[i + k] == mem[payload + k]; }
      }
    }

    lemma DataFrontIs(s: seq<byte>, i: nat, msgSize: Option<U16>)
      ensures |s| < i + 3 ==> DataFront(s, i, msgSize) == Failed(OutOfRange)
      ensures |s| >= i + 3 ==>
                var end := i + 3 + s[i + 2] as int;
                var status := Verify(s, end);
                && (status != Ok ==> DataFront(s, i, msgSize) == Failed(status))
                && (status == Ok ==>
                      DataFront(s, i, msgSize) == Got(DataOf(msgSize, Word(s[i], s[i + 1]), s[i + 3..end]), end + 1))
    {
      hide Word, DataOf;
    }

    lemma ValidMeans()
      requires Valid()
      ensures pktBegin <= posA
    {
    }

    method HandleData(msgSize: Option<U16>) returns (front: Front)
      requires Valid()
      modifies this`posA
      ensures Valid() && front == DataFront(Left(), old(posA) - pktBegin, msgSize)
      ensures front.Got? ==> posA == pktBegin + front.size
    {
      hide Word, Verify, Valid, Left, DataOf, DataFront;
      assert pktBegin <= posA by { ValidMeans(); }
      DataFrontIs(Left(), posA - pktBegin, msgSize);
      var ok, seqNum := ReadWord();
      if !ok { return Failed(OutOfRange); }
      var payloadSize;
      ok, payloadSize := ReadByte();
      if !ok { return Failed(OutOfRange); }
      var status, data := ReadPayload(payloadSize as int);
      if status != Ok { return Failed(status); }
      front := Got(DataOf(msgSize, seqNum, data), posA - pktBegin);
    }

    method HandleAck() returns (front: Front)
      requires Valid() && posA == pktBegin + 1 && |Left()| > 0 && Left()[0] == PKT_ACK
      modifies this`posA
      ensures Valid() && front == ParseFront(Left()) && (front.Got? ==> posA == pktBegin + front.size)
    {
      hide Word, Verify;
      var ok, seqNum := ReadWord();
      if !ok { return Failed(OutOfRange); }
      var status := VerifyChecksum();
      front := if status == Ok then Got(Ack(seqNum), posA - pktBegin) else Failed(status);
    }

    method HandleSetParam() returns (front: Front)
      requires Valid() && posA == pktBegin + 1 && |Left()| > 0 && Left()[0] == PKT_SET_PARAM
      modifies this`posA
      ensures Valid() && front == ParseFront(Left()) && (front.Got? || front.Ignored? ==> posA == pktBegin + front.size)
    {
      hide Word, Verify;
      var ok, code := ReadByte();
      if !ok { return Failed(OutOfRange); }
      if code != PARAM_READ_SIZE { return Ignored(2); }
      var readSize;
      ok, readSize := ReadByte();
      if !ok { return Failed(OutOfRange); }
      var status := VerifyChecksum();
      front := if status == Ok then Got(ReadSize(readSize), posA - pktBegin) else Failed(status);
    }

    /** One turn of the loop: the packet that begins at the cursor. */
    method HandleNext() returns (front: Front)
      requires Valid() && posA <= size
      modifies this
      ensures Valid() && front == ParseFront(old(Rest()))
      ensures front.Got? || front.Ignored? ==> posA <= size && Rest() == old(Rest())[front.size..]
    {
      ghost var rest := Rest();
      pktBegin := posA;
      front := Dispatch();
      if front.Got? || front.Ignored? { assert Rest() == rest[front.size..]; }
    }

    /** The packet handlers by packet type. */
    method Dispatch() returns (front: Front)
      requires Valid() && posA == pktBegin
      modifies this`posA
      ensures Valid() && front == ParseFront(Left())
      ensures front.Got? || front.Ignored? ==> posA == pktBegin + front.size
    {
      hide Word, Verify;
      var ok, pktType := ReadByte();
      if !ok || pktType == PKT_END { return End; }
      if pktType == PKT_OPEN {
        var status := VerifyChecksum();
        front := if status == Ok then Got(Open, 2) else Failed(status);
      } else if pktType == PKT_ACK {
        front := HandleAck();
      } else if pktType == PKT_BEGIN_MSG {
        var msgSize;
        ok, msgSize := ReadWord();
        if !ok { return Failed(OutOfRange); }
        front := HandleData(Some(msgSize));
      } else if pktType == PKT_CONT_MSG {
        front := HandleData(None);
      } else if pktType == PKT_SET_PARAM {
        front := HandleSetParam();
      } else {
        front := Failed(Unsupported);
      }
    }
  }

  /** The list as far as handling goes: the loop ends with the first packet whose handler fails after parsing it. */
  function Handled(parsed: Parsed, outcome: nat -> Status, i: nat): Parsed
    decreases |parsed.packets|
  {
    if parsed.packets == [] then parsed
    else if outcome(i) != Ok then Parsed([parsed.packets[0]], outcome(i))
    else
      var rest := Handled(Parsed(parsed.packets[1..], parsed.status), outcome, i + 1);
      rest.(packets := [parsed.packets[0]] + rest.packets)
  }

  /** Handlers that do not fail after parsing leave the list as it is. */
  lemma {:induction false} AllHandled(parsed: Parsed, outcome: nat -> Status, i: nat)
    requires forall j :: i <= j < i + |parsed.packets| ==> outcome(j) == Ok
    ensures Handled(parsed, outcome, i) == parsed
    decreases |parsed.packets|
  {
    if parsed.packets != [] { AllHandled(Parsed(parsed.packets[1..], parsed.status), outcome, i + 1); }
  }

  /** What the loop has so far, and what the rest will add. */
  function Continued(packets: seq<Packet>, rest: Parsed): Parsed {
    rest.(packets := packets + rest.packets)
  }

  /** One turn of the loop, with the packets before it handled. */
  lemma HandledTurn(s: seq<byte>, packets: seq<Packet>, outcome: nat -> Status)
    ensures var n, front := |packets|, ParseFront(s);
            var all := Continued(packets, Handled(Parse(s), outcome, n));
            && (front.End? ==> all == Parsed(packets, Ok))
            && (front.Failed? ==> all == Parsed(packets, front.status))
            && (front.Ignored? ==> all == Continued(packets, Handled(Parse(s[front.size..]), outcome, n)))
            && (front.Got? && outcome(n) != Ok ==> all == Parsed(packets + [front.packet], outcome(n)))
            && (front.Got? && outcome(n) == Ok ==>
                  all == Continued(packets + [front.packet], Handled(Parse(s[front.size..]), outcome, n + 1)))
  {
    hide ParseFront;
    var front := ParseFront(s);
    if front.Got? {
      var rest := Parse(s[front.size..]);
      assert Parse(s) == Parsed([front.packet] + rest.packets, rest.status);
      assert ([front.packet] + rest.packets)[1..] == rest.packets;
      var r := Handled(rest, outcome, |packets| + 1);
      assert packets + ([front.packet] + r.packets) == packets + [front.packet] + r.packets;
    } else {
      assert packets + [] == packets;
    }
  }

  /**
   * wtp_handle_blockwrite: what its handlers are given, in order, and how it
   * ends, whatever the handlers' outcomes after parsing.
   */
  method HandleBlockwrite(mem: array<byte>, outcome: nat -> Status) returns (packets: seq<Packet>, status: Status)
    requires mem.Length > 0 && 1 + mem[0] as int <= mem.Length
    ensures Parsed(packets, status) == Handled(ParseMemory(mem[..]), outcome, 0)
  {
    hide ParseFront, Parse, PacketBuf.Valid, PacketBuf.Rest, Handled;
    var buf := new PacketBuf(mem);
    ghost var all := Handled(Parse(buf.Rest()), outcome, 0);
    assert mem[..][1..1 + mem[0] as int] == mem[1..1 + mem[0] as int];
    packets, status := [], Ok;
    var more := true;
    assert [] + all.packets == all.packets;
    while more
      invariant buf.Valid() && (more ==> buf.posA <= buf.size)
      invariant all == if more then Continued(packets, Handled(Parse(buf.Rest()), outcome, |packets|))
                       else Parsed(packets, status)
      decreases if more then 1 + |buf.Rest()| else 0
    {
      HandledTurn(buf.Rest(), packets, outcome);
      var front := buf.HandleNext();
      if front.Got? {
        status := outcome(|packets|);
        packets := packets + [front.packet];
        more := status == Ok;
      } else if !front.Ignored? {
        more, status := false, if front.Failed? then front.status else Ok;
      }
    }
  }
}
