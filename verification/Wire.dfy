/**
 * The bytes of a BlockWrite payload: the server's checksum stream
 * (server/wtp/wtp/util.py) and the records get_write_data puts on it.
 */
module Wire {
  import opened Base
  import opened TxSpec

  const PKT_END: byte := 0
  const PKT_OPEN: byte := 1
  const PKT_ACK: byte := 3
  const PKT_BEGIN_MSG: byte := 4
  const PKT_CONT_MSG: byte := 5
  const PKT_SET_PARAM: byte := 7

  /** The XOR of all bytes. */
  function Xor(s: seq<byte>): byte {
    if s == [] then 0 else Xor(s[..|s| - 1]) ^ s[|s| - 1]
  }

  method XorChecksum(buf: seq<byte>) returns (checksum: byte)
    ensures checksum == Xor(buf)
  {
    checksum := 0;
    for i := 0 to |buf|
      invariant checksum == Xor(buf[..i])
    {
      assert buf[..i + 1][..i] == buf[..i];
      checksum := checksum ^ buf[i];
    }
    assert buf[..|buf|] == buf;
  }

  lemma {:induction false} XorAppend(a: seq<byte>, b: seq<byte>)
    ensures Xor(a + b) == Xor(a) ^ Xor(b)
    decreases |b|
  {
    if b == [] {
      assert a + b == a;
    } else {
      var n := |b| - 1;
      assert (a + b)[..|a| + n] == a + b[..n];
      XorAppend(a, b[..n]);
    }
  }

  /** A checksummed stretch cancels out. */
  lemma XorCancels(s: seq<byte>)
    ensures Xor(s + [Xor(s)]) == 0
  {
    assert (s + [Xor(s)])[..|s|] == s;
  }

  function Seal(prefix: seq<byte>, record: seq<byte>, checksum: bool): seq<byte> {
    if checksum then record + [Xor(prefix + record)] else record
  }

  /** The header of a data packet: type, message size on a first fragment, sequence number, payload size. */
  function DataHeader(f: TxFrag): seq<byte>
    requires Encodable(f)
  {
    (if f.msgSize != 0 then [PKT_BEGIN_MSG] + Le16(f.msgSize) else [PKT_CONT_MSG])
    + (Le16(f.seqNum) + [ByteOf(|f.data|)])
  }

  function DataRecord(f: TxFrag): seq<byte>
    requires Encodable(f)
  {
    DataHeader(f) + f.data
  }

  /** What struct.pack accepts for the header fields. */
  predicate Encodable(f: TxFrag) {
    0 <= f.seqNum < 0x10000 && f.msgSize < 0x10000 && |f.data| < 0x100
  }

  /** Header, payload and checksum written one by one behind a prefix make a record sealed on its own. */
  lemma SealedAlone(prefix: seq<byte>, header: seq<byte>, data: seq<byte>, checksum: bool)
    ensures var written := prefix + header + data;
            written + (if checksum then [Xor(written[|prefix|..])] else [])
            == prefix + Seal([], header + data, checksum)
  {
    var written, record := prefix + header + data, header + data;
    assert written == prefix + record;
    assert written[|prefix|..] == record;
    assert [] + record == record;
    if checksum {
      var c := [Xor(record)];
      assert (prefix + record) + c == prefix + (record + c);
    }
  }

  /** Control packets are sealed from the start of the stream. */
  function WriteControl(stream: seq<byte>, ps: seq<seq<byte>>, checksum: bool): seq<byte>
    decreases |ps|
  {
    if ps == [] then stream
    else WriteControl(stream + Seal(stream, ps[0], checksum), ps[1..], checksum)
  }

  /** Data packets are sealed on their own. */
  function WriteData(stream: seq<byte>, fs: seq<TxFrag>, checksum: bool): seq<byte>
    requires forall i :: 0 <= i < |fs| ==> Encodable(fs[i])
    decreases |fs|
  {
    if fs == [] then stream
    else WriteData(stream + Seal([], DataRecord(fs[0]), checksum), fs[1..], checksum)
  }

  /** The in-memory stream that get_write_data fills; its position is always at the end. */
  class ChecksumStream {
    var buffer: seq<byte>
    var beginPos: nat
    const checksum: bool

    constructor (checksum: bool)
      ensures buffer == [] && beginPos == 0 && this.checksum == checksum
    {
      buffer, beginPos := [], 0;
      this.checksum := checksum;
    }

    method Write(data: seq<byte>)
      modifies this`buffer
      ensures buffer == old(buffer) + data
    {
      buffer := buffer + data;
    }

    method BeginChecksum()
      modifies this`beginPos
      ensures beginPos == |buffer|
    {
      beginPos := |buffer|;
    }

    method WriteChecksum()
      requires beginPos <= |buffer|
      modifies this`buffer
      ensures buffer == old(buffer) + (if checksum then [Xor(old(buffer)[beginPos..])] else [])
    {
      if checksum {
        var c := XorChecksum(buffer[beginPos..]);
        Write([c]);
      }
    }
  }
}
