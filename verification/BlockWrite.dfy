/**
 * How BlockWrite data travels: write_opspec lays it out in words
 * (server/wtp/wtp/llrp_util.py), the reader sends each word with its word
 * pointer, and the tag unpacks it from the unaligned command and stores it
 * (client/wisp-base/RFID/rfid_BlockWriteHandle.asm).
 */
module BlockWrite {
  import opened Base

  /** Length byte in front, padded to whole words. */
  function Padded(data: seq<byte>): (p: seq<byte>)
    requires |data| < 256
    ensures |p| % 2 == 0 && |data| < |p| <= |data| + 2
  {
    [ByteOf(|data|)] + data + (if |data| % 2 == 0 then [0] else [])
  }

  /** The two bytes of every word exchanged. */
  function Swapped(s: seq<byte>): (t: seq<byte>)
    requires |s| % 2 == 0
    ensures |t| == |s|
  {
    seq(|s|, i requires 0 <= i < |s| => if i % 2 == 0 then s[i + 1] else s[i - 1])
  }

  lemma SwappedAt(s: seq<byte>, p: nat)
    requires |s| % 2 == 0 && 2 * p + 1 < |s|
    ensures Swapped(s)[2 * p] == s[2 * p + 1] && Swapped(s)[2 * p + 1] == s[2 * p]
  {
  }

  /** The swapping loop of write_opspec, in place. */
  method SwapWords(data: array<byte>)
    requires data.Length % 2 == 0
    modifies data
    ensures data[..] == Swapped(old(data[..]))
  {
    hide Swapped;
    ghost var was := data[..];
    for i := 0 to data.Length / 2
      invariant forall k :: 0 <= k < 2 * i ==> data[k] == Swapped(was)[k]
      invariant forall k :: 2 * i <= k < data.Length ==> data[k] == was[k]
    {
      SwappedAt(was, i);
      var tmp := data[2 * i];
      data[2 * i] := data[2 * i + 1];
      data[2 * i + 1] := tmp;
    }
  }

  /** write_opspec: None is the ValueError of a length that is no byte. */
  method WriteOpspec(data: seq<byte>) returns (words: array?<byte>)
    ensures words == null <==> |data| >= 256
    ensures words != null ==> fresh(words) && words[..] == Swapped(Padded(data))
  {
    var length := |data|;
    if length >= 256 { return null; }
    var bytes := [ByteOf(length)] + data;
    if (length + 1) % 2 != 0 { bytes := bytes + [0]; }
    assert bytes == Padded(data);
    words := new byte[|bytes|](i requires 0 <= i < |bytes| => bytes[i]);
    assert words[..] == bytes;
    SwapWords(words);
  }

  // ------------------------------------------------ one word on the tag

  /** SWPB: exchange the bytes of a word. */
  function Swpb(w: bv16): bv16 { (w << 8) | (w >> 8) }

  /** A BlockWrite command as received: CMD, MemBank, WordPtr and WordCount take 26 bits, then comes the word. */
  ghost predicate CarriesWord(cmd: seq<byte>, high: byte, low: byte) {
    && |cmd| >= 6
    && cmd[3] & 0x3F == high >> 2
    && cmd[4] == (high << 6) | (low >> 2)
    && cmd[5] & 0xC0 == low << 6
  }

  /** store_Word, whatever the carry flag was. */
  method StoreWord(cmd: seq<byte>, mem: array<byte>, wordPtr: nat, carry: bool, ghost high: byte, ghost low: byte)
    requires CarriesWord(cmd, high, low) && 2 * wordPtr + 1 < mem.Length
    modifies mem
    ensures mem[..] == old(mem[..])[2 * wordPtr := low][2 * wordPtr + 1 := high]
  {
    var word := Unpack(cmd[3], cmd[4], cmd[5], carry, high, low);
    mem[2 * wordPtr] := (word & 0xFF) as byte;
    mem[2 * wordPtr + 1] := (word >> 8) as byte;
  }

  /** Two rotations to the left move the two high bits of c4 into c3, whatever the carry was. */
  lemma LeftTwice(c3: byte, c4: byte, carry: bool)
    ensures var a := Rlc(c4, carry);
            var b := Rlc(c3, a.carry);
            var a' := Rlc(a.value, b.carry);
            Rlc(b.value, a'.carry).value == (c3 << 2) | (c4 >> 6)
  {
  }

  /** Back to the right, the other bits of c4 are where they were. */
  lemma RightTwice(c4: byte, x: bool, y: bool, z: bool)
    ensures var r := Rrc(Rlc(Rlc(c4, x).value, y).value, z); Rrc(r.value, r.carry).value & 0x3F == c4 & 0x3F
  {
  }

  lemma HighByte(c3: byte, c4: byte, high: byte, low: byte)
    requires c3 & 0x3F == high >> 2 && c4 == (high << 6) | (low >> 2)
    ensures (c3 << 2) | (c4 >> 6) == high
  {
  }

  lemma LowBits(c4: byte, high: byte, low: byte)
    requires c4 == (high << 6) | (low >> 2)
    ensures c4 & 0x3F == low >> 2
  {
  }

  function JoinedWord(high: byte, low: byte): bv16 { Swpb(high as bv16) | (low as bv16) }

  lemma WordBytes(high: byte, low: byte)
    ensures (JoinedWord(high, low) & 0xFF) as byte == low && (JoinedWord(high, low) >> 8) as byte == high
  {
  }

  /** The register rotations of store_Word. */
  method Unpack(c3: byte, c4: byte, c5: byte, carry: bool, ghost high: byte, ghost low: byte) returns (word: bv16)
    requires c3 & 0x3F == high >> 2 && c4 == (high << 6) | (low >> 2) && c5 & 0xC0 == low << 6
    ensures (word & 0xFF) as byte == low && (word >> 8) as byte == high
  {
    var scratch1, scratch2, c := UnpackHigh(c3, c4, carry, high, low);
    scratch2 := ShiftIn(scratch2, c5, c, low);
    word := Swpb(scratch1 as bv16) | (scratch2 as bv16);
    WordBytes(high, low);
  }

  /** The first six rotations. */
  method UnpackHigh(c3: byte, c4: byte, carry: bool, ghost high: byte, ghost low: byte)
    returns (scratch1: byte, scratch2: byte, c: bool)
    requires c3 & 0x3F == high >> 2 && c4 == (high << 6) | (low >> 2)
    ensures scratch1 == high && scratch2 & 0x3F == low >> 2
  {
    hide Rlc, Rrc;
    var a := Rlc(c4, carry);
    var b := Rlc(c3, a.carry);
    var a' := Rlc(a.value, b.carry);
    var b' := Rlc(b.value, a'.carry);
    var r := Rrc(a'.value, b'.carry);
    var r' := Rrc(r.value, r.carry);
    LeftTwice(c3, c4, carry);
    RightTwice(c4, carry, b.carry, b'.carry);
    HighByte(c3, c4, high, low);
    LowBits(c4, high, low);
    scratch1, scratch2, c := b'.value, r'.value, r'.carry;
  }

  /** The last four rotations: the two low bits of the word move in. */
  method ShiftIn(scratch2: byte, r12: byte, carry: bool, ghost low: byte) returns (value: byte)
    requires scratch2 & 0x3F == low >> 2 && r12 & 0xC0 == low << 6
    ensures value == low
  {
    var r, c := r12, carry;
    value := scratch2;
    var s := Rlc(r, c); r, c := s.value, s.carry;
    s := Rlc(value, c); value, c := s.value, s.carry;
    s := Rlc(r, c); r, c := s.value, s.carry;
    s := Rlc(value, c); value, c := s.value, s.carry;
  }

  // ---------------------------------------------------- the whole write

  /** The tag's memory after the words at these pointers arrive, each stored low byte first. */
  function Stored(mem: seq<byte>, words: seq<byte>, order: seq<nat>): (r: seq<byte>)
    requires |words| % 2 == 0 && |words| <= |mem|
    requires forall j :: 0 <= j < |order| ==> order[j] < |words| / 2
    ensures |r| == |mem|
    decreases |order|
  {
    if order == [] then mem else
    var p := order[|order| - 1];
    Stored(mem, words, order[..|order| - 1])[2 * p := words[2 * p + 1]][2 * p + 1 := words[2 * p]]
  }

  lemma {:induction false} StoredAt(mem: seq<byte>, words: seq<byte>, order: seq<nat>, p: nat)
    requires |words| % 2 == 0 && |words| <= |mem|
    requires forall j :: 0 <= j < |order| ==> order[j] < |words| / 2
    requires p in order && p < |words| / 2
    ensures var r := Stored(mem, words, order); r[2 * p] == words[2 * p + 1] && r[2 * p + 1] == words[2 * p]
    decreases |order|
  {
    var n := |order| - 1;
    if order[n] != p {
      var j :| 0 <= j < |order| && order[j] == p;
      assert order[..n][j] == p;
      StoredAt(mem, words, order[..n], p);
    }
  }

  /** The commands of one BlockWrite arrive one after the other. */
  method StoreWords(cmds: seq<seq<byte>>, ptrs: seq<nat>, mem: array<byte>, ghost words: seq<byte>)
    requires |words| % 2 == 0 && |words| <= mem.Length && |cmds| == |ptrs|
    requires forall j :: 0 <= j < |ptrs| ==>
               ptrs[j] < |words| / 2 && CarriesWord(cmds[j], words[2 * ptrs[j]], words[2 * ptrs[j] + 1])
    modifies mem
    ensures mem[..] == Stored(old(mem[..]), words, ptrs)
  {
    hide CarriesWord;
    for i := 0 to |cmds|
      invariant mem[..] == Stored(old(mem[..]), words, ptrs[..i])
    {
      var carry: bool := *;
      StoreWord(cmds[i], mem, ptrs[i], carry, words[2 * ptrs[i]], words[2 * ptrs[i] + 1]);
      assert ptrs[..i + 1][..i] == ptrs[..i];
    }
    assert ptrs[..|cmds|] == ptrs;
  }

  /**
   * Whatever the order in which the reader sends the words, and however often
   * it repeats them, once each has arrived the tag's memory holds the length
   * byte and the data exactly as they were given to write_opspec.
   */
  lemma DataArrives(data: seq<byte>, mem: seq<byte>, order: seq<nat>)
    requires |data| < 256 && |Padded(data)| <= |mem|
    requires forall j :: 0 <= j < |order| ==> order[j] < |Padded(data)| / 2
    requires forall p :: 0 <= p < |Padded(data)| / 2 ==> p in order
    ensures var r := Stored(mem, Swapped(Padded(data)), order);
            |r| == |mem| && r[0] == ByteOf(|data|) && r[1..1 + |data|] == data
  {
    hide Swapped, Padded;
    var d := Padded(data);
    var r := Stored(mem, Swapped(d), order);
    forall i | 0 <= i < |d| ensures r[i] == d[i] { ByteArrives(d, mem, order, i); }
    PaddedAt(data);
    assert r[1..1 + |data|] == d[1..1 + |data|];
  }

  lemma PaddedAt(data: seq<byte>)
    requires |data| < 256
    ensures Padded(data)[0] == ByteOf(|data|) && Padded(data)[1..1 + |data|] == data
  {
  }

  lemma ByteArrives(d: seq<byte>, mem: seq<byte>, order: seq<nat>, i: nat)
    requires |d| % 2 == 0 && |d| <= |mem| && i < |d|
    requires forall j :: 0 <= j < |order| ==> order[j] < |d| / 2
    requires i / 2 in order
    ensures Stored(mem, Swapped(d), order)[i] == d[i]
  {
    hide Swapped;
    StoredAt(mem, Swapped(d), order, i / 2);
    SwappedAt(d, i / 2);
  }
}
