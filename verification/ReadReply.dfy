/**
 * The reply to an EPC Read (client/wisp-base/RFID/rfid_ReadHandle.asm): a 0
 * bit, the words read, the handle and a CRC-16, as section 6.3.2.12.3.2 of
 * the EPC Class-1 Generation-2 protocol lays it out, sent in FM0.
 */
module ReadReply {
  import opened Base
  import opened Crc
  import Fm0

  /** The bits a Read of these bytes is to be answered with. */
  function ReplyBits(data: seq<byte>, handle: Reg): seq<bool> {
    var covered := [false] + Bits(data) + WordBits(handle, 16);
    covered + WordBits(Inv(Fold(PRESET, covered)), 16)
  }

  /** A reader that runs the whole reply through its CRC register is left with the residue. */
  lemma ReplyChecks(data: seq<byte>, handle: Reg)
    ensures Fold(PRESET, ReplyBits(data, handle)) == RESIDUE
  {
    hide Fold, WordBits, Bits, Inv;
    var covered := [false] + Bits(data) + WordBits(handle, 16);
    FoldAppend(PRESET, covered, WordBits(Inv(Fold(PRESET, covered)), 16));
    Residue(Fold(PRESET, covered));
  }

  // ----------------------------------------------------- the bit that goes in front

  lemma RotateOneIn(b: byte)
    ensures ByteBits(Rrc(b, true).value) == [true] + ByteBits(b)[..7]
  {
  }

  lemma RotateZeroIn(b: byte)
    ensures ByteBits(Rrc(b, false).value) == [false] + ByteBits(b)[..7]
  {
  }

  lemma RotateBits(b: byte, carry: bool)
    ensures ByteBits(Rrc(b, carry).value) == [carry] + ByteBits(b)[..7]
    ensures Rrc(b, carry).carry == ByteBits(b)[7]
  {
    if carry { RotateOneIn(b); } else { RotateZeroIn(b); }
  }

  /** Rotating byte after byte moves the whole bit string one place on. */
  function Rotate(s: seq<byte>, carry: bool): (r: seq<byte>)
    ensures |r| == |s|
    decreases |s|
  {
    if s == [] then [] else
    var x := Rrc(s[0], carry);
    [x.value] + Rotate(s[1..], x.carry)
  }

  lemma Regroup(carry: bool, b: seq<bool>, rest: seq<bool>)
    requires |b| == 8
    ensures ([carry] + b[..7]) + ([b[7]] + rest)[..|rest|] == ([carry] + (b + rest))[..8 + |rest|]
  {
  }

  lemma {:induction false} RotateShifts(s: seq<byte>, carry: bool)
    ensures Bits(Rotate(s, carry)) == ([carry] + Bits(s))[..8 * |s|]
    decreases |s|
  {
    hide ByteBits, Rrc, Bits;
    if s == [] {
      NoBytes();
    } else {
      var x := Rrc(s[0], carry);
      RotateBits(s[0], carry);
      assert s == [s[0]] + s[1..];
      BitsAppend([s[0]], s[1..]);
      BitsOfOne(s[0]);
      BitsAppend([x.value], Rotate(s[1..], x.carry));
      BitsOfOne(x.value);
      RotateShifts(s[1..], x.carry);
      Regroup(carry, ByteBits(s[0]), Bits(s[1..]));
    }
  }

  lemma NoBytes()
    ensures Bits([]) == []
  {
  }

  lemma BitsHead(s: seq<byte>)
    requires s != []
    ensures Bits(s) == ByteBits(s[0]) + Bits(s[1..])
  {
    hide Bits, ByteBits;
    assert s == [s[0]] + s[1..];
    BitsAppend([s[0]], s[1..]);
    BitsOfOne(s[0]);
  }

  lemma PrefixBits(s: seq<byte>, n: nat)
    requires n < |s|
    ensures Bits(s)[..8 * n] == Bits(s[..n])
    ensures Bits(s)[8 * n] == ByteBits(s[n])[0]
  {
    hide Bits, ByteBits;
    assert s == s[..n] + s[n..];
    BitsAppend(s[..n], s[n..]);
    BitsHead(s[n..]);
    Parts(Bits(s[..n]), ByteBits(s[n]), Bits(s[n..][1..]));
  }

  lemma Parts(a: seq<bool>, b: seq<bool>, c: seq<bool>)
    requires b != []
    ensures (a + (b + c))[..|a|] == a && (a + (b + c))[|a|] == b[0]
  {
  }

  /** n bytes and one bit of the rotated buffer are a 0 and the n bytes of the original one. */
  lemma CarriedAfterRotation(before: seq<byte>, n: nat)
    requires n < |before|
    ensures Fm0.SentBits(Rotate(before, false), n, 1) == [false] + Bits(before[..n])
  {
    hide Bits, ByteBits, Rotate, Fm0.TrailingBits;
    var after := Rotate(before, false);
    RotateShifts(before, false);
    PrefixBits(before, n);
    PrefixBits(after, n);
    FirstTrailing(after[n]);
    OnePlace(Bits(before), Bits(after), 8 * n);
  }

  lemma FirstTrailing(b: byte)
    ensures Fm0.TrailingBits(b, 1) == [ByteBits(b)[0]]
  {
    hide ByteBits;
  }

  lemma OnePlace(a: seq<bool>, b: seq<bool>, m: nat)
    requires m < |a| && b == ([false] + a)[..|a|]
    ensures b[..m] + [b[m]] == [false] + a[..m]
  {
  }

  /** Data, handle and the CRC computed from the preload for the 0 bit make up the reply. */
  lemma PacketIsReply(data: seq<byte>, handle: Reg)
    ensures var packet := data + Bytes16(handle);
            [false] + Bits(packet + Bytes16(Crc16(ZERO_BIT_CRC, Bits(packet)))) == ReplyBits(data, handle)
  {
    hide Bits, Fold, WordBits, Bytes16, Inv;
    var packet := data + Bytes16(handle);
    var crc := Crc16(ZERO_BIT_CRC, Bits(packet));
    BitsAppend(packet, Bytes16(crc));
    BitsAppend(data, Bytes16(handle));
    WordBytes(handle);
    WordBytes(crc);
    ZeroBitPreload();
    FoldAppend(PRESET, [false], Bits(packet));
    var covered := [false] + Bits(data) + WordBits(handle, 16);
    assert [false] + Bits(packet) == covered;
    assert [false] + (Bits(packet) + WordBits(crc, 16)) == covered + WordBits(crc, 16);
  }

  // ------------------------------------------------------------ handleRead

  /** Thirty-two bytes are loaded whatever the word count. */
  method LoadData(mem: seq<byte>, rfidBuf: array<byte>)
    requires |mem| >= 32 && rfidBuf.Length >= 38
    modifies rfidBuf
    ensures rfidBuf[..32] == mem[..32]
  {
    for i := 0 to 32
      invariant rfidBuf[..i] == mem[..i]
    {
      rfidBuf[i] := mem[i];
    }
  }

  /** Low byte behind high byte. */
  method StoreWord(rfidBuf: array<byte>, at: nat, word: Reg)
    requires at + 2 <= rfidBuf.Length
    modifies rfidBuf
    ensures rfidBuf[..at + 2] == old(rfidBuf[..at]) + Bytes16(word)
  {
    rfidBuf[at + 1] := Low(word);
    rfidBuf[at] := High(word);
    assert rfidBuf[..at + 2] == rfidBuf[..at] + [rfidBuf[at], rfidBuf[at + 1]];
  }

  lemma RotateOne(done: seq<byte>, was: seq<byte>, i: nat, carry: bool)
    requires i < |was|
    ensures var x := Rrc(was[i], carry);
            done + Rotate(was[i..], carry) == (done + [x.value]) + Rotate(was[i + 1..], x.carry)
  {
    hide Rrc;
    assert was[i..][1..] == was[i + 1..];
  }

  /** The unrolled rotation of all bytes a reply can reach. */
  method InsertStatusBit(rfidBuf: array<byte>)
    requires rfidBuf.Length >= 38
    modifies rfidBuf
    ensures rfidBuf[..38] == Rotate(old(rfidBuf[..38]), false)
  {
    hide Rrc;
    var carry := false;
    ghost var was := rfidBuf[..38];
    ghost var goal := Rotate(was, false);
    assert was[0..] == was;
    for i := 0 to 38
      invariant forall k :: i <= k < 38 ==> rfidBuf[k] == was[k]
      invariant goal == rfidBuf[..i] + Rotate(was[i..], carry)
    {
      ghost var done := rfidBuf[..i];
      RotateOne(done, was, i, carry);
      var x := Rrc(rfidBuf[i], carry);
      rfidBuf[i], carry := x.value, x.carry;
      assert rfidBuf[..i + 1] == done + [x.value];
    }
    assert was[38..] == [];
    assert rfidBuf[..38] + [] == rfidBuf[..38];
  }

  /** The buffer from which the reply is sent. */
  method BuildReply(mem: seq<byte>, handle: Reg, wordCt: nat, rfidBuf: array<byte>)
    requires |mem| >= 32 && wordCt <= 16 && rfidBuf.Length >= 38
    modifies rfidBuf
    ensures Fm0.SentBits(rfidBuf[..38], 2 * wordCt + 4, 1) == ReplyBits(mem[..2 * wordCt], handle)
  {
    hide Bits, Bytes16, ReplyBits, Rotate, Crc16, Fm0.SentBits;
    LoadData(mem, rfidBuf);
    var n := 2 * wordCt;
    ghost var data := mem[..n];
    assert rfidBuf[..n] == rfidBuf[..32][..n] == data;
    StoreWord(rfidBuf, n, handle);
    ghost var packet := rfidBuf[..n + 2];
    var crc := Crc16Ccitt(ZERO_BIT_CRC, rfidBuf[..n + 2]);
    StoreWord(rfidBuf, n + 2, crc);
    PacketIsReply(data, handle);
    ghost var before := rfidBuf[..38];
    assert before[..n + 4] == packet + Bytes16(crc);
    InsertStatusBit(rfidBuf);
    CarriedAfterRotation(before, n + 4);
  }

  // ------------------------------------------------------------ the command

  /**
   * A Read command as received: 8 bits of command code, 2 of memory bank, 8 of
   * word pointer, 8 of word count, 16 of handle, and its CRC.
   */
  predicate ReadCommand(cmd: seq<byte>) { |cmd| >= 6 }

  /** The low six bits of a byte, then the high two of the next. */
  function TwoIn(high: byte, low: byte): byte { (high << 2) | (low >> 6) }

  function WordPtr(cmd: seq<byte>): byte
    requires ReadCommand(cmd)
  {
    TwoIn(cmd[1], cmd[2])
  }

  function WordCt(cmd: seq<byte>): byte
    requires ReadCommand(cmd)
  {
    TwoIn(cmd[2], cmd[3])
  }

  function Joined(high: byte, low: byte): Reg { Reg(((high as bv16) << 8) | (low as bv16)) }

  function AddressedHandle(cmd: seq<byte>): Reg
    requires ReadCommand(cmd)
  {
    Joined(TwoIn(cmd[3], cmd[4]), TwoIn(cmd[4], cmd[5]))
  }

  lemma TwoInBits(high: byte, low: byte)
    ensures ByteBits(TwoIn(high, low)) == ByteBits(high)[2..] + ByteBits(low)[..2]
  {
  }

  lemma FieldAt(cmd: seq<byte>, i: nat)
    requires i + 1 < |cmd|
    ensures ByteBits(TwoIn(cmd[i], cmd[i + 1])) == Bits(cmd)[8 * i + 2..8 * i + 10]
  {
    hide Bits, ByteBits, TwoIn;
    TwoInBits(cmd[i], cmd[i + 1]);
    BitsAround(cmd, i);
    Straddles(Bits(cmd[..i]), ByteBits(cmd[i]), ByteBits(cmd[i + 1]), Bits(cmd[i + 2..]));
  }

  lemma BitsAround(cmd: seq<byte>, i: nat)
    requires i + 1 < |cmd|
    ensures Bits(cmd) == Bits(cmd[..i]) + (ByteBits(cmd[i]) + (ByteBits(cmd[i + 1]) + Bits(cmd[i + 2..])))
  {
    hide Bits, ByteBits;
    assert cmd == cmd[..i] + cmd[i..];
    BitsAppend(cmd[..i], cmd[i..]);
    BitsHead(cmd[i..]);
    BitsHead(cmd[i + 1..]);
    assert cmd[i..][1..] == cmd[i + 1..] && cmd[i + 1..][1..] == cmd[i + 2..];
  }

  lemma Straddles(a: seq<bool>, b: seq<bool>, c: seq<bool>, d: seq<bool>)
    requires |b| == 8 && |c| == 8
    ensures (a + (b + (c + d)))[|a| + 2..|a| + 10] == b[2..] + c[..2]
  {
  }

  lemma JoinedBytes(high: byte, low: byte)
    ensures Bytes16(Joined(high, low)) == [high, low]
  {
  }

  lemma BankNamed(b: byte)
    ensures ByteBits(b >> 6) == [false, false, false, false, false, false] + ByteBits(b)[..2]
  {
  }

  lemma ByteAt(cmd: seq<byte>, i: nat)
    requires i + 1 < |cmd|
    ensures Bits(cmd)[8 * i..8 * i + 2] == ByteBits(cmd[i])[..2]
  {
    hide Bits, ByteBits;
    BitsAround(cmd, i);
    Front(Bits(cmd[..i]), ByteBits(cmd[i]), ByteBits(cmd[i + 1]) + Bits(cmd[i + 2..]));
  }

  lemma Front(a: seq<bool>, b: seq<bool>, c: seq<bool>)
    requires |b| >= 2
    ensures (a + (b + c))[|a|..|a| + 2] == b[..2]
  {
  }

  /** The fields are where the protocol puts them. */
  lemma FieldsOfCommand(cmd: seq<byte>)
    requires ReadCommand(cmd)
    ensures ByteBits(cmd[1] >> 6)[6..] == Bits(cmd)[8..10]
    ensures ByteBits(WordPtr(cmd)) == Bits(cmd)[10..18]
    ensures ByteBits(WordCt(cmd)) == Bits(cmd)[18..26]
    ensures WordBits(AddressedHandle(cmd), 16) == Bits(cmd)[26..42]
  {
    hide Bits, ByteBits, TwoIn, WordBits, Joined, Bytes16;
    BankNamed(cmd[1]);
    ByteAt(cmd, 1);
    FieldAt(cmd, 1);
    FieldAt(cmd, 2);
    FieldAt(cmd, 3);
    FieldAt(cmd, 4);
    var high, low := TwoIn(cmd[3], cmd[4]), TwoIn(cmd[4], cmd[5]);
    JoinedBytes(high, low);
    WordBytes(Joined(high, low));
    assert [high, low] == [high] + [low];
    BitsAppend([high], [low]);
    BitsOfOne(high);
    BitsOfOne(low);
    assert Bits(cmd)[26..42] == Bits(cmd)[26..34] + Bits(cmd)[34..42];
  }

  /** Two bits shifted in from the next byte, whatever the carry flag was. */
  method ShiftTwoIn(high: byte, low: byte, carry: bool) returns (value: byte)
    ensures value == TwoIn(high, low)
  {
    var r15, r14, c := high, low, carry;
    var s := Rlc(r14, c); r14, c := s.value, s.carry;
    s := Rlc(r15, c); r15, c := s.value, s.carry;
    s := Rlc(r14, c); r14, c := s.value, s.carry;
    s := Rlc(r15, c); r15, c := s.value, s.carry;
    value := r15;
  }

  datatype Rotated16 = Rotated16(value: Reg, carry: bool)

  /** RLC on a word. */
  function Rlc16(r: Reg, carry: bool): Rotated16 {
    Rotated16(Reg((r.w << 1) | (if carry then 1 else 0)), Top(r))
  }

  lemma JoinedRotates(high: byte, low: byte, carry: bool)
    ensures Rlc16(Joined(high, low), carry).value ==
            Joined(Rlc(high, Rlc(low, carry).carry).value, Rlc(low, carry).value)
  {
  }

  /** Two rotations through the carry, which comes from the byte behind; what that one takes in does not matter. */
  lemma TwiceIn(high: byte, low: byte, c: bool, c': bool)
    ensures var l := Rlc(low, c);
            Rlc(Rlc(high, l.carry).value, Rlc(l.value, c').carry).value == TwoIn(high, low)
  {
  }

  /** The handle in the command: a word that takes in two bits of the next byte. */
  method ReceivedHandle(cmd: seq<byte>, carry: bool) returns (handle: Reg)
    requires ReadCommand(cmd)
    ensures handle == AddressedHandle(cmd)
  {
    hide TwoIn, Rlc, Rlc16, Top, Joined;
    var scratch0, scratch1 := Joined(cmd[3], cmd[4]), cmd[5];
    var s := Rlc(scratch1, carry);
    var t := Rlc16(scratch0, s.carry);
    var s' := Rlc(s.value, t.carry);
    var t' := Rlc16(t.value, s'.carry);
    handle := t'.value;
    ghost var low := Rlc(cmd[4], s.carry);
    ghost var high := Rlc(cmd[3], low.carry);
    JoinedRotates(cmd[3], cmd[4], s.carry);
    JoinedRotates(high.value, low.value, s'.carry);
    TwiceIn(cmd[3], cmd[4], s.carry, s'.carry);
    TwiceIn(cmd[4], cmd[5], carry, t.carry);
  }

  // ------------------------------------------------- fields as numbers

  function Bit(c: bool): nat { if c then 1 else 0 }

  /** The number these bits write, most significant first. */
  function Number(bits: seq<bool>): nat {
    if bits == [] then 0 else 2 * Number(bits[..|bits| - 1]) + Bit(bits[|bits| - 1])
  }

  lemma NumberNext(bits: seq<bool>, c: bool)
    ensures Number(bits + [c]) == 2 * Number(bits) + Bit(c)
  {
    assert (bits + [c])[..|bits|] == bits;
  }

  lemma NumberOfFour(bits: seq<bool>, a: bool, b: bool, c: bool, d: bool)
    ensures Number(bits + [a, b, c, d]) == 16 * Number(bits) + 8 * Bit(a) + 4 * Bit(b) + 2 * Bit(c) + Bit(d)
  {
    hide Number;
    NumberNext(bits, a);
    NumberNext(bits + [a], b);
    NumberNext(bits + [a] + [b], c);
    NumberNext(bits + [a] + [b] + [c], d);
    assert bits + [a] + [b] + [c] + [d] == bits + [a, b, c, d];
  }

  lemma ValueOfBits(x: byte)
    ensures x as int ==
            128 * Bit(x & 0x80 != 0) + 64 * Bit(x & 0x40 != 0) + 32 * Bit(x & 0x20 != 0) + 16 * Bit(x & 0x10 != 0)
            + 8 * Bit(x & 8 != 0) + 4 * Bit(x & 4 != 0) + 2 * Bit(x & 2 != 0) + Bit(x & 1 != 0)
  {
  }

  lemma FourAndFour(a: bool, b: bool, c: bool, d: bool, e: bool, f: bool, g: bool, h: bool)
    ensures [a, b, c, d, e, f, g, h] == [a, b, c, d] + [e, f, g, h]
  {
  }

  lemma BitsOfValue(x: byte) returns (a: bool, b: bool, c: bool, d: bool, e: bool, f: bool, g: bool, h: bool)
    ensures ByteBits(x) == [a, b, c, d, e, f, g, h]
    ensures x as int ==
            128 * Bit(a) + 64 * Bit(b) + 32 * Bit(c) + 16 * Bit(d) + 8 * Bit(e) + 4 * Bit(f) + 2 * Bit(g) + Bit(h)
  {
    hide Bit;
    a, b, c, d := x & 0x80 != 0, x & 0x40 != 0, x & 0x20 != 0, x & 0x10 != 0;
    e, f, g, h := x & 8 != 0, x & 4 != 0, x & 2 != 0, x & 1 != 0;
    ValueOfBits(x);
  }

  lemma NumberOfNibble(a: bool, b: bool, c: bool, d: bool)
    ensures Number([a, b, c, d]) == 8 * Bit(a) + 4 * Bit(b) + 2 * Bit(c) + Bit(d)
  {
    hide Bit, Number;
    NumberOfFour([], a, b, c, d);
    assert Number([]) == 0 by { NumberOfNone(); }
    assert [] + [a, b, c, d] == [a, b, c, d];
  }

  lemma NumberOfEight(a: bool, b: bool, c: bool, d: bool, e: bool, f: bool, g: bool, h: bool)
    ensures Number([a, b, c, d] + [e, f, g, h]) ==
            128 * Bit(a) + 64 * Bit(b) + 32 * Bit(c) + 16 * Bit(d) + 8 * Bit(e) + 4 * Bit(f) + 2 * Bit(g) + Bit(h)
  {
    hide Bit, Number;
    NumberOfNibble(a, b, c, d);
    NumberOfFour([a, b, c, d], e, f, g, h);
  }

  lemma NumberOfNone()
    ensures Number([]) == 0
  {
  }

  lemma NumberOfByte(x: byte)
    ensures Number(ByteBits(x)) == x as int
  {
    hide Bit, Number, ByteBits;
    var a, b, c, d, e, f, g, h := BitsOfValue(x);
    NumberOfEight(a, b, c, d, e, f, g, h);
    FourAndFour(a, b, c, d, e, f, g, h);
  }

  /** The memory bank that bits 8 and 9 of the command name. */
  function Bank(cmd: seq<byte>, banks: seq<seq<byte>>): seq<byte>
    requires ReadCommand(cmd) && |banks| == 4
  {
    var n := cmd[1] >> 6;
    if n == 1 then banks[1] else if n == 2 then banks[2] else if n == 3 then banks[3] else banks[0]
  }

  lemma BankLong(cmd: seq<byte>, banks: seq<seq<byte>>)
    requires ReadCommand(cmd) && |banks| == 4 && forall i :: 0 <= i < 4 ==> |banks[i]| >= 542
    ensures |Bank(cmd, banks)| >= 542
  {
  }

  /** Mask, clear the carry and rotate three times. */
  method MemBank(b: byte) returns (n: byte)
    ensures n == b >> 6
  {
    n := b & 0xC0;
    var s := Rlc(n, false);
    s := Rlc(s.value, s.carry);
    s := Rlc(s.value, s.carry);
    n := s.value;
  }

  method SwitchOnMemBank(cmd: seq<byte>, banks: seq<seq<byte>>) returns (bank: seq<byte>)
    requires ReadCommand(cmd) && |banks| == 4
    ensures bank == Bank(cmd, banks)
  {
    var n := MemBank(cmd[1]);
    if n == 0 { return banks[0]; }
    if n == 1 { return banks[1]; }
    if n == 2 { return banks[2]; }
    if n == 3 { return banks[3]; }
    return banks[0];
  }

  /** The words a Read asks for. */
  function Asked(cmd: seq<byte>, banks: seq<seq<byte>>): seq<byte>
    requires ReadCommand(cmd) && |banks| == 4 && forall i :: 0 <= i < 4 ==> |banks[i]| >= 542
    requires WordCt(cmd) <= 16
  {
    var from := 2 * (WordPtr(cmd) as int);
    Bank(cmd, banks)[from..from + 2 * (WordCt(cmd) as int)]
  }

  lemma CountBound(n: byte)
    requires n <= 16
    ensures n as int <= 16
  {
  }

  /** What a Read asks for, from its bits alone: memory bank, first word and number of words, high bits first. */
  function WordsNamed(bits: seq<bool>, banks: seq<seq<byte>>): seq<byte>
    requires |bits| >= 26 && |banks| == 4 && forall i :: 0 <= i < 4 ==> |banks[i]| >= 542
    requires Number(bits[10..18]) < 256 && Number(bits[18..26]) <= 16
  {
    var from := 2 * Number(bits[10..18]);
    banks[2 * Bit(bits[8]) + Bit(bits[9])][from..from + 2 * Number(bits[18..26])]
  }

  lemma BankIndex(b: byte)
    ensures b >> 6 == 0 || b >> 6 == 1 || b >> 6 == 2 || b >> 6 == 3
    ensures (b >> 6 == 2 || b >> 6 == 3) == (b & 0x80 != 0)
    ensures (b >> 6 == 1 || b >> 6 == 3) == (b & 0x40 != 0)
  {
  }

  lemma BankByBits(cmd: seq<byte>, banks: seq<seq<byte>>)
    requires ReadCommand(cmd) && |banks| == 4
    ensures Bank(cmd, banks) == banks[2 * Bit(Bits(cmd)[8]) + Bit(Bits(cmd)[9])]
  {
    hide Bits;
    BankIndex(cmd[1]);
    ByteAt(cmd, 1);
    assert Bits(cmd)[8] == Bits(cmd)[8..10][0] == ByteBits(cmd[1])[..2][0];
    assert Bits(cmd)[9] == Bits(cmd)[8..10][1] == ByteBits(cmd[1])[..2][1];
  }

  lemma PointerByBits(cmd: seq<byte>)
    requires ReadCommand(cmd)
    ensures Number(Bits(cmd)[10..18]) == WordPtr(cmd) as int
  {
    hide Bits, ByteBits, TwoIn, Number;
    FieldAt(cmd, 1);
    NumberOfByte(WordPtr(cmd));
  }

  lemma CountByBits(cmd: seq<byte>)
    requires ReadCommand(cmd)
    ensures Number(Bits(cmd)[18..26]) == WordCt(cmd) as int
  {
    hide Bits, ByteBits, TwoIn, Number;
    FieldAt(cmd, 2);
    NumberOfByte(WordCt(cmd));
  }

  /** For every command the words answered are those its bits name. */
  lemma AskedByBits(cmd: seq<byte>, banks: seq<seq<byte>>)
    requires ReadCommand(cmd) && |banks| == 4 && forall i :: 0 <= i < 4 ==> |banks[i]| >= 542
    requires WordCt(cmd) <= 16
    ensures Number(Bits(cmd)[10..18]) < 256 && Number(Bits(cmd)[18..26]) <= 16
    ensures Asked(cmd, banks) == WordsNamed(Bits(cmd), banks)
  {
    hide Bits, Bank, Number, WordPtr, WordCt, ByteBits, TwoIn, Bit;
    CountBound(WordCt(cmd));
    PointerByBits(cmd);
    CountByBits(cmd);
    BankByBits(cmd, banks);
  }

  lemma HandleBytes(h: Reg)
    ensures Joined(High(h), Low(h)) == h
  {
  }

  lemma ByteFromBits(a: byte, b: byte)
    requires ByteBits(a) == ByteBits(b)
    ensures a == b
  {
    hide Number;
    NumberOfByte(a);
    NumberOfByte(b);
  }

  lemma BitsOfTwo(a: byte, b: byte)
    ensures Bits([a, b]) == ByteBits(a) + ByteBits(b)
  {
    hide Bits, ByteBits;
    assert [a, b] == [a] + [b];
    BitsAppend([a], [b]);
    BitsOfOne(a);
    BitsOfOne(b);
  }

  /** A handle is known by its sixteen bits. */
  lemma HandleFromBits(g: Reg, h: Reg)
    requires WordBits(g, 16) == WordBits(h, 16)
    ensures g == h
  {
    hide WordBits, Bits, ByteBits, Joined, High, Low;
    WordBytes(g);
    WordBytes(h);
    BitsOfTwo(High(g), Low(g));
    BitsOfTwo(High(h), Low(h));
    var s, t := Bits(Bytes16(g)), Bits(Bytes16(h));
    assert ByteBits(High(g)) == s[..8] && ByteBits(High(h)) == t[..8];
    assert ByteBits(Low(g)) == s[8..] && ByteBits(Low(h)) == t[8..];
    ByteFromBits(High(g), High(h));
    ByteFromBits(Low(g), Low(h));
    HandleBytes(g);
    HandleBytes(h);
  }

  lemma NamedHandle(cmd: seq<byte>, handle: Reg)
    requires ReadCommand(cmd)
    ensures AddressedHandle(cmd) == handle <==> WordBits(handle, 16) == Bits(cmd)[26..42]
  {
    hide WordBits, Bits, ByteBits, AddressedHandle;
    FieldsOfCommand(cmd);
    if WordBits(handle, 16) == Bits(cmd)[26..42] { HandleFromBits(AddressedHandle(cmd), handle); }
  }

  /** The words asked for are the first behind the read pointer. */
  lemma AskedBehind(cmd: seq<byte>, banks: seq<seq<byte>>)
    requires ReadCommand(cmd) && |banks| == 4 && forall i :: 0 <= i < 4 ==> |banks[i]| >= 542
    requires WordCt(cmd) <= 16
    ensures |Bank(cmd, banks)| >= 542 && WordCt(cmd) as int <= 16
    ensures Bank(cmd, banks)[2 * (WordPtr(cmd) as int)..][..2 * (WordCt(cmd) as int)] == Asked(cmd, banks)
  {
    hide Bank, TwoIn;
    BankLong(cmd, banks);
    CountBound(WordCt(cmd));
    Behind(Bank(cmd, banks), 2 * (WordPtr(cmd) as int), 2 * (WordCt(cmd) as int));
  }

  lemma Behind(s: seq<byte>, from: nat, n: nat)
    requires from + n <= |s|
    ensures s[from..][..n] == s[from..from + n]
  {
  }

  /** Read pointer and word count. */
  method DecodeFields(cmd: seq<byte>, banks: seq<seq<byte>>, carry: bool) returns (mem: seq<byte>, wordCt: nat)
    requires ReadCommand(cmd) && |banks| == 4 && forall i :: 0 <= i < 4 ==> |banks[i]| >= 542
    requires WordCt(cmd) <= 16
    ensures |mem| >= 32 && wordCt <= 16 && mem[..2 * wordCt] == Asked(cmd, banks)
  {
    hide TwoIn, Bank;
    AskedBehind(cmd, banks);
    var bank := SwitchOnMemBank(cmd, banks);
    var wordPtr := ShiftTwoIn(cmd[1], cmd[2], carry);
    mem := bank[2 * (wordPtr as int)..];
    var count := ShiftTwoIn(cmd[2], cmd[3], carry);
    wordCt := count as int;
  }

  /** What a reader makes of a line: behind the header a 0, these bytes, this handle, and a CRC that checks. */
  ghost predicate ReadAs(line: seq<bool>, trext: bool, data: seq<byte>, handle: Reg) {
    var h := Fm0.HeaderLength(trext);
    && |line| > h + 1
    && var bits := Fm0.Decode(line[h..|line| - 1]);
       && |bits| == 1 + 8 * |data| + 32
       && bits[0] == false
       && bits[1..1 + 8 * |data|] == Bits(data)
       && bits[1 + 8 * |data|..17 + 8 * |data|] == WordBits(handle, 16)
       && Fold(PRESET, bits) == RESIDUE
  }

  /** The reply decodes to the bits, starts with a 0, and its CRC checks. */
  lemma ReaderAccepts(data: seq<byte>, handle: Reg, trext: bool)
    ensures ReadAs(Fm0.Waveform(trext, ReplyBits(data, handle)), trext, data, handle)
  {
    hide Fold, WordBits, Bits, Inv, Fm0.Waveform, Fm0.Decode;
    Fm0.DecodeWaveform(trext, ReplyBits(data, handle));
    ReplyChecks(data, handle);
  }

  /**
   * What is sent, in terms of the command's bits: nothing exactly if bits 26
   * to 42 are not the handle, else what a reader takes for the words of the
   * memory bank that bits 8 and 9 name, from the word on that bits 10 to 18
   * name, as many as bits 18 to 26 say.
   */
  ghost predicate AnswersCommand(line: seq<bool>, bits: seq<bool>, banks: seq<seq<byte>>, handle: Reg, trext: bool)
    requires |bits| >= 42 && |banks| == 4 && forall i :: 0 <= i < 4 ==> |banks[i]| >= 542
    requires Number(bits[10..18]) < 256 && Number(bits[18..26]) <= 16
  {
    if bits[26..42] != WordBits(handle, 16) then line == []
    else ReadAs(line, trext, WordsNamed(bits, banks), handle)
  }

  /**
   * The whole of it, for every memory content, handle and Read of up to 16
   * words: with another tag's handle in the command nothing is sent, else the
   * waveform of a 0 bit, the words asked for, the handle and the CRC over all
   * of it.
   */
  method HandleRead(cmd: seq<byte>, banks: seq<seq<byte>>, handle: Reg, trext: bool, carry: bool, rfidBuf: array<byte>)
    returns (line: seq<bool>)
    requires ReadCommand(cmd) && |banks| == 4 && forall i :: 0 <= i < 4 ==> |banks[i]| >= 542
    requires WordCt(cmd) <= 16 && rfidBuf.Length >= 38
    modifies rfidBuf
    ensures line == if AddressedHandle(cmd) != handle then []
                    else Fm0.Waveform(trext, ReplyBits(Asked(cmd, banks), handle))
    ensures Number(Bits(cmd)[10..18]) < 256 && Number(Bits(cmd)[18..26]) <= 16
    ensures AnswersCommand(line, Bits(cmd), banks, handle, trext)
  {
    hide ReplyBits, Fm0.Waveform, Fm0.SentBits, AddressedHandle, WordCt, Asked, ReadAs, Bits, Number, WordBits,
      WordsNamed;
    AskedByBits(cmd, banks);
    NamedHandle(cmd, handle);
    ReaderAccepts(Asked(cmd, banks), handle, trext);
    var mem, wordCt := DecodeFields(cmd, banks, carry);
    BuildReply(mem, handle, wordCt, rfidBuf);
    var received := ReceivedHandle(cmd, carry);
    line := [];
    if received == handle {
      var tx := new Fm0.Transmitter();
      tx.TxFm0(rfidBuf[..38], 2 * wordCt + 4, 1, trext);
      line := tx.line;
    }
  }
}
