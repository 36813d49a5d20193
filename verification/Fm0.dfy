/**
 * The FM0 line encoder (client/wisp-base/RFID/TxFM0.asm), section
 * 6.3.1.3.2.1 of the EPC Class-1 Generation-2 protocol.  The waveform is the
 * sequence of levels written to the transmit pin, one per half-bit.
 */
module Fm0 {
  import opened Base
  import opened Crc

  // ------------------------------------------------------------ the encoding

  /** A symbol inverts the level at its boundary, and in its middle exactly for a 0. */
  function Symbol(level: bool, bit: bool): (s: seq<bool>)
    ensures |s| == 2
  {
    [!level, if bit then !level else level]
  }

  /** The level a symbol ends at. */
  function LevelAfter(level: bool, bit: bool): bool { Symbol(level, bit)[1] }

  function EndLevel(level: bool, bits: seq<bool>): bool
    decreases |bits|
  {
    if bits == [] then level else LevelAfter(EndLevel(level, bits[..|bits| - 1]), bits[|bits| - 1])
  }

  function Encode(level: bool, bits: seq<bool>): (s: seq<bool>)
    ensures |s| == 2 * |bits|
    decreases |bits|
  {
    if bits == [] then [] else
    var n := |bits| - 1;
    Encode(level, bits[..n]) + Symbol(EndLevel(level, bits[..n]), bits[n])
  }

  /** A receiver's view: a bit is 1 if its two half-bits are alike. */
  function Decode(s: seq<bool>): (bits: seq<bool>)
    ensures |bits| == |s| / 2
  {
    seq(|s| / 2, i requires 0 <= i < |s| / 2 => s[2 * i] == s[2 * i + 1])
  }

  /** The level changes at the begin of every symbol. */
  ghost predicate InvertsAtBoundaries(level: bool, s: seq<bool>) {
    forall i {:trigger s[2 * i]} :: 0 <= 2 * i < |s| ==> s[2 * i] != (if i == 0 then level else s[2 * i - 1])
  }

  const PREAMBLE: seq<bool> := [true, true, false, true, false, false, true, false, false, false, true, true]

  /** n times high then low. */
  function Tones(n: nat): (s: seq<bool>) {
    if n == 0 then [] else Tones(n - 1) + [true, false]
  }

  /** The whole transmission: pilot tones if asked for, preamble, symbols, end of signalling. */
  function Waveform(trext: bool, bits: seq<bool>): seq<bool> {
    (if trext then Tones(12) else []) + PREAMBLE + Encode(true, bits) + [!EndLevel(true, bits)]
  }

  // -------------------------------------------------------------- properties

  lemma EncodeOneMore(level: bool, bits: seq<bool>, bit: bool)
    ensures Encode(level, bits + [bit]) == Encode(level, bits) + Symbol(EndLevel(level, bits), bit)
    ensures EndLevel(level, bits + [bit]) == LevelAfter(EndLevel(level, bits), bit)
  {
    assert (bits + [bit])[..|bits|] == bits;
  }

  /** The symbols one by one. */
  lemma {:induction false} SymbolAt(level: bool, bits: seq<bool>, i: nat)
    requires i < |bits|
    ensures var s := Encode(level, bits);
            && s[2 * i] == !EndLevel(level, bits[..i]) && (s[2 * i] == s[2 * i + 1] <==> bits[i])
            && s[2 * i + 1] == EndLevel(level, bits[..i + 1])
    decreases |bits|
  {
    var n := |bits| - 1;
    var a := Encode(level, bits[..n]);
    if i < n {
      SymbolAt(level, bits[..n], i);
      assert bits[..n][..i] == bits[..i] && bits[..n][..i + 1] == bits[..i + 1];
    } else {
      assert bits[..n + 1] == bits;
    }
  }

  lemma DecodeEncode(level: bool, bits: seq<bool>)
    ensures Decode(Encode(level, bits)) == bits
  {
    hide Encode;
    var d := Decode(Encode(level, bits));
    forall i | 0 <= i < |bits| ensures d[i] == bits[i] { SymbolAt(level, bits, i); }
  }

  /** Every symbol, and the end of signalling, begins with a change of level. */
  lemma EncodeInverts(level: bool, bits: seq<bool>)
    ensures InvertsAtBoundaries(level, Encode(level, bits) + [!EndLevel(level, bits)])
  {
    hide Encode, EndLevel;
    var s := Encode(level, bits) + [!EndLevel(level, bits)];
    forall i {:trigger s[2 * i]} | 0 <= 2 * i < |s| ensures s[2 * i] != (if i == 0 then level else s[2 * i - 1]) {
      if i < |bits| { SymbolAt(level, bits, i); }
      assert bits[..|bits|] == bits;
      if i == 0 { NoBitsYet(level, bits); } else { SymbolAt(level, bits, i - 1); }
    }
  }

  lemma NoBitsYet(level: bool, bits: seq<bool>)
    ensures EndLevel(level, bits[..0]) == level
  {
  }

  /** Where the symbols lie in the waveform. */
  function HeaderLength(trext: bool): nat { (if trext then 24 else 0) + 12 }

  lemma {:induction false} TonesLength(n: nat)
    ensures |Tones(n)| == 2 * n
  {
    if n > 0 { TonesLength(n - 1); }
  }

  lemma Sandwich(a: seq<bool>, s: seq<bool>, b: bool)
    ensures var w := a + s + [b]; w[|a|..|w| - 1] == s && w[|a|..] == s + [b]
    ensures a != [] ==> (a + s + [b])[|a| - 1] == a[|a| - 1]
  {
  }

  /** Cutting the header and the end off a waveform and decoding pair by pair gives the bits back. */
  lemma DecodeWaveform(trext: bool, bits: seq<bool>)
    ensures var w, h := Waveform(trext, bits), HeaderLength(trext);
            && |w| == h + 2 * |bits| + 1
            && Decode(w[h..|w| - 1]) == bits
            && InvertsAtBoundaries(w[h - 1], w[h..])
  {
    hide Encode, EndLevel, Tones, Decode, InvertsAtBoundaries;
    TonesLength(12);
    DecodeEncode(true, bits);
    EncodeInverts(true, bits);
    var header := (if trext then Tones(12) else []) + PREAMBLE;
    assert |header| == HeaderLength(trext) && header[|header| - 1] == true;
    Sandwich(header, Encode(true, bits), !EndLevel(true, bits));
  }

  // --------------------------------------------------------------- the header

  /** The level changes at the begin of every symbol, the first beginning from low, with the one exception at k. */
  ghost predicate InvertsExceptAt(s: seq<bool>, k: nat) {
    forall i {:trigger s[2 * i]} :: 0 <= 2 * i < |s| ==>
      (s[2 * i] != (if i == 0 then false else s[2 * i - 1]) <==> 2 * i != k)
  }

  lemma {:induction false} ToneAt(n: nat, i: nat)
    requires i < n
    ensures |Tones(n)| == 2 * n && Tones(n)[2 * i] && !Tones(n)[2 * i + 1]
    decreases n
  {
    TonesLength(n - 1);
    if i < n - 1 { ToneAt(n - 1, i); }
  }

  /** The preamble symbol by symbol: 1, 0, 1, 0, the violation, 1. */
  lemma PreambleReads()
    ensures |PREAMBLE| == 12 && InvertsExceptAt(PREAMBLE, 8) && PREAMBLE[11]
    ensures Decode(PREAMBLE) == [true, false, true, false, true, true]
  {
    forall i {:trigger PREAMBLE[2 * i]} | 0 <= 2 * i < |PREAMBLE|
      ensures PREAMBLE[2 * i] != (if i == 0 then false else PREAMBLE[2 * i - 1]) <==> 2 * i != 8
    {
      assert i == 0 || i == 1 || i == 2 || i == 3 || i == 4 || i == 5;
    }
  }

  function Zeros(n: nat): (s: seq<bool>)
    ensures |s| == n && forall i :: 0 <= i < n ==> !s[i]
  {
    seq(n, _ => false)
  }

  lemma TonesRead(n: nat)
    ensures |Tones(n)| == 2 * n && Decode(Tones(n)) == Zeros(n)
    ensures n > 0 ==> !Tones(n)[2 * n - 1]
    ensures forall i {:trigger Tones(n)[2 * i]} :: 0 <= i < n ==>
              Tones(n)[2 * i] != (if i == 0 then false else Tones(n)[2 * i - 1])
  {
    hide Tones;
    TonesLength(n);
    forall i | 0 <= i < n ensures Tones(n)[2 * i] && !Tones(n)[2 * i + 1] { ToneAt(n, i); }
    forall i {:trigger Tones(n)[2 * i]} | 0 < i < n ensures !Tones(n)[2 * i - 1] { ToneAt(n, i - 1); }
    if n > 0 { ToneAt(n, n - 1); }
  }

  /** Pilot tones, preamble and symbols behind one another, boundary by boundary. */
  lemma InvertsJoined(tones: seq<bool>, preamble: seq<bool>, symbols: seq<bool>)
    requires |tones| % 2 == 0 && |preamble| == 12 && preamble[11]
    requires tones != [] ==> !tones[|tones| - 1]
    requires forall i {:trigger tones[2 * i]} :: 0 <= 2 * i < |tones| ==>
               tones[2 * i] != (if i == 0 then false else tones[2 * i - 1])
    requires InvertsExceptAt(preamble, 8) && InvertsAtBoundaries(true, symbols)
    ensures InvertsExceptAt(tones + preamble + symbols, |tones| + 8)
  {
    var w, n := tones + preamble + symbols, |tones|;
    forall i {:trigger w[2 * i]} | 0 <= 2 * i < |w|
      ensures w[2 * i] != (if i == 0 then false else w[2 * i - 1]) <==> 2 * i != n + 8
    {
      if 2 * i < n {
        assert w[2 * i] == tones[2 * i];
      } else if 2 * i < n + 12 {
        var j := i - n / 2;
        assert w[2 * i] == preamble[2 * j];
      } else {
        var j := i - n / 2 - 6;
        assert w[2 * i] == symbols[2 * j];
      }
    }
  }

  /**
   * What a reader looks for in front of the data: with pilot tones twelve
   * zeros, then 1, 0, 1, 0, a symbol of equal half-bits, and 1; and in the
   * whole waveform the level changes at every symbol boundary but that of the
   * fifth preamble symbol.
   */
  lemma HeaderReads(trext: bool, bits: seq<bool>)
    ensures var w, h := Waveform(trext, bits), HeaderLength(trext);
            && |w| > h && InvertsExceptAt(w, h - 4)
            && Decode(w[..h - 12]) == Zeros(if trext then 12 else 0)
            && Decode(w[h - 12..h]) == [true, false, true, false, true, true]
  {
    hide Encode, EndLevel, Tones, Decode, InvertsAtBoundaries, InvertsExceptAt;
    var tones := if trext then Tones(12) else [];
    TonesRead(12);
    PreambleReads();
    EncodeInverts(true, bits);
    var symbols := Encode(true, bits) + [!EndLevel(true, bits)];
    NothingDecoded();
    InvertsJoined(tones, PREAMBLE, symbols);
    var w := Waveform(trext, bits);
    assert w == tones + PREAMBLE + symbols;
    assert w[..|tones|] == tones && w[|tones|..|tones| + 12] == PREAMBLE;
  }

  lemma NothingDecoded()
    ensures Decode([]) == Zeros(0)
  {
  }

  // -------------------------------------------------- levels and registers

  /** The transmit pin is bit 7 of what is written to the port. */
  predicate Pin(r: Reg) { r.w & 0x80 != 0 }

  /** MOV.B from memory clears the upper byte. */
  function Load(b: byte): Reg { Reg(b as bv16) }

  lemma PinInv(r: Reg)
    ensures Pin(Inv(r)) == !Pin(r)
  {
  }

  lemma PinXorOn(x: Reg, y: Reg)
    requires Pin(x)
    ensures Pin(Xor(x, y)) == !Pin(y)
  {
  }

  lemma PinXorOff(x: Reg, y: Reg)
    requires !Pin(x)
    ensures Pin(Xor(x, y)) == Pin(y)
  {
  }

  lemma PinXor(x: Reg, y: Reg)
    ensures Pin(Xor(x, y)) == (Pin(x) != Pin(y))
  {
    hide Pin, Xor;
    if Pin(x) { PinXorOn(x, y); } else { PinXorOff(x, y); }
  }

  /** The bits the transmitter takes off a byte: its own, then zeros. */
  function TrailingBits(b: byte, n: nat): (s: seq<bool>)
    ensures |s| == n
  {
    seq(n, k requires 0 <= k < n => k < 8 && ByteBits(b)[k])
  }

  lemma {:induction false} ShiftedLast(r: Reg, n: nat)
    ensures Shift(Shifted(r, n)) == Shifted(r, n + 1)
    decreases n
  {
    hide Shift;
    if n > 0 { ShiftedLast(Shift(r), n - 1); }
  }

  /** The pin after k shifts: bit k of the byte counted from the top, and nothing after the eighth. */
  lemma {:induction false} PinShifted(b: byte, k: nat)
    ensures Pin(Shifted(Load(b), k)) == (k < 8 && ByteBits(b)[k])
    ensures k >= 8 ==> LowClear(Shifted(Load(b), k))
    decreases k
  {
    hide Pin, Shift, Load, ByteBits, LowClear;
    if k <= 8 {
      PinEarly(b, k);
    } else {
      PinShifted(b, k - 1);
      ShiftedLast(Load(b), k - 1);
      ClearShift(Shifted(Load(b), k - 1));
    }
  }

  predicate LowClear(r: Reg) { r.w & 0xFF == 0 }

  lemma ClearShift(r: Reg)
    requires LowClear(r)
    ensures LowClear(Shift(r)) && !Pin(Shift(r))
  {
  }

  lemma PinEarly(b: byte, k: nat)
    requires k <= 8
    ensures Pin(Shifted(Load(b), k)) == (k < 8 && ByteBits(b)[k])
    ensures k == 8 ==> LowClear(Shifted(Load(b), k))
  {
    hide Shift, Pin, LowClear, ByteBits;
    var r0 := Load(b);
    var r1 := Shift(r0);
    var r2 := Shift(r1);
    var r3 := Shift(r2);
    var r4 := Shift(r3);
    PinFour(b);
    PinEight(b);
    assert Shifted(r0, 0) == r0 && Shifted(r0, 1) == r1 && Shifted(r0, 2) == r2 && Shifted(r0, 3) == r3;
    assert Shifted(r0, 4) == r4;
    assert Shifted(r4, 1) == Shift(r4) && Shifted(r4, 2) == Shift(Shift(r4));
    assert Shifted(r4, 3) == Shift(Shift(Shift(r4))) && Shifted(r4, 4) == Shift(Shift(Shift(Shift(r4))));
    assert Shifted(r0, 5) == Shifted(r4, 1) && Shifted(r0, 6) == Shifted(r4, 2);
    assert Shifted(r0, 7) == Shifted(r4, 3) && Shifted(r0, 8) == Shifted(r4, 4);
  }

  lemma PinFour(b: byte)
    ensures var r := Load(b);
            && Pin(r) == ByteBits(b)[0] && Pin(Shift(r)) == ByteBits(b)[1]
            && Pin(Shift(Shift(r))) == ByteBits(b)[2] && Pin(Shift(Shift(Shift(r)))) == ByteBits(b)[3]
  {
  }

  lemma PinEight(b: byte)
    ensures var r := Shift(Shift(Shift(Shift(Load(b)))));
            && Pin(r) == ByteBits(b)[4] && Pin(Shift(r)) == ByteBits(b)[5]
            && Pin(Shift(Shift(r))) == ByteBits(b)[6] && Pin(Shift(Shift(Shift(r)))) == ByteBits(b)[7]
            && !Pin(Shift(Shift(Shift(Shift(r))))) && LowClear(Shift(Shift(Shift(Shift(r)))))
  {
  }

  // -------------------------------------------------------------- TxFM0

  /** The transmitter's registers, and the levels put on the pin so far. */
  class Transmitter {
    var prevState: Reg
    var scratch0: Reg
    var currByte: Reg
    var line: seq<bool>

    constructor ()
      ensures line == []
    {
      prevState, scratch0, currByte, line := Reg(0), Reg(0), Reg(0), [];
    }

    /** The symbols sent since `begin` encode `bits`, and the registers are ready for the next. */
    ghost predicate Sent(begin: seq<bool>, level: bool, bits: seq<bool>)
      reads this
    {
      line == begin + Encode(level, bits) && Pin(prevState) == EndLevel(level, bits)
    }

    method Out(v: Reg)
      modifies this`line
      ensures line == old(line) + [Pin(v)]
    {
      line := line + [Pin(v)];
    }

    method SendPilotTones()
      modifies this`line
      ensures line == old(line) + Tones(12)
    {
      var tones := 12;
      ghost var begin := line;
      assert begin + Tones(0) == begin;
      while tones != 0
        invariant 0 <= tones <= 12 && line == begin + Tones(12 - tones)
        decreases tones
      {
        ghost var before := line;
        Out(Reg(0xFF));
        Out(Reg(0));
        assert line == before + [true, false];
        assert before + [true, false] == begin + (Tones(12 - tones) + [true, false]);
        tones := tones - 1;
      }
    }

    method SendPreamble()
      modifies this`line, this`prevState, this`scratch0
      ensures line == old(line) + PREAMBLE
      ensures Pin(prevState) && scratch0 == prevState
    {
      ghost var begin := line;
      var high, low := Reg(0xFF), Reg(0);
      Out(high); Out(high);
      Out(low); Out(high);
      Out(low); Out(low);
      Out(high); Out(low);
      Out(low); Out(low);
      Out(high); Out(high);
      prevState := Reg(0xFF);
      scratch0 := prevState;
      assert line == begin + PREAMBLE;
    }

    /** One symbol, for the bit at the pin's place in the current byte. */
    method SendSymbol(ghost begin: seq<bool>, ghost level: bool, ghost bits: seq<bool>)
      requires scratch0 == prevState && Sent(begin, level, bits)
      modifies this`scratch0, this`line, this`prevState
      ensures Sent(begin, level, bits + [Pin(currByte)])
    {
      hide Pin, Inv, Xor, Encode, EndLevel;
      ghost var before, bit := line, Pin(currByte);
      PinInv(prevState);
      PinXor(prevState, currByte);
      scratch0 := Inv(scratch0);
      Out(scratch0);
      prevState := Xor(prevState, currByte);
      Out(prevState);
      assert line == before + Symbol(EndLevel(level, bits), bit);
      EncodeOneMore(level, bits, bit);
      assert before + Symbol(EndLevel(level, bits), bit) == begin + Encode(level, bits + [bit]);
    }

    /** Move the next bit into place and send it. */
    method SendNextSymbol(ghost begin: seq<bool>, ghost level: bool, ghost bits: seq<bool>, ghost b: byte, ghost k: nat)
      requires Sent(begin, level, bits + TrailingBits(b, k)) && k > 0
      requires currByte == Shifted(Load(b), k - 1)
      modifies this`currByte, this`scratch0, this`line, this`prevState
      ensures Sent(begin, level, bits + TrailingBits(b, k + 1))
      ensures currByte == Shifted(Load(b), k)
    {
      hide Pin, Shift, Load, Encode, EndLevel;
      ShiftedLast(Load(b), k - 1);
      PinShifted(b, k);
      currByte := Shift(currByte);
      scratch0 := prevState;
      SendSymbol(begin, level, bits + TrailingBits(b, k));
      OneMore(bits, b, k);
    }

    lemma OneMore(bits: seq<bool>, b: byte, k: nat)
      ensures bits + TrailingBits(b, k) + [k < 8 && ByteBits(b)[k]] == bits + TrailingBits(b, k + 1)
    {
    }

    /** The first bit of a byte just loaded. */
    method SendFirstSymbol(b: byte, ghost begin: seq<bool>, ghost level: bool, ghost bits: seq<bool>)
      requires scratch0 == prevState && Sent(begin, level, bits)
      modifies this`currByte, this`scratch0, this`line, this`prevState
      ensures Sent(begin, level, bits + TrailingBits(b, 1)) && currByte == Shifted(Load(b), 0)
    {
      hide Pin, Load, Encode, EndLevel, ByteBits;
      PinShifted(b, 0);
      currByte := Load(b);
      assert Shifted(Load(b), 0) == Load(b);
      SendSymbol(begin, level, bits);
      assert TrailingBits(b, 1) == [ByteBits(b)[0]];
    }

    lemma WholeByte(b: byte)
      ensures TrailingBits(b, 8) == ByteBits(b)
    {
    }

    /** The unrolled eight bits of a byte. */
    method SendByte(b: byte, ghost begin: seq<bool>, ghost level: bool, ghost bits: seq<bool>)
      requires scratch0 == prevState && Sent(begin, level, bits)
      modifies this`currByte, this`scratch0, this`line, this`prevState
      ensures Sent(begin, level, bits + ByteBits(b)) && scratch0 == prevState
    {
      hide Sent, TrailingBits, ByteBits, Shifted, Load;
      SendFirstSymbol(b, begin, level, bits);
      SendNextSymbol(begin, level, bits, b, 1);
      SendNextSymbol(begin, level, bits, b, 2);
      SendNextSymbol(begin, level, bits, b, 3);
      SendNextSymbol(begin, level, bits, b, 4);
      SendNextSymbol(begin, level, bits, b, 5);
      SendNextSymbol(begin, level, bits, b, 6);
      SendNextSymbol(begin, level, bits, b, 7);
      WholeByte(b);
      Ready(begin, level, bits + ByteBits(b));
    }

    /** The level is copied for the next symbol. */
    method Ready(ghost begin: seq<bool>, ghost level: bool, ghost bits: seq<bool>)
      requires Sent(begin, level, bits)
      modifies this`scratch0
      ensures Sent(begin, level, bits) && scratch0 == prevState
    {
      scratch0 := prevState;
    }

    /** The loop over whole bytes; the count is looked at after each. */
    method SendBytes(data: seq<byte>, byteCt: nat, ghost begin: seq<bool>, ghost level: bool)
      requires 0 < byteCt <= |data| && scratch0 == prevState && Sent(begin, level, [])
      modifies this`currByte, this`scratch0, this`line, this`prevState
      ensures Sent(begin, level, Bits(data[..byteCt])) && scratch0 == prevState
    {
      hide Sent, ByteBits;
      var i := 0;
      assert Bits(data[..0]) == [];
      while true
        invariant i < byteCt && scratch0 == prevState && Sent(begin, level, Bits(data[..i]))
        decreases byteCt - i
      {
        SendByte(data[i], begin, level, Bits(data[..i]));
        assert data[..i + 1][..i] == data[..i];
        i := i + 1;
        if i == byteCt { break; }
      }
    }

    /** The loop over the bits of the last byte. */
    method SendLastBits(b: byte, bitCt: nat, ghost begin: seq<bool>, ghost level: bool, ghost bits: seq<bool>)
      requires bitCt > 0 && scratch0 == prevState && Sent(begin, level, bits)
      modifies this`currByte, this`scratch0, this`line, this`prevState
      ensures Sent(begin, level, bits + TrailingBits(b, bitCt))
    {
      hide Sent, TrailingBits, Shifted, Load;
      SendFirstSymbol(b, begin, level, bits);
      var k := 1;
      while k < bitCt
        invariant 0 < k <= bitCt && Sent(begin, level, bits + TrailingBits(b, k))
        invariant currByte == Shifted(Load(b), k - 1)
      {
        SendNextSymbol(begin, level, bits, b, k);
        k := k + 1;
      }
    }

    method SendEndOfSignalling(ghost begin: seq<bool>, ghost level: bool, ghost bits: seq<bool>)
      requires Sent(begin, level, bits)
      modifies this`scratch0, this`line
      ensures line == begin + (Encode(level, bits) + [!EndLevel(level, bits)])
    {
      hide Pin, Inv;
      PinInv(prevState);
      scratch0 := prevState;
      scratch0 := Inv(scratch0);
      Out(scratch0);
      assert begin + Encode(level, bits) + [!EndLevel(level, bits)] ==
             begin + (Encode(level, bits) + [!EndLevel(level, bits)]);
    }

    method SendHeader(trext: bool)
      requires line == []
      modifies this`line, this`prevState, this`scratch0
      ensures line == (if trext then Tones(12) else []) + PREAMBLE
      ensures Pin(prevState) && scratch0 == prevState
    {
      hide Pin;
      if trext { SendPilotTones(); }
      assert line == if trext then Tones(12) else [];
      SendPreamble();
    }

    /** The three versions of the transmission. */
    method SendBytesAndBits(data: seq<byte>, numBytes: nat, numBits: nat, trext: bool)
      requires 0 < numBytes < |data| && numBits > 0 && line == []
      modifies this
      ensures line == Waveform(trext, Bits(data[..numBytes]) + TrailingBits(data[numBytes], numBits))
    {
      hide Pin, Tones, Bits, TrailingBits;
      SendHeader(trext);
      ghost var begin := line;
      assert begin + [] == begin;
      SendBytes(data, numBytes, begin, true);
      SendLastBits(data[numBytes], numBits, begin, true, Bits(data[..numBytes]));
      SendEndOfSignalling(begin, true, Bits(data[..numBytes]) + TrailingBits(data[numBytes], numBits));
      assert line == begin + Encode(true, Bits(data[..numBytes]) + TrailingBits(data[numBytes], numBits))
                     + [!EndLevel(true, Bits(data[..numBytes]) + TrailingBits(data[numBytes], numBits))];
    }

    method SendOnlyBytes(data: seq<byte>, numBytes: nat, trext: bool)
      requires 0 < numBytes <= |data| && line == []
      modifies this
      ensures line == Waveform(trext, Bits(data[..numBytes]))
    {
      hide Pin, Tones, Bits;
      SendHeader(trext);
      ghost var begin := line;
      assert begin + [] == begin;
      SendBytes(data, numBytes, begin, true);
      SendEndOfSignalling(begin, true, Bits(data[..numBytes]));
      assert line == begin + Encode(true, Bits(data[..numBytes])) + [!EndLevel(true, Bits(data[..numBytes]))];
    }

    method SendOnlyBits(data: seq<byte>, numBits: nat, trext: bool)
      requires 0 < numBits && data != [] && line == []
      modifies this
      ensures line == Waveform(trext, TrailingBits(data[0], numBits))
    {
      hide Pin, Tones, TrailingBits;
      SendHeader(trext);
      ghost var begin := line;
      assert begin + [] == begin;
      SendLastBits(data[0], numBits, begin, true, []);
      assert [] + TrailingBits(data[0], numBits) == TrailingBits(data[0], numBits);
      SendEndOfSignalling(begin, true, TrailingBits(data[0], numBits));
      assert line == begin + Encode(true, TrailingBits(data[0], numBits)) +
                     [!EndLevel(true, TrailingBits(data[0], numBits))];
    }

    /** TxFM0; with neither bytes nor bits nobody is to call it. */
    method TxFm0(data: seq<byte>, numBytes: nat, numBits: nat, trext: bool)
      requires 0 < numBytes + numBits && numBytes < 256 && numBits < 256 && line == []
      requires numBytes + (if numBits > 0 then 1 else 0) <= |data|
      modifies this
      ensures line == Waveform(trext, SentBits(data, numBytes, numBits))
      ensures InvertsExceptAt(line, HeaderLength(trext) - 4)
    {
      hide Waveform, Bits, TrailingBits, InvertsExceptAt;
      HeaderReads(trext, SentBits(data, numBytes, numBits));
      if numBytes != 0 && numBits != 0 {
        SendBytesAndBits(data, numBytes, numBits, trext);
      } else if numBytes == 0 && numBits != 0 {
        SendOnlyBits(data, numBits, trext);
        assert Bits(data[..0]) + TrailingBits(data[0], numBits) == TrailingBits(data[0], numBits) by { NoBits(data); }
      } else {
        SendOnlyBytes(data, numBytes, trext);
        assert Bits(data[..numBytes]) + [] == Bits(data[..numBytes]);
      }
    }

    lemma NoBits(data: seq<byte>)
      ensures Bits(data[..0]) == []
    {
    }
  }

  /** The bits a transmission carries: whole bytes, then bits off the top of the next byte. */
  function SentBits(data: seq<byte>, numBytes: nat, numBits: nat): seq<bool>
    requires numBytes + (if numBits > 0 then 1 else 0) <= |data|
  {
    Bits(data[..numBytes]) + if numBits > 0 then TrailingBits(data[numBytes], numBits) else []
  }
}
