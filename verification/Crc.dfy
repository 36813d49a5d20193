/**
 * The CRC-16 of the tag (client/wisp-base/Math/crc16_ccitt.asm), section
 * 6.3.1.5 of the EPC Class-1 Generation-2 protocol.  The byte step of the
 * CRC hardware is taken to be eight of the software bit steps.
 */
module Crc {
  import opened Base

  /** The 16-bit CRC register. */
  datatype Reg = Reg(w: bv16)

  const CCITT_POLY: bv16 := 0x1021
  const ZERO_BIT_CRC := Reg(0x1020)
  const PRESET := Reg(0xFFFF)
  /** What a receiver's register holds after an intact message with its CRC. */
  const RESIDUE := Reg(0x1D0F)

  // ------------------------------------------------------------ bit strings

  /** The bits of a byte, most significant first. */
  function ByteBits(b: byte): (s: seq<bool>)
    ensures |s| == 8
  {
    [b & 0x80 != 0, b & 0x40 != 0, b & 0x20 != 0, b & 0x10 != 0, b & 8 != 0, b & 4 != 0, b & 2 != 0, b & 1 != 0]
  }

  function Bits(s: seq<byte>): (t: seq<bool>)
    ensures |t| == 8 * |s|
  {
    if s == [] then [] else Bits(s[..|s| - 1]) + ByteBits(s[|s| - 1])
  }

  lemma {:induction false} BitsAppend(s: seq<byte>, t: seq<byte>)
    ensures Bits(s + t) == Bits(s) + Bits(t)
    decreases |t|
  {
    hide ByteBits;
    if t == [] {
      assert s + t == s;
    } else {
      var n := |t| - 1;
      assert (s + t)[..|s| + n] == s + t[..n];
      BitsAppend(s, t[..n]);
      assert Bits(s) + Bits(t[..n]) + ByteBits(t[n]) == Bits(s) + (Bits(t[..n]) + ByteBits(t[n]));
    }
  }

  lemma BitsOfOne(b: byte)
    ensures Bits([b]) == ByteBits(b)
  {
    assert [b][..0] == [];
    assert [] + ByteBits(b) == ByteBits(b);
  }

  // ------------------------------------------------------------- the register

  predicate Top(r: Reg) { r.w & 0x8000 != 0 }

  function Shift(r: Reg): Reg { Reg(r.w << 1) }

  function Tap(r: Reg): Reg { Reg(r.w ^ CCITT_POLY) }

  function Flip(r: Reg): Reg { Reg(r.w ^ 0x8000) }

  function Inv(r: Reg): Reg { Reg(!r.w) }

  function Xor(a: Reg, b: Reg): Reg { Reg(a.w ^ b.w) }

  /** One bit: XOR it in at the top, shift left, and XOR in the polynomial if a one came out. */
  function BitStep(crc: Reg, bit: bool): Reg {
    var c := if bit then Flip(crc) else crc;
    if Top(c) then Tap(Shift(c)) else Shift(c)
  }

  function Fold(crc: Reg, bits: seq<bool>): Reg
    decreases |bits|
  {
    if bits == [] then crc else BitStep(Fold(crc, bits[..|bits| - 1]), bits[|bits| - 1])
  }

  lemma FoldNothing(crc: Reg)
    ensures Fold(crc, []) == crc
  {
  }

  lemma FoldLast(crc: Reg, bits: seq<bool>)
    requires bits != []
    ensures Fold(crc, bits) == BitStep(Fold(crc, bits[..|bits| - 1]), bits[|bits| - 1])
  {
  }

  lemma FoldOne(crc: Reg, bit: bool)
    ensures Fold(crc, [bit]) == BitStep(crc, bit)
  {
    assert [bit][..0] == [];
  }

  lemma {:induction false} FoldAppend(crc: Reg, a: seq<bool>, b: seq<bool>)
    ensures Fold(crc, a + b) == Fold(Fold(crc, a), b)
    decreases |b|
  {
    hide BitStep;
    if b == [] {
      assert a + b == a;
    } else {
      var n := |b| - 1;
      assert (a + b)[..|a| + n] == a + b[..n];
      FoldAppend(crc, a, b[..n]);
    }
  }

  // --------------------------------------------------------------- linearity

  lemma FlipTop(r: Reg)
    ensures Shift(Flip(r)) == Shift(r) && Top(Flip(r)) == !Top(r)
  {
  }

  /** The top bit and the incoming bit decide about the polynomial; the rest shifts. */
  lemma StepForm(r: Reg, bit: bool)
    ensures BitStep(r, bit) == if Top(r) != bit then Tap(Shift(r)) else Shift(r)
  {
    hide Top, Shift, Flip, Tap;
    FlipTop(r);
  }

  lemma XorShift(x: Reg, y: Reg)
    ensures Shift(Xor(x, y)) == Xor(Shift(x), Shift(y))
  {
  }

  lemma XorTopOn(x: Reg, y: Reg)
    requires Top(x)
    ensures Top(Xor(x, y)) == !Top(y)
  {
  }

  lemma XorTopOff(x: Reg, y: Reg)
    requires !Top(x)
    ensures Top(Xor(x, y)) == Top(y)
  {
  }

  lemma XorTop(x: Reg, y: Reg)
    ensures Top(Xor(x, y)) == (Top(x) != Top(y))
  {
    hide Xor, Top;
    if Top(x) { XorTopOn(x, y); } else { XorTopOff(x, y); }
  }

  lemma XorTapLeft(x: Reg, y: Reg)
    ensures Xor(Tap(x), y) == Tap(Xor(x, y))
  {
  }

  lemma XorTapRight(x: Reg, y: Reg)
    ensures Xor(x, Tap(y)) == Tap(Xor(x, y))
  {
  }

  lemma XorTapBoth(x: Reg, y: Reg)
    ensures Xor(Tap(x), Tap(y)) == Xor(x, y)
  {
  }

  lemma StepLinear(x: Reg, y: Reg, a: bool, b: bool)
    ensures BitStep(Xor(x, y), a != b) == Xor(BitStep(x, a), BitStep(y, b))
  {
    hide BitStep, Top, Shift, Tap, Xor;
    StepForm(x, a);
    StepForm(y, b);
    StepForm(Xor(x, y), a != b);
    XorShift(x, y);
    XorTop(x, y);
    XorTapLeft(Shift(x), Shift(y));
    XorTapRight(Shift(x), Shift(y));
    XorTapBoth(Shift(x), Shift(y));
  }

  function XorBits(a: seq<bool>, b: seq<bool>): (c: seq<bool>)
    requires |a| == |b|
    ensures |c| == |a|
  {
    seq(|a|, i requires 0 <= i < |a| => a[i] != b[i])
  }

  /** The CRC is linear, in the register and in the bits. */
  lemma {:induction false} FoldLinear(x: Reg, y: Reg, a: seq<bool>, b: seq<bool>)
    requires |a| == |b|
    ensures Fold(Xor(x, y), XorBits(a, b)) == Xor(Fold(x, a), Fold(y, b))
    decreases |a|
  {
    hide BitStep, Fold, Xor;
    var c := XorBits(a, b);
    if a == [] {
      FoldNothing(x);
      FoldNothing(y);
      FoldNothing(Xor(x, y));
      assert c == [];
    } else {
      var n := |a| - 1;
      assert c[..n] == XorBits(a[..n], b[..n]) && c[n] == (a[n] != b[n]);
      FoldLast(Xor(x, y), c);
      FoldLast(x, a);
      FoldLast(y, b);
      FoldLinear(x, y, a[..n], b[..n]);
      StepLinear(Fold(x, a[..n]), Fold(y, b[..n]), a[n], b[n]);
    }
  }

  // ----------------------------------------------------------------- residue

  /** The first n bits of a word, most significant first. */
  function WordBits(r: Reg, n: nat): (t: seq<bool>)
    ensures |t| == n
    decreases n
  {
    if n == 0 then [] else [Top(r)] + WordBits(Shift(r), n - 1)
  }

  function Shifted(r: Reg, n: nat): Reg
    decreases n
  {
    if n == 0 then r else Shifted(Shift(r), n - 1)
  }

  /** A register fed its own bits only shifts. */
  lemma {:induction false} OwnBits(r: Reg, n: nat)
    ensures Fold(r, WordBits(r, n)) == Shifted(r, n)
    decreases n
  {
    hide BitStep, Top, Shift, Fold;
    if n == 0 {
      FoldNothing(r);
    } else {
      StepForm(r, Top(r));
      FoldOne(r, Top(r));
      FoldAppend(r, [Top(r)], WordBits(Shift(r), n - 1));
      OwnBits(Shift(r), n - 1);
    }
  }

  function Shift4(r: Reg): Reg { Reg(r.w << 4) }

  lemma ShiftFour(r: Reg)
    ensures Shift(Shift(Shift(Shift(r)))) == Shift4(r)
  {
  }

  lemma ShiftedFour(r: Reg, n: nat)
    ensures Shifted(r, n + 4) == Shifted(Shift4(r), n)
  {
    hide Shift, Shift4;
    ShiftFour(r);
    assert Shifted(r, n + 4) == Shifted(Shift(r), n + 3) == Shifted(Shift(Shift(r)), n + 2)
        == Shifted(Shift(Shift(Shift(r))), n + 1) == Shifted(Shift(Shift(Shift(Shift(r)))), n);
  }

  lemma NothingLeft(r: Reg)
    ensures Shift4(Shift4(Shift4(Shift4(r)))) == Reg(0)
  {
  }

  lemma ShiftedOut(r: Reg)
    ensures Shifted(r, 16) == Reg(0)
  {
    hide Shift4;
    ShiftedFour(r, 12);
    ShiftedFour(Shift4(r), 8);
    ShiftedFour(Shift4(Shift4(r)), 4);
    ShiftedFour(Shift4(Shift4(Shift4(r))), 0);
    NothingLeft(r);
  }

  function Ones(n: nat): (s: seq<bool>)
    ensures |s| == n
  {
    seq(n, i => true)
  }

  /** A word whose first n bits are ones. */
  function Mask(n: nat): Reg
    requires n <= 16
    decreases 16 - n
  {
    if n == 16 then Reg(0xFFFF) else Shift(Mask(n + 1))
  }

  lemma TopOfMask(n: nat)
    requires 0 < n <= 16
    ensures Top(Mask(n)) && Mask(n - 1) == Shift(Mask(n))
  {
    assert Mask(16) == Reg(0xFFFF) && Mask(15) == Reg(0xFFFE) && Mask(14) == Reg(0xFFFC) && Mask(13) == Reg(0xFFF8);
    assert Mask(12) == Reg(0xFFF0) && Mask(11) == Reg(0xFFE0) && Mask(10) == Reg(0xFFC0) && Mask(9) == Reg(0xFF80);
    assert Mask(8) == Reg(0xFF00) && Mask(7) == Reg(0xFE00) && Mask(6) == Reg(0xFC00) && Mask(5) == Reg(0xF800);
    assert Mask(4) == Reg(0xF000) && Mask(3) == Reg(0xE000) && Mask(2) == Reg(0xC000) && Mask(1) == Reg(0x8000);
  }

  /** Complementing a word complements its bits. */
  lemma {:induction false} ComplementBits(c: Reg, d: Reg, n: nat)
    requires n <= 16 && Xor(c, d) == Mask(n)
    ensures WordBits(d, n) == XorBits(WordBits(c, n), Ones(n))
    decreases n
  {
    hide Mask, Top, Shift, Xor;
    if n > 0 {
      XorShift(c, d);
      XorTop(c, d);
      TopOfMask(n);
      ComplementBits(Shift(c), Shift(d), n - 1);
      assert XorBits(WordBits(c, n), Ones(n)) == [!Top(c)] + XorBits(WordBits(Shift(c), n - 1), Ones(n - 1));
    }
  }

  lemma OnesStep(n: nat, before: Reg, after: Reg)
    requires Fold(Reg(0), Ones(n)) == before && BitStep(before, true) == after
    ensures Fold(Reg(0), Ones(n + 1)) == after
  {
    hide BitStep;
    assert Ones(n + 1)[..n] == Ones(n);
  }

  lemma NoOnes()
    ensures Fold(Reg(0), Ones(0)) == Reg(0)
  {
  }

  /** Sixteen ones run through an empty register. */
  lemma OnesResidue()
    ensures Fold(Reg(0), Ones(16)) == RESIDUE
  {
    hide Fold;
    NoOnes();
    OnesStep(0, Reg(0x0000), Reg(0x1021));
    OnesStep(1, Reg(0x1021), Reg(0x3063));
    OnesStep(2, Reg(0x3063), Reg(0x70E7));
    OnesStep(3, Reg(0x70E7), Reg(0xF1EF));
    OnesStep(4, Reg(0xF1EF), Reg(0xE3DE));
    OnesStep(5, Reg(0xE3DE), Reg(0xC7BC));
    OnesStep(6, Reg(0xC7BC), Reg(0x8F78));
    OnesStep(7, Reg(0x8F78), Reg(0x1EF0));
    OnesStep(8, Reg(0x1EF0), Reg(0x2DC1));
    OnesStep(9, Reg(0x2DC1), Reg(0x4BA3));
    OnesStep(10, Reg(0x4BA3), Reg(0x8767));
    OnesStep(11, Reg(0x8767), Reg(0x0ECE));
    OnesStep(12, Reg(0x0ECE), Reg(0x0DBD));
    OnesStep(13, Reg(0x0DBD), Reg(0x0B5B));
    OnesStep(14, Reg(0x0B5B), Reg(0x0697));
    OnesStep(15, Reg(0x0697), Reg(0x1D0F));
  }

  lemma Complement(r: Reg)
    ensures Xor(r, Inv(r)) == Mask(16)
  {
  }

  lemma XorZero(r: Reg)
    ensures Xor(r, Reg(0)) == r
  {
  }

  lemma ZeroXor(r: Reg)
    ensures Xor(Reg(0), r) == r
  {
  }

  /** Whatever the register holds: sending its complement brings it to the residue. */
  lemma Residue(r: Reg)
    ensures Fold(r, WordBits(Inv(r), 16)) == RESIDUE
  {
    hide Fold, WordBits, XorBits, Ones, Inv, Xor, Shifted;
    Complement(r);
    ComplementBits(r, Inv(r), 16);
    FoldLinear(r, Reg(0), WordBits(r, 16), Ones(16));
    OwnBits(r, 16);
    ShiftedOut(r);
    OnesResidue();
    XorZero(r);
    ZeroXor(RESIDUE);
  }

  // ------------------------------------------------------------ words as bytes

  function High(r: Reg): byte { (r.w >> 8) as byte }

  function Low(r: Reg): byte { (r.w & 0xFF) as byte }

  /** A word as two bytes, most significant first. */
  function Bytes16(r: Reg): (s: seq<byte>)
    ensures |s| == 2
  {
    [High(r), Low(r)]
  }

  lemma WordFirst(r: Reg, n: nat)
    requires n > 0
    ensures WordBits(r, n) == [Top(r)] + WordBits(Shift(r), n - 1)
  {
  }

  function TopFour(r: Reg): (s: seq<bool>)
    ensures |s| == 4
  {
    [r.w & 0x8000 != 0, r.w & 0x4000 != 0, r.w & 0x2000 != 0, r.w & 0x1000 != 0]
  }

  lemma TopBits(r: Reg)
    ensures TopFour(r) == [Top(r)] + [Top(Shift(r))] + [Top(Shift(Shift(r)))] + [Top(Shift(Shift(Shift(r))))]
  {
  }

  lemma WordFour(r: Reg, n: nat)
    ensures WordBits(r, n + 4) == TopFour(r) + WordBits(Shift4(r), n)
  {
    hide WordBits, Top, Shift, TopFour, Shift4;
    TopBits(r);
    ShiftFour(r);
    var r1, r2, r3 := Shift(r), Shift(Shift(r)), Shift(Shift(Shift(r)));
    WordFirst(r, n + 4);
    WordFirst(r1, n + 3);
    WordFirst(r2, n + 2);
    WordFirst(r3, n + 1);
  }

  lemma HighBits(r: Reg)
    ensures ByteBits(High(r)) == TopFour(r) + TopFour(Shift4(r))
  {
  }

  lemma LowBits(r: Reg)
    ensures ByteBits(Low(r)) == TopFour(Shift4(Shift4(r))) + TopFour(Shift4(Shift4(Shift4(r))))
  {
  }

  lemma WordBytes(r: Reg)
    ensures Bits(Bytes16(r)) == WordBits(r, 16)
  {
    hide ByteBits, WordBits, TopFour, High, Low, Shift4;
    var s := Bytes16(r);
    BitsOfTwo(High(r), Low(r));
    HighBits(r);
    LowBits(r);
    WordFour(r, 12);
    WordFour(Shift4(r), 8);
    WordFour(Shift4(Shift4(r)), 4);
    WordFour(Shift4(Shift4(Shift4(r))), 0);
    NoBits(Shift4(Shift4(Shift4(Shift4(r)))));
  }

  lemma BitsOfTwo(a: byte, b: byte)
    ensures Bits([a, b]) == ByteBits(a) + ByteBits(b)
  {
    hide ByteBits;
    assert [a, b][..1] == [a];
    BitsOfOne(a);
  }

  lemma NoBits(r: Reg)
    ensures WordBits(r, 0) == []
  {
  }

  // ------------------------------------------------------------- the routines

  /** ZERO_BIT_CRC is, in inverted form, the register after a single 0 bit. */
  lemma ZeroBitPreload()
    ensures Inv(ZERO_BIT_CRC) == Fold(PRESET, [false])
  {
    FoldOne(PRESET, false);
  }

  /** What crc16_ccitt computes: preload and result are in inverted form. */
  function Crc16(preload: Reg, bits: seq<bool>): Reg { Inv(Fold(Inv(preload), bits)) }

  /** crc16_ccitt: the hardware register takes in byte after byte.  It assumes at least one. */
  method Crc16Ccitt(preload: Reg, data: seq<byte>) returns (crc: Reg)
    requires data != []
    ensures crc == Crc16(preload, Bits(data))
  {
    hide Fold, BitStep, ByteBits, Inv;
    var inires, i := Inv(preload), 0;
    assert data[..0] == [];
    FoldNothing(Inv(preload));
    while true
      invariant i < |data| && inires == Fold(Inv(preload), Bits(data[..i]))
      decreases |data| - i
    {
      inires := ByteStep(inires, data[i]);
      TakeByte(Inv(preload), data, i);
      i := i + 1;
      if i == |data| { break; }
    }
    assert data[..i] == data;
    crc := Inv(inires);
  }

  /** One more byte of the data is eight more bits of its bit string. */
  lemma TakeByte(preload: Reg, data: seq<byte>, i: nat)
    requires i < |data|
    ensures Fold(preload, Bits(data[..i + 1])) == ByteStep(Fold(preload, Bits(data[..i])), data[i])
  {
    hide Fold, BitStep, ByteBits;
    assert data[..i + 1] == data[..i] + [data[i]];
    BitsAppend(data[..i], [data[i]]);
    BitsOfOne(data[i]);
    FoldAppend(preload, Bits(data[..i]), ByteBits(data[i]));
  }

  /** The byte step of the CRC hardware, taken to be eight bit steps. */
  function ByteStep(crc: Reg, b: byte): Reg { Fold(crc, ByteBits(b)) }

  function Msb(b: byte): bool { b & 0x80 != 0 }

  /** The bit that leaves is the first, and the others move up, whatever comes in below. */
  lemma BitLeaves(b: byte, carry: bool)
    ensures Msb(b) == ByteBits(b)[0]
    ensures ByteBits(Rlc(b, carry).value)[..7] == ByteBits(b)[1..]
  {
    if carry { } else { }
  }

  /** The bit loop's way of taking in one bit. */
  method TakeBit(crc: Reg, bit: bool) returns (next: Reg)
    ensures next == BitStep(crc, bit)
  {
    hide Top, Shift, Tap, Flip, Xor;
    var dataBit := if bit then Reg(0x8000) else Reg(0);
    XorZero(crc);
    XorFlip(crc);
    next := Xor(crc, dataBit);
    var carry := Top(next);
    next := Shift(next);
    if carry { next := Tap(next); }
  }

  lemma XorFlip(r: Reg)
    ensures Xor(r, Reg(0x8000)) == Flip(r)
  {
  }

  /** crc16Bits_ccitt: whole bytes first, then bits off the top of the next byte, up to eight. */
  method Crc16BitsCcitt(preload: Reg, data: seq<byte>, last: byte, numBits: nat) returns (crc: Reg)
    requires data != [] && 0 < numBits <= 8
    ensures crc == Crc16(preload, Bits(data) + ByteBits(last)[..numBits])
  {
    hide Fold, BitStep, ByteBits, Inv, Msb, Rlc;
    crc := Crc16Ccitt(preload, data);
    InvTwice(Fold(Inv(preload), Bits(data)));
    crc := Inv(crc);
    ghost var begin, bits := crc, ByteBits(last);
    var index, k := last, 0;
    FoldNothing(crc);
    assert bits[..0] == [] && bits[0..] == bits && bits[..8] == bits;
    while true
      invariant k < numBits && crc == Fold(begin, bits[..k]) && ByteBits(index)[..8 - k] == bits[k..]
      decreases numBits - k
    {
      var carry: bool := *;
      BitLeaves(index, carry);
      NextBit(index, Rlc(index, carry).value, bits, k);
      crc := TakeBit(crc, Msb(index));
      index := Rlc(index, carry).value;
      FoldLast(begin, bits[..k + 1]);
      assert bits[..k + 1][..k] == bits[..k];
      k := k + 1;
      if k == numBits { break; }
    }
    FoldAppend(Inv(preload), Bits(data), bits[..numBits]);
    crc := Inv(crc);
  }

  lemma InvTwice(r: Reg)
    ensures Inv(Inv(r)) == r
  {
  }

  lemma NextBit(index: byte, next: byte, bits: seq<bool>, k: nat)
    requires |bits| == 8 && k < 8 && ByteBits(index)[..8 - k] == bits[k..]
    requires ByteBits(next)[..7] == ByteBits(index)[1..]
    ensures ByteBits(index)[0] == bits[k]
    ensures ByteBits(next)[..7 - k] == bits[k + 1..]
  {
    hide ByteBits;
    var a, b := ByteBits(index), ByteBits(next);
    assert a[..8 - k][0] == bits[k..][0];
    forall j | 0 <= j < 7 - k ensures b[j] == bits[k + 1..][j] {
      assert b[j] == b[..7][j] == a[1..][j] == a[j + 1] == a[..8 - k][j + 1] == bits[k..][j + 1];
    }
  }
}
