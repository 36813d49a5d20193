/** Shared vocabulary: bytes, optional values, 16-bit little-endian words, insertion and rotation. */
module Base {
  type byte = bv8

  type U16 = n: int | 0 <= n < 0x10000

  datatype Option<+T> = None | Some(value: T)

  function InsertAt<T>(s: seq<T>, p: nat, x: T): seq<T>
    requires p <= |s|
  {
    s[..p] + [x] + s[p..]
  }

  datatype Rotated = Rotated(value: byte, carry: bool)

  /** RLC.B: rotate left through carry. */
  function Rlc(b: byte, carry: bool): Rotated {
    Rotated((b << 1) | (if carry then 1 else 0), b & 0x80 != 0)
  }

  /** RRC.B: rotate right through carry. */
  function Rrc(b: byte, carry: bool): Rotated {
    Rotated((b >> 1) | (if carry then 0x80 else 0), b & 1 != 0)
  }

  function ByteOf(n: int): byte
    requires 0 <= n < 256
  {
    n as bv8
  }

  /** The two bytes of a 16-bit word in memory order, low byte first. */
  function Le16(n: U16): (b: seq<byte>)
    ensures |b| == 2
  {
    [ByteOf(n % 256), ByteOf(n / 256)]
  }

  function Word(low: byte, high: byte): (n: U16) {
    low as int + 256 * (high as int)
  }

  lemma ByteRoundTrip(n: int)
    requires 0 <= n < 256
    ensures (n as bv8) as int == n
  {
    // the solver converts small ranges quickly
    match n / 16
    case 0 =>
    case 1 =>
    case 2 =>
    case 3 =>
    case 4 =>
    case 5 =>
    case 6 =>
    case 7 =>
    case 8 =>
    case 9 =>
    case 10 =>
    case 11 =>
    case 12 =>
    case 13 =>
    case 14 =>
    case _ =>
  }

  lemma IntOfByteOf(n: int)
    requires 0 <= n < 256
    ensures ByteOf(n) as int == n
  {
    ByteRoundTrip(n);
  }

  lemma WordOfLe16(n: U16)
    ensures Word(Le16(n)[0], Le16(n)[1]) == n
  {
    IntOfByteOf(n % 256);
    IntOfByteOf(n / 256);
  }
}
