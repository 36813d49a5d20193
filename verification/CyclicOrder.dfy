/** Cyclic integers and ranges over any radix, and the stack of zero points (server/wtp/wtp/util.py). */
module CyclicOrder {
  import Base
  import Cyclic
  import RxSpec

  datatype CyclicInt = CyclicInt(value: int, radix: int)

  /** The constructor reduces the value into [0, radix). */
  function Make(value: int, radix: int): (c: CyclicInt)
    requires radix > 0
  {
    CyclicInt(value % radix, radix)
  }

  datatype Error = RadixMismatch | NoZeroPoint

  datatype Result<+T> = Ok(value: T) | Err(error: Error)

  /** Both operands relative to the zero point, or the exception raised. */
  function Relative(stack: seq<CyclicInt>, a: CyclicInt, b: CyclicInt): Result<(int, int)>
    requires a.radix > 0
  {
    if a.radix != b.radix then Err(RadixMismatch)
    else if stack == [] then Err(NoZeroPoint)
    else
      var zero := stack[|stack| - 1];
      if a.radix != zero.radix then Err(RadixMismatch)
      else Ok(((a.value - zero.value) % a.radix, (b.value - zero.value) % a.radix))
  }

  function Less(stack: seq<CyclicInt>, a: CyclicInt, b: CyclicInt): Result<bool>
    requires a.radix > 0
  {
    match Relative(stack, a, b)
    case Err(e) => Err(e)
    case Ok((x, y)) => Ok(x < y)
  }

  function Greater(stack: seq<CyclicInt>, a: CyclicInt, b: CyclicInt): Result<bool>
    requires a.radix > 0
  {
    match Relative(stack, a, b)
    case Err(e) => Err(e)
    case Ok((x, y)) => Ok(x > y)
  }

  /** total_ordering derives >= from <. */
  function AtLeast(stack: seq<CyclicInt>, a: CyclicInt, b: CyclicInt): Result<bool>
    requires a.radix > 0
  {
    match Less(stack, a, b)
    case Err(e) => Err(e)
    case Ok(less) => Ok(!less)
  }

  datatype CyclicRange = CyclicRange(x: int, y: int, radix: int)

  /** The constructor given begin and size. */
  function RangeOf(x: int, size: int, radix: int): CyclicRange
    requires radix > 0
  {
    CyclicRange(x % radix, (x + size) % radix, radix)
  }

  /** Containment, under the zero point the test itself enters. */
  function Contained(outer: CyclicRange, inner: CyclicRange): Result<bool>
    requires outer.radix > 0
  {
    if outer.radix != inner.radix then Err(RadixMismatch) else
    var r := outer.radix;
    var stack := [Make(outer.x, r)];
    match AtLeast(stack, Make(inner.y, r), Make(inner.x, r))
    case Err(e) => Err(e)
    case Ok(false) => Ok(false)
    case Ok(true) => AtLeast(stack, Make(outer.y, r), Make(inner.y, r))
  }

  /** The stack of zero points all cyclic integers share. */
  class ZeroPoints {
    var stack: seq<CyclicInt>

    constructor ()
      ensures stack == []
    {
      stack := [];
    }

    method Enter(zero: CyclicInt)
      modifies this
      ensures stack == old(stack) + [zero]
    {
      stack := stack + [zero];
    }

    method Leave()
      requires stack != []
      modifies this
      ensures stack == old(stack)[..|old(stack)| - 1]
    {
      stack := stack[..|stack| - 1];
    }

    method IsLess(a: CyclicInt, b: CyclicInt) returns (r: Result<bool>)
      requires a.radix > 0
      ensures r == Less(stack, a, b)
    {
      if a.radix != b.radix { return Err(RadixMismatch); }
      if stack == [] { return Err(NoZeroPoint); }
      var zero := stack[|stack| - 1];
      if a.radix != zero.radix { return Err(RadixMismatch); }
      var relA := (a.value - zero.value) % a.radix;
      var relB := (b.value - zero.value) % a.radix;
      r := Ok(relA < relB);
    }

    /** `inner in outer`: whatever zero points are in force, the answer is the same and they stay in force. */
    method Contains(outer: CyclicRange, inner: CyclicRange) returns (r: Result<bool>)
      requires outer.radix > 0
      modifies this
      ensures stack == old(stack)
      ensures r == Contained(outer, inner)
    {
      if outer.radix != inner.radix { return Err(RadixMismatch); }
      var radix := outer.radix;
      Enter(Make(outer.x, radix));
      var less := IsLess(Make(inner.y, radix), Make(inner.x, radix));
      r := Ok(!less.value);
      if r == Ok(true) {
        less := IsLess(Make(outer.y, radix), Make(inner.y, radix));
        r := Ok(!less.value);
      }
      Leave();
    }
  }

  // ------------------------------------------------------------- arithmetic

  /** The remainder is the only value in range that differs by a multiple. */
  lemma RemainderUnique(a: int, k: int, m: int, r: int)
    requires r > 0 && 0 <= m < r && a == k * r + m
    ensures a % r == m
  {
    var q := a / r;
    assert a == q * r + a % r;
    if q < k { Multiples(q, k, r); }
    if q > k { Multiples(k, q, r); }
  }

  lemma Multiples(i: int, j: int, r: int)
    requires i < j && r > 0
    ensures i * r + r <= j * r
  {
    assert (j - i - 1) * r >= 0;
    assert (j - i - 1) * r == j * r - i * r - r;
  }

  lemma SubMod(x: int, z: int, r: int)
    requires r > 0
    ensures (x % r - z % r) % r == (x - z) % r
  {
    var a, b, d := x / r, z / r, x - z;
    assert x == a * r + x % r && z == b * r + z % r && d == (d / r) * r + d % r;
    var k := d / r - a + b;
    assert k * r == (d / r) * r - a * r + b * r;
    RemainderUnique(x % r - z % r, k, d % r, r);
  }

  // ------------------------------------------------------------- properties

  /**
   * The cyclic order is the order of positions: for any two positions less
   * than a radix above the zero point, all comparisons agree with the
   * integers'.
   */
  lemma OrderFaithful(stack: seq<CyclicInt>, zero: int, x: int, y: int, radix: int)
    requires radix > 0 && stack != [] && stack[|stack| - 1] == Make(zero, radix)
    requires zero <= x < zero + radix && zero <= y < zero + radix
    ensures Less(stack, Make(x, radix), Make(y, radix)) == Ok(x < y)
    ensures Greater(stack, Make(x, radix), Make(y, radix)) == Ok(x > y)
    ensures AtLeast(stack, Make(x, radix), Make(y, radix)) == Ok(x >= y)
  {
    Above(zero, x, radix);
    Above(zero, y, radix);
  }

  lemma Above(zero: int, x: int, radix: int)
    requires radix > 0 && zero <= x < zero + radix
    ensures (x % radix - zero % radix) % radix == x - zero
  {
    SubMod(x, zero, radix);
    RemainderUnique(x - zero, 0, x - zero, radix);
  }

  /** A value as the constructor leaves it. */
  predicate Reduced(a: CyclicInt) { 0 <= a.value < a.radix }

  /** Distances above a zero point tell reduced values apart. */
  lemma DistanceInjective(zero: int, a: int, b: int, radix: int)
    requires 0 <= a < radix && 0 <= b < radix && (a - zero) % radix == (b - zero) % radix
    ensures a == b
  {
    var i, j := (a - zero) / radix, (b - zero) / radix;
    assert a - zero == i * radix + (a - zero) % radix && b - zero == j * radix + (b - zero) % radix;
    if i < j { Multiples(i, j, radix); } else if j < i { Multiples(j, i, radix); }
  }

  /** Under any zero point of their radix, values are in a strict total order with the zero point as its least. */
  lemma TotalOrder(stack: seq<CyclicInt>, a: CyclicInt, b: CyclicInt, c: CyclicInt)
    requires stack != [] && a.radix == b.radix == c.radix == stack[|stack| - 1].radix
    requires Reduced(a) && Reduced(b) && Reduced(c) && Reduced(stack[|stack| - 1])
    ensures Less(stack, a, a) == Ok(false)
    ensures Less(stack, a, b) == Ok(true) && Less(stack, b, c) == Ok(true) ==> Less(stack, a, c) == Ok(true)
    ensures a != b ==> (Less(stack, a, b) == Ok(true) <==> Less(stack, b, a) == Ok(false))
    ensures var zero := stack[|stack| - 1]; a != zero ==> Less(stack, zero, a) == Ok(true)
  {
    var zero, r := stack[|stack| - 1], a.radix;
    if a != b && (a.value - zero.value) % r == (b.value - zero.value) % r {
      DistanceInjective(zero.value, a.value, b.value, r);
    }
    RemainderUnique(zero.value - zero.value, 0, 0, r);
    if (a.value - zero.value) % r == 0 { DistanceInjective(zero.value, a.value, zero.value, r); }
  }

  /**
   * When a comparison or a containment test raises: over different radixes
   * always the same error, even with no zero point; over one radix the
   * comparison exactly without a zero point of that radix, the containment
   * never.
   */
  lemma ErrorsExact(stack: seq<CyclicInt>, a: CyclicInt, b: CyclicInt, outer: CyclicRange, inner: CyclicRange)
    requires a.radix > 0 && outer.radix > 0
    ensures Less(stack, a, b) == Err(RadixMismatch) <==>
              a.radix != b.radix || (stack != [] && stack[|stack| - 1].radix != a.radix)
    ensures Less(stack, a, b) == Err(NoZeroPoint) <==> a.radix == b.radix && stack == []
    ensures Contained(outer, inner).Err? <==> outer.radix != inner.radix
    ensures Contained(outer, inner).Err? ==> Contained(outer, inner).error == RadixMismatch
  {
  }

  /** Which of two values is the smaller is up to the zero point. */
  lemma ZeroDecides(a: CyclicInt, b: CyclicInt)
    requires a.radix == b.radix && Reduced(a) && Reduced(b) && a != b
    ensures Less([a], a, b) == Ok(true) && Less([b], a, b) == Ok(false)
  {
    TotalOrder([a], b, a, a);
    TotalOrder([b], a, b, b);
  }

  /** How far v lies above w, going upwards. */
  function Offset(w: int, v: int, radix: int): int
    requires radix > 0
  {
    (v - w) % radix
  }

  lemma OffsetRelative(w: int, v: int, radix: int)
    requires radix > 0
    ensures (Make(v % radix, radix).value - Make(w % radix, radix).value) % radix == Offset(w, v, radix)
    ensures 0 <= Offset(w, v, radix) < radix
  {
    ModTwice(v, radix);
    ModTwice(w, radix);
    SubMod(v, w, radix);
  }

  lemma ModTwice(v: int, radix: int)
    requires radix > 0
    ensures (v % radix) % radix == v % radix
  {
    RemainderUnique(v % radix, 0, v % radix, radix);
  }

  /** The end of a range, in offsets: it wraps at most once. */
  lemma OffsetAdd(w: int, v: int, n: int, radix: int)
    requires radix > 0 && 0 <= n < radix
    ensures var o := Offset(w, v, radix);
            Offset(w, v + n, radix) == if o + n < radix then o + n else o + n - radix
  {
    var o, d := Offset(w, v, radix), v - w;
    assert d == (d / radix) * radix + o;
    if o + n < radix {
      RemainderUnique(d + n, d / radix, o + n, radix);
    } else {
      assert (d / radix + 1) * radix == (d / radix) * radix + radix;
      RemainderUnique(d + n, d / radix + 1, o + n - radix, radix);
    }
  }

  /** Containment means what it says: the inner range starts at some offset and ends within the window. */
  lemma ContainmentExact(w: int, window: int, v: int, size: int, radix: int)
    requires 0 <= window < radix && 0 <= size < radix
    ensures Contained(RangeOf(w, window, radix), RangeOf(v, size, radix)) == Ok(Offset(w, v, radix) + size <= window)
  {
    OffsetRelative(w, v, radix);
    OffsetRelative(w, v + size, radix);
    OffsetRelative(w, w + window, radix);
    OffsetAdd(w, v, size, radix);
    RemainderUnique(window, 0, window, radix);
  }

  /**
   * The server's window test on cyclic ranges and the tag's on uint16_t
   * values agree exactly when the payload is not empty or lies outside both.
   */
  lemma WindowTestsAgree(st: RxSpec.RxState, seqNum: Base.U16, size: nat)
    requires st.windowSize < 0x10000 && size < 0x10000
    ensures var server := Contained(RangeOf(st.seqNum, st.windowSize, 0x10000), RangeOf(seqNum, size, 0x10000));
            server == Ok(RxSpec.InWindow(st, seqNum, size))
            <==> size > 0 || Offset(st.seqNum, seqNum, 0x10000) > st.windowSize
  {
    hide Contained, RangeOf;
    ContainmentExact(st.seqNum, st.windowSize, seqNum, size, 0x10000);
  }

  /** The comparisons of handle_ack, on 16-bit values. */
  lemma RelIsOrder(stack: seq<CyclicInt>, zero: Base.U16, a: Base.U16, b: Base.U16)
    requires stack != [] && stack[|stack| - 1] == Make(zero, 0x10000)
    ensures Less(stack, Make(a, 0x10000), Make(b, 0x10000)) == Ok(Cyclic.Rel(zero, a) < Cyclic.Rel(zero, b))
    ensures Greater(stack, Make(a, 0x10000), Make(b, 0x10000)) == Ok(Cyclic.Rel(zero, a) > Cyclic.Rel(zero, b))
  {
    hide Make;
    InRadix(zero);
    InRadix(a);
    InRadix(b);
  }

  lemma InRadix(v: Base.U16)
    ensures Make(v, 0x10000) == CyclicInt(v, 0x10000)
  {
  }
}
