/** 16-bit sequence numbers: wrapping, and the distance above a zero point. */
module Cyclic {
  import opened Base

  /** Reduction into the sequence space of radix 2^16. */
  function Wrap(x: int): (w: U16) { x % 0x10000 }

  /** The distance of v above the zero point, going upwards around the ring. */
  function Rel(zero: int, v: int): (r: U16) { (v - zero) % 0x10000 }

  lemma RelFaithful(zero: int, x: int)
    requires zero <= x < zero + 0x10000
    ensures Rel(Wrap(zero), Wrap(x)) == x - zero
  {
  }

  lemma RelInjective(zero: int, a: int, b: int)
    requires Wrap(a) == a && Wrap(b) == b && Rel(zero, a) == Rel(zero, b)
    ensures a == b
  {
  }

  lemma RelDistinct(zero: int, a: int, b: int)
    requires Wrap(a) == a && Wrap(b) == b && a != b
    ensures Rel(zero, a) != Rel(zero, b)
  {
  }

  lemma WrapAdd(x: int, n: int)
    ensures Wrap(Wrap(x) + n) == Wrap(x + n)
  {
  }
}
