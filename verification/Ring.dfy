/**
 * The ring allocator of the tag's buffers (client/wisp-base/wio/buf.c): two
 * cursors that wrap by different tests, and no check for free memory.
 */
module Ring {
  import opened Base
  import opened Cyclic

  // ------------------------------------------------------------ the cursors

  /** Where wio_alloc puts a block: at the front if it would reach the end of the buffer. */
  function AllocAt(cap: nat, pos: nat, size: nat): nat { if pos + size >= cap then 0 else pos }

  /** Where wio_free takes a block to begin: at the front if it would pass the end of the buffer. */
  function FreeAt(cap: nat, pos: nat, size: nat): nat { if cap - pos < size then 0 else pos }

  /** The write cursor after the first k blocks. */
  function AllocPos(cap: nat, sizes: seq<nat>, k: nat): (p: nat)
    requires k <= |sizes|
  {
    if k == 0 then 0 else AllocAt(cap, AllocPos(cap, sizes, k - 1), sizes[k - 1]) + sizes[k - 1]
  }

  /** The read cursor after the first k blocks are freed. */
  function FreePos(cap: nat, sizes: seq<nat>, k: nat): nat
    requires k <= |sizes|
  {
    if k == 0 then 0 else FreeAt(cap, FreePos(cap, sizes, k - 1), sizes[k - 1]) + sizes[k - 1]
  }

  ghost predicate Small(cap: nat, sizes: seq<nat>) { forall k :: 0 <= k < |sizes| ==> 0 < sizes[k] < cap }

  /** No block would end exactly where the buffer ends. */
  ghost predicate NoExactFit(cap: nat, sizes: seq<nat>, n: nat)
    requires n <= |sizes|
  {
    forall k :: 0 <= k < n ==> AllocPos(cap, sizes, k) + sizes[k] != cap
  }

  lemma PosStep(cap: nat, sizes: seq<nat>, k: nat)
    requires k < |sizes|
    ensures AllocPos(cap, sizes, k + 1) == AllocAt(cap, AllocPos(cap, sizes, k), sizes[k]) + sizes[k]
    ensures FreePos(cap, sizes, k + 1) == FreeAt(cap, FreePos(cap, sizes, k), sizes[k]) + sizes[k]
  {
  }

  lemma PosBegin(cap: nat, sizes: seq<nat>)
    ensures AllocPos(cap, sizes, 0) == FreePos(cap, sizes, 0) == 0
  {
  }

  lemma {:induction false} CursorsFollow(cap: nat, sizes: seq<nat>, n: nat)
    requires Small(cap, sizes) && n <= |sizes| && NoExactFit(cap, sizes, n)
    ensures FreePos(cap, sizes, n) == AllocPos(cap, sizes, n)
    decreases n
  {
    hide AllocPos, FreePos;
    if n == 0 {
      PosBegin(cap, sizes);
    } else {
      CursorsFollow(cap, sizes, n - 1);
      PosStep(cap, sizes, n - 1);
      assert AllocPos(cap, sizes, n - 1) + sizes[n - 1] != cap;
    }
  }

  /** A block that would end exactly at the end sends the two cursors to different places. */
  lemma ExactFitDiverges(cap: nat, sizes: seq<nat>, k: nat)
    requires Small(cap, sizes) && k < |sizes| && AllocPos(cap, sizes, k) + sizes[k] == cap
    requires FreePos(cap, sizes, k) == AllocPos(cap, sizes, k)
    ensures FreePos(cap, sizes, k + 1) == cap && AllocPos(cap, sizes, k + 1) == sizes[k]
  {
  }

  /**
   * The read cursor retraces the write cursor, block for block, exactly when
   * no block would end where the buffer ends.
   */
  lemma {:induction false} CursorsAgreeIff(cap: nat, sizes: seq<nat>)
    requires Small(cap, sizes)
    ensures (forall k :: 0 <= k <= |sizes| ==> FreePos(cap, sizes, k) == AllocPos(cap, sizes, k))
       <==> NoExactFit(cap, sizes, |sizes|)
  {
    if NoExactFit(cap, sizes, |sizes|) {
      forall k | 0 <= k <= |sizes| ensures FreePos(cap, sizes, k) == AllocPos(cap, sizes, k) {
        CursorsFollow(cap, sizes, k);
      }
    } else {
      var k :| 0 <= k < |sizes| && AllocPos(cap, sizes, k) + sizes[k] == cap;
      if FreePos(cap, sizes, k) == AllocPos(cap, sizes, k) { ExactFitDiverges(cap, sizes, k); }
    }
  }

  // -------------------------------------------------------------- the blocks

  function BlockStart(cap: nat, sizes: seq<nat>, k: nat): nat
    requires k < |sizes|
  {
    AllocAt(cap, AllocPos(cap, sizes, k), sizes[k])
  }

  /** How far the ring has gone round before block k, in multiples of the capacity. */
  ghost function Lap(cap: nat, sizes: seq<nat>, k: nat): nat
    requires k < |sizes|
  {
    if k == 0 then 0
    else Lap(cap, sizes, k - 1) + (if AllocPos(cap, sizes, k) + sizes[k] >= cap then cap else 0)
  }

  /** Begin and end of block k on the unrolled ring, skipped tails included. */
  ghost function Begin(cap: nat, sizes: seq<nat>, k: nat): nat
    requires k < |sizes|
  {
    Lap(cap, sizes, k) + BlockStart(cap, sizes, k)
  }

  ghost function End(cap: nat, sizes: seq<nat>, k: nat): nat
    requires k < |sizes|
  {
    Begin(cap, sizes, k) + sizes[k]
  }

  lemma InBounds(cap: nat, sizes: seq<nat>, k: nat)
    requires Small(cap, sizes) && k < |sizes|
    ensures BlockStart(cap, sizes, k) + sizes[k] < cap
  {
  }

  lemma {:induction false} BlocksInOrder(cap: nat, sizes: seq<nat>, i: nat, j: nat)
    requires Small(cap, sizes) && i < j < |sizes|
    ensures End(cap, sizes, i) <= Begin(cap, sizes, j)
    ensures var a, b := Lap(cap, sizes, i), Lap(cap, sizes, j); b == a || b == a + cap || b >= a + 2 * cap
    decreases j
  {
    InBounds(cap, sizes, j - 1);
    if i < j - 1 { BlocksInOrder(cap, sizes, i, j - 1); }
  }

  /**
   * Blocks that are live together are in bounds and do not overlap, as long
   * as the stretch from the oldest to the newest, skipped tails included, is
   * no longer than the buffer.
   */
  lemma LiveBlocksDisjoint(cap: nat, sizes: seq<nat>, freed: nat, i: nat, j: nat)
    requires Small(cap, sizes) && freed <= i < j < |sizes|
    requires End(cap, sizes, |sizes| - 1) - Begin(cap, sizes, freed) <= cap
    ensures BlockStart(cap, sizes, i) + sizes[i] < cap && BlockStart(cap, sizes, j) + sizes[j] < cap
    ensures || BlockStart(cap, sizes, i) + sizes[i] <= BlockStart(cap, sizes, j)
            || BlockStart(cap, sizes, j) + sizes[j] <= BlockStart(cap, sizes, i)
  {
    var n := |sizes| - 1;
    InBounds(cap, sizes, i);
    InBounds(cap, sizes, j);
    BlocksInOrder(cap, sizes, i, j);
    if freed < i { BlocksInOrder(cap, sizes, freed, i); }
    if j < n { BlocksInOrder(cap, sizes, j, n); }
  }

  // ---------------------------------------------------------------- the code

  /** wio_buf_t as an allocator; sums of 16-bit cursors and sizes wrap. */
  class WioRing {
    const cap: nat
    var posA: U16
    var posB: U16
    /** The sizes allocated so far, and how many of the blocks are freed. */
    ghost var sizes: seq<nat>
    ghost var freed: nat

    ghost predicate Valid()
      reads this
    {
      && 0 < cap <= 0x8000 && Small(cap, sizes)
      && freed <= |sizes|
      && posB == AllocPos(cap, sizes, |sizes|) < cap
      && posA == FreePos(cap, sizes, freed) <= cap
    }

    constructor (cap: nat)
      requires 0 < cap <= 0x8000
      ensures Valid() && this.cap == cap && sizes == [] && freed == 0
    {
      this.cap, posA, posB, sizes, freed := cap, 0, 0, [], 0;
    }

    method Alloc(size: nat) returns (ptr: nat)
      requires Valid() && 0 < size < cap
      modifies this
      ensures Valid() && sizes == old(sizes) + [size] && freed == old(freed)
      ensures ptr == BlockStart(cap, sizes, |old(sizes)|) && ptr + size < cap
    {
      hide AllocPos, FreePos, Small;
      if Wrap(posB + size) >= cap { posB := 0; }
      ptr := posB;
      posB := Wrap(posB + size);
      SizesGrow(cap, sizes, size);
      PosStep(cap, sizes + [size], |sizes|);
      sizes := sizes + [size];
    }

    /** Blocks are freed by size, oldest first; the cursor follows the other one while no block fits exactly. */
    method Free(size: nat)
      requires Valid() && freed < |sizes| && size == sizes[freed]
      modifies this
      ensures Valid() && sizes == old(sizes) && freed == old(freed) + 1
      ensures posA == FreeAt(cap, old(posA), size) + size
      ensures NoExactFit(cap, sizes, freed) ==> posA == AllocPos(cap, sizes, freed)
    {
      hide AllocPos, FreePos;
      PosStep(cap, sizes, freed);
      if cap - posA < size { posA := 0; }
      posA := Wrap(posA + size);
      freed := freed + 1;
      if NoExactFit(cap, sizes, freed) { CursorsFollow(cap, sizes, freed); }
    }
  }

  lemma {:induction false} PosPrefix(cap: nat, sizes: seq<nat>, size: nat, k: nat)
    requires k <= |sizes|
    ensures AllocPos(cap, sizes + [size], k) == AllocPos(cap, sizes, k)
    ensures FreePos(cap, sizes + [size], k) == FreePos(cap, sizes, k)
    decreases k
  {
    hide AllocPos, FreePos;
    if k == 0 {
      PosBegin(cap, sizes);
      PosBegin(cap, sizes + [size]);
    } else {
      PosPrefix(cap, sizes, size, k - 1);
      PosStep(cap, sizes, k - 1);
      PosStep(cap, sizes + [size], k - 1);
    }
  }

  lemma SizesGrow(cap: nat, sizes: seq<nat>, size: nat)
    requires Small(cap, sizes) && 0 < size < cap
    ensures Small(cap, sizes + [size])
    ensures forall k :: 0 <= k <= |sizes| ==> AllocPos(cap, sizes + [size], k) == AllocPos(cap, sizes, k)
    ensures forall k :: 0 <= k <= |sizes| ==> FreePos(cap, sizes + [size], k) == FreePos(cap, sizes, k)
  {
    hide AllocPos, FreePos;
    var t := sizes + [size];
    forall k | 0 <= k <= |sizes|
      ensures AllocPos(cap, t, k) == AllocPos(cap, sizes, k)
      ensures FreePos(cap, t, k) == FreePos(cap, sizes, k)
    {
      PosPrefix(cap, sizes, size, k);
    }
  }
}
