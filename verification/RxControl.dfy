/**
 * The tag's receive control as it is laid out in memory
 * (client/wtp/wtp/transmission.c, client/wisp-base/wio/buf.c): pending
 * fragments linked by pointers, declared messages linked by index through a
 * fixed store, and a compacted message buffer with two cursors.
 */
module RxControl {
  import opened Base
  import opened Cyclic
  import opened Stream
  import opened RxSpec
  import opened Downlink

  /** wio_buf_t used as a byte queue. */
  class WioBuf {
    const buffer: array<byte>
    var posA: nat
    var posB: nat

    ghost predicate Valid()
      reads this
    {
      posA <= posB <= buffer.Length < 0x10000
    }

    ghost function Unread(): seq<byte>
      requires Valid()
      reads this, buffer
    {
      buffer[posA..posB]
    }

    constructor (size: U16)
      ensures Valid() && Unread() == [] && posA == 0 && buffer.Length == size && fresh(buffer)
    {
      buffer := new byte[size](_ => 0);
      posA, posB := 0, 0;
    }

    /** Nothing is written, and no cursor moves, when the data does not fit. */
    method Write(data: seq<byte>) returns (ok: bool)
      requires Valid() && posB + |data| < 0x10000
      modifies this`posB, buffer
      ensures Valid()
      ensures ok <==> old(posB) + |data| <= buffer.Length
      ensures Unread() == if ok then old(Unread()) + data else old(Unread())
      ensures posB == old(posB) + if ok then |data| else 0
    {
      if Wrap(posB + |data|) > buffer.Length { return false; }
      forall i | 0 <= i < |data| { buffer[posB + i] := data[i]; }
      ghost var begin := old(Unread());
      posB := posB + |data|;
      assert buffer[posA..posB] == begin + data;
      return true;
    }

    /** Move the unread bytes to the front. */
    method Compact()
      requires Valid()
      modifies this, buffer
      ensures Valid() && posA == 0 && Unread() == old(Unread())
    {
      ghost var unread := Unread();
      var n := posB - posA;
      if posB != posA {
        forall i | 0 <= i < n { buffer[i] := buffer[posA + i]; }
      }
      posB := n;
      posA := 0;
      assert buffer[0..n] == unread;
    }

    /** Read n bytes the caller knows to be there. */
    method Read(n: nat) returns (data: seq<byte>)
      requires Valid() && n <= |Unread()|
      modifies this`posA
      ensures Valid() && data == old(Unread())[..n] && Unread() == old(Unread())[n..]
    {
      data := buffer[posA..posA + n];
      posA := posA + n;
    }
  }

  /** An element of the message information store. */
  datatype Item = Item(inUse: bool, begin: U16, size: U16, next: nat)

  class RxFragment {
    const seqNum: U16
    const data: seq<byte>
    var assembled: bool
    var next: RxFragment?

    constructor (seqNum: U16, data: seq<byte>, next: RxFragment?)
      ensures this.seqNum == seqNum && this.data == data && this.next == next && !assembled
    {
      this.seqNum, this.data, this.next, assembled := seqNum, data, next, false;
    }

    ghost function Value(): RxFrag { RxFrag(seqNum, data) }
  }

  ghost function Pending(fs: seq<RxFragment>): (v: seq<RxFrag>)
    ensures |v| == |fs| && forall i :: 0 <= i < |fs| ==> v[i] == fs[i].Value()
  {
    seq(|fs|, i requires 0 <= i < |fs| => fs[i].Value())
  }

  ghost function At<T>(s: seq<T>, i: nat, end: T): T { if i < |s| then s[i] else end }

  /** The fragments are linked in this order, each once. */
  ghost predicate Linked(head: RxFragment?, fs: seq<RxFragment>)
    reads fs
  {
    && head == At<RxFragment?>(fs, 0, null)
    && (forall i, j :: 0 <= i < j < |fs| ==> fs[i] != fs[j])
    && forall i {:trigger fs[i].next} :: 0 <= i < |fs| ==> fs[i].next == if i + 1 < |fs| then fs[i + 1] else null
  }

  ghost predicate Distinct(order: seq<nat>, n: nat) {
    && (forall i, j :: 0 <= i < j < |order| ==> order[i] != order[j])
    && forall i :: 0 <= i < |order| ==> order[i] < n
  }

  ghost predicate Nexts(items: seq<Item>, order: seq<nat>)
    requires Distinct(order, |items|)
  {
    forall i {:trigger items[order[i]]} :: 0 <= i < |order| ==> items[order[i]].next == At(order, i + 1, |items|)
  }

  ghost predicate InUse(items: seq<Item>, order: seq<nat>) {
    forall x :: 0 <= x < |items| ==> (items[x].inUse <==> x in order)
  }

  /** The items in use are linked in this order, each once; the length ends the list. */
  ghost predicate Indexed(items: seq<Item>, head: nat, order: seq<nat>) {
    && head == At(order, 0, |items|)
    && Distinct(order, |items|) && Nexts(items, order) && InUse(items, order)
  }

  ghost function Infos(items: seq<Item>, order: seq<nat>): (v: seq<Info>)
    requires forall i :: 0 <= i < |order| ==> order[i] < |items|
    ensures |v| == |order| && forall i :: 0 <= i < |order| ==> v[i] == Info(items[order[i]].begin, items[order[i]].size)
  {
    seq(|order|, i requires 0 <= i < |order| => Info(items[order[i]].begin, items[order[i]].size))
  }

  function Without(s: seq<nat>, k: nat): (t: seq<nat>)
    requires k < |s|
    ensures |t| == |s| - 1
  {
    s[..k] + s[k + 1..]
  }

  lemma DistinctWithout(s: seq<nat>, k: nat, n: nat)
    requires Distinct(s, n) && k < |s| && s[k] == n - 1
    ensures Distinct(Without(s, k), n - 1)
  {
    var t := Without(s, k);
    assert forall i :: 0 <= i < |t| ==> t[i] == if i < k then s[i] else s[i + 1];
  }

  lemma InWithout(s: seq<nat>, k: nat, x: nat)
    requires k < |s|
    ensures x in Without(s, k) ==> x in s
    ensures x in s && x != s[k] ==> x in Without(s, k)
  {
    if x in s && x != s[k] {
      var i :| 0 <= i < |s| && s[i] == x;
      assert Without(s, k)[if i < k then i else i - 1] == x;
    }
  }

  /** A list of distinct numbers below n that is n long has them all. */
  lemma {:induction false} Pigeonhole(s: seq<nat>, n: nat)
    requires Distinct(s, n)
    ensures |s| <= n
    ensures |s| == n ==> forall x :: 0 <= x < n ==> x in s
    decreases n
  {
    if s != [] {
      assert s[0] < n;
      if n - 1 in s {
        var k :| 0 <= k < |s| && s[k] == n - 1;
        var t := Without(s, k);
        DistinctWithout(s, k, n);
        Pigeonhole(t, n - 1);
        forall x: nat ensures x in t ==> x in s { InWithout(s, k, x); }
      } else {
        Pigeonhole(s, n - 1);
      }
    }
  }

  /** A list with every number below n is at least n long. */
  lemma {:induction false} Covering(s: seq<nat>, n: nat)
    requires forall x :: 0 <= x < n ==> x in s
    ensures n <= |s|
    decreases n
  {
    if n > 0 {
      assert n - 1 in s;
      var k :| 0 <= k < |s| && s[k] == n - 1;
      forall x: nat | x < n - 1 ensures x in Without(s, k) { InWithout(s, k, x); }
      Covering(Without(s, k), n - 1);
    }
  }

  /** The items after a spare one, x, is linked in before the p-th. */
  ghost predicate ItemsLinked(items: seq<Item>, items': seq<Item>, order: seq<nat>, p: nat, x: nat, info: Info)
    requires p <= |order| && x < |items|
  {
    && |items'| == |items|
    && items'[x] == Item(true, info.begin, info.size, At(order, p, |items|))
    && forall y :: 0 <= y < |items| && y != x ==>
         items'[y] == if p > 0 && y == order[p - 1] then items[y].(next := x) else items[y]
  }

  lemma InsertedAt<T>(s: seq<T>, p: nat, x: T, i: nat)
    requires p <= |s| && i <= |s|
    ensures |InsertAt(s, p, x)| == |s| + 1
    ensures InsertAt(s, p, x)[i] == if i < p then s[i] else if i == p then x else s[i - 1]
  {
  }

  lemma InsertedIn<T>(s: seq<T>, p: nat, x: T, y: T)
    requires p <= |s|
    ensures y in InsertAt(s, p, x) <==> y == x || y in s
  {
    var t := InsertAt(s, p, x);
    if y in s { var i :| 0 <= i < |s| && s[i] == y; InsertedAt(s, p, x, if i < p then i else i + 1); }
    InsertedAt(s, p, x, p);
    if y in t { var i :| 0 <= i < |t| && t[i] == y; InsertedAt(s, p, x, i); }
  }

  lemma DistinctInsert(order: seq<nat>, n: nat, p: nat, x: nat)
    requires Distinct(order, n) && p <= |order| && x < n && x !in order
    ensures Distinct(InsertAt(order, p, x), n)
  {
    var t := InsertAt(order, p, x);
    forall i | 0 <= i < |t| ensures t[i] < n { InsertedAt(order, p, x, i); }
    forall i, j | 0 <= i < j < |t| ensures t[i] != t[j] {
      InsertedAt(order, p, x, i);
      InsertedAt(order, p, x, j);
    }
  }

  lemma NextsInsert(items: seq<Item>, items': seq<Item>, order: seq<nat>, p: nat, x: nat, info: Info, i: nat)
    requires Distinct(order, |items|) && Nexts(items, order) && p <= |order| && x < |items| && x !in order
    requires ItemsLinked(items, items', order, p, x, info) && i <= |order|
    requires Distinct(InsertAt(order, p, x), |items|)
    ensures var t := InsertAt(order, p, x); items'[t[i]].next == At(t, i + 1, |items|)
  {
    hide InsertAt;
    InsertedAt(order, p, x, i);
    if i < |order| { InsertedAt(order, p, x, i + 1); }
    if i < p { assert items[order[i]].next == At(order, i + 1, |items|); }
    if i > p { assert items[order[i - 1]].next == At(order, i, |items|); }
  }

  /** Linking a spare item in between two neighbours. */
  lemma IndexedInsert(items: seq<Item>, items': seq<Item>, head: nat, order: seq<nat>, p: nat, x: nat, info: Info)
    requires Indexed(items, head, order) && p <= |order| && x < |items| && !items[x].inUse
    requires ItemsLinked(items, items', order, p, x, info)
    ensures Indexed(items', if p > 0 then head else x, InsertAt(order, p, x))
  {
    hide InsertAt;
    var t := InsertAt(order, p, x);
    assert x !in order;
    DistinctInsert(order, |items|, p, x);
    InsertedAt(order, p, x, 0);
    assert Nexts(items', t) by {
      forall i | 0 <= i < |t| ensures items'[t[i]].next == At(t, i + 1, |items|) {
        InsertedAt(order, p, x, 0);
        NextsInsert(items, items', order, p, x, info, i);
      }
    }
    forall y | 0 <= y < |items'| ensures items'[y].inUse <==> y in t {
      InsertedIn<nat>(order, p, x, y);
      assert items[y].inUse <==> y in order;
      if y != x { assert items'[y].inUse == items[y].inUse; }
    }
  }

  /** The two writes that link an item in, and what they make of the list. */
  lemma ItemsWritten(items: seq<Item>, items': seq<Item>, head: nat, order: seq<nat>, p: nat, x: nat, info: Info)
    requires Indexed(items, head, order) && p <= |order| && x < |items| && !items[x].inUse
    requires var a := items[x := Item(true, info.begin, info.size, At(order, p, |items|))];
             items' == if p > 0 then a[order[p - 1] := a[order[p - 1]].(next := x)] else a
    ensures Indexed(items', if p > 0 then head else x, InsertAt(order, p, x))
    ensures Infos(items', InsertAt(order, p, x)) == InsertAt(Infos(items, order), p, info)
  {
    hide InsertAt, Nexts;
    assert x !in order;
    assert ItemsLinked(items, items', order, p, x, info);
    IndexedInsert(items, items', head, order, p, x, info);
    InfosInsert(items, items', order, p, x, info);
  }

  lemma NextItem(items: seq<Item>, order: seq<nat>, p: nat)
    requires Distinct(order, |items|) && Nexts(items, order) && p < |order|
    ensures items[order[p]].next == At(order, p + 1, |items|)
  {
  }

  lemma InfosInsert(items: seq<Item>, items': seq<Item>, order: seq<nat>, p: nat, x: nat, info: Info)
    requires Distinct(order, |items|) && p <= |order| && x < |items| && x !in order
    requires ItemsLinked(items, items', order, p, x, info)
    requires Distinct(InsertAt(order, p, x), |items|)
    ensures Infos(items', InsertAt(order, p, x)) == InsertAt(Infos(items, order), p, info)
  {
    hide InsertAt;
    var a, b := Infos(items', InsertAt(order, p, x)), InsertAt(Infos(items, order), p, info);
    InsertedAt(order, p, x, 0);
    InsertedAt(Infos(items, order), p, info, 0);
    forall i | 0 <= i < |a| ensures a[i] == b[i] {
      InsertedAt(order, p, x, i);
      InsertedAt(Infos(items, order), p, info, i);
    }
  }

  /** Releasing the item at the head. */
  lemma IndexedRelease(items: seq<Item>, items': seq<Item>, head: nat, order: seq<nat>)
    requires Indexed(items, head, order) && order != []
    requires items' == items[order[0] := items[order[0]].(inUse := false)]
    ensures Indexed(items', items[order[0]].next, order[1..])
    ensures Infos(items', order[1..]) == Infos(items, order)[1..]
  {
    var t := order[1..];
    assert forall i :: 0 <= i < |t| ==> t[i] == order[i + 1];
    forall i | 0 <= i < |t| ensures items'[t[i]].next == At(t, i + 1, |items|) {
      assert items[order[i + 1]].next == At(order, i + 2, |items|);
    }
    forall y | 0 <= y < |items| ensures items'[y].inUse <==> y in t {
      if y in order && y != order[0] { var i :| 0 <= i < |order| && order[i] == y; assert t[i - 1] == y; }
    }
  }

  /** Linking a new fragment in between two neighbours. */
  lemma LinkedInsert(head: RxFragment?, was: seq<RxFragment>, p: nat, f: RxFragment)
    requires p <= |was| && f !in was && head == At<RxFragment?>(was, 0, null)
    requires forall i, j :: 0 <= i < j < |was| ==> was[i] != was[j]
    requires forall i :: 0 <= i < |was| ==> was[i].next == if i + 1 == p then f else At<RxFragment?>(was, i + 1, null)
    requires f.next == At<RxFragment?>(was, p, null)
    ensures Linked(if p > 0 then head else f, InsertAt<RxFragment>(was, p, f))
  {
    hide InsertAt;
    var t := InsertAt<RxFragment>(was, p, f);
    InsertedAt<RxFragment>(was, p, f, 0);
    forall i | 0 <= i < |t| ensures t[i].next == if i + 1 < |t| then t[i + 1] else null {
      InsertedAt<RxFragment>(was, p, f, i);
      if i < |was| { InsertedAt<RxFragment>(was, p, f, i + 1); }
    }
    forall i, j | 0 <= i < j < |t| ensures t[i] != t[j] {
      InsertedAt<RxFragment>(was, p, f, i);
      InsertedAt<RxFragment>(was, p, f, j);
    }
    assert (if p > 0 then head else f) == At<RxFragment?>(t, 0, null);
    assert forall i {:trigger t[i].next} :: 0 <= i < |t| ==> t[i].next == if i + 1 < |t| then t[i + 1] else null;
    assert forall i, j :: 0 <= i < j < |t| ==> t[i] != t[j];
  }

  lemma InsertedFrom(was: seq<RxFragment>, p: nat, f: RxFragment)
    requires p <= |was|
    ensures forall g :: g in InsertAt<RxFragment>(was, p, f) ==> g == f || g in was
  {
  }

  lemma PendingInsert(was: seq<RxFragment>, p: nat, f: RxFragment)
    requires p <= |was|
    ensures Pending(InsertAt<RxFragment>(was, p, f)) == InsertAt(Pending(was), p, f.Value())
  {
  }

  class RxCtrl {
    var seqNum: U16
    const windowSize: U16
    const msgDataBuf: WioBuf
    var fragmentsBegin: RxFragment?
    const store: array<Item>
    var msgInfoBegin: nat
    /** The pending fragments and the items in use, in list order. */
    ghost var frags: seq<RxFragment>
    ghost var order: seq<nat>

    ghost predicate Valid()
      reads this, msgDataBuf, store, frags
    {
      && store as object != msgDataBuf.buffer as object
      && msgDataBuf.Valid() && msgDataBuf.buffer.Length + 0x100 <= 0x10000
      && Linked(fragmentsBegin, frags) && (forall f | f in frags :: |f.data| < 0x100)
      && Indexed(store[..], msgInfoBegin, order)
    }

    ghost function State(): RxState
      requires Valid()
      reads this, msgDataBuf, msgDataBuf.buffer, store, frags
    {
      RxState(seqNum, Infos(store[..], order), Pending(frags), msgDataBuf.Unread(),
              windowSize, store.Length, msgDataBuf.buffer.Length)
    }

    constructor (windowSize: U16, msgDataSize: U16, nMsgInfo: nat)
      requires msgDataSize + 0x100 <= 0x10000 && nMsgInfo < 0x100
      ensures Valid() && State() == Init(windowSize, nMsgInfo, msgDataSize)
    {
      seqNum, this.windowSize, fragmentsBegin := 0, windowSize, null;
      msgDataBuf := new WioBuf(msgDataSize);
      store := new Item[nMsgInfo](_ => Item(false, 0, 0, 0));
      msgInfoBegin := nMsgInfo;
      frags, order := [], [];
    }

    /** The items around the place where a message beginning at seqNum belongs. */
    method FindInfo(seqNum: U16) returns (before: nat, after: nat, ghost p: nat)
      requires Valid()
      ensures p == InfoPos(State().infos, seqNum, 0)
      ensures after == At(order, InfoPos(State().infos, seqNum, 0), store.Length)
      ensures before == if InfoPos(State().infos, seqNum, 0) > 0 then order[InfoPos(State().infos, seqNum, 0) - 1]
                        else store.Length
    {
      hide Nexts, InUse, Linked;
      ghost var infos := State().infos;
      before, after, p := store.Length, msgInfoBegin, 0;
      while after < store.Length && store[after].begin < seqNum
        invariant p <= |order| && after == At(order, p, store.Length)
        invariant before == if p > 0 then order[p - 1] else store.Length
        invariant InfoPos(infos, seqNum, 0) == InfoPos(infos, seqNum, p)
        decreases |order| - p
      {
        NextItem(store[..], order, p);
        before := after;
        after := store[after].next;
        p := p + 1;
      }
    }

    /** The first item not in use, if any is left. */
    method FindSpare() returns (index: nat)
      requires Valid()
      ensures index < store.Length ==> !store[index].inUse && |order| < store.Length
      ensures index >= store.Length ==> |order| >= store.Length
    {
      index := 0;
      while index < store.Length && store[index].inUse
        invariant index <= store.Length
        invariant forall x :: 0 <= x < index ==> store[x].inUse
      {
        index := index + 1;
      }
      if index < store.Length {
        Pigeonhole(order, store.Length);
      } else {
        forall x | 0 <= x < store.Length ensures x in order { assert store[..][x].inUse; }
        Covering(order, store.Length);
      }
    }

    method DeclareMessage(seqNum: U16, size: U16) returns (status: Status)
      requires Valid()
      modifies this`msgInfoBegin, this`order, store
      ensures Valid()
      ensures RxSpec.Declare(old(State()), seqNum, size) == Changed(State(), status)
    {
      var before, after, p := FindInfo(seqNum);
      if after < store.Length && Wrap(seqNum + size) > store[after].begin { return Invalid; }
      var index := FindSpare();
      if index >= store.Length { return NoMemory; }
      LinkItem(before, after, index, seqNum, size, p);
      return Ok;
    }

    method LinkItem(before: nat, after: nat, index: nat, seqNum: U16, size: U16, ghost p: nat)
      requires Valid() && p <= |order| && index < store.Length && !store[index].inUse
      requires after == At(order, p, store.Length)
      requires before == if p > 0 then order[p - 1] else store.Length
      modifies this`msgInfoBegin, this`order, store
      ensures Valid()
      ensures State() == old(State()).(infos := InsertAt(old(State()).infos, p, Info(seqNum, size)))
    {
      hide InsertAt, ItemsLinked, Nexts, InUse;
      ghost var items, head, info := store[..], msgInfoBegin, Info(seqNum, size);
      store[index] := Item(true, seqNum, size, after);
      if before < store.Length {
        store[before] := store[before].(next := index);
      } else {
        msgInfoBegin := index;
      }
      ItemsWritten(items, store[..], head, order, p, index, info);
      order := InsertAt(order, p, index);
      assert Infos(store[..], order) == InsertAt(old(State()).infos, p, info);
      assert msgDataBuf.Unread() == old(msgDataBuf.Unread());
    }

    /** The fragments around the place where one beginning at seqNum belongs. */
    method FindFragment(seqNum: U16) returns (a: RxFragment?, b: RxFragment?, ghost p: nat)
      requires Valid()
      ensures p == FragPos(State().frags, seqNum, 0)
      ensures b == At<RxFragment?>(frags, FragPos(State().frags, seqNum, 0), null)
      ensures a == if FragPos(State().frags, seqNum, 0) > 0 then frags[FragPos(State().frags, seqNum, 0) - 1] else null
    {
      ghost var values := State().frags;
      a, b, p := null, fragmentsBegin, 0;
      while b != null && b.seqNum < seqNum
        invariant p <= |frags| && b == At<RxFragment?>(frags, p, null)
        invariant a == if p > 0 then frags[p - 1] else null
        invariant FragPos(values, seqNum, 0) == FragPos(values, seqNum, p)
        decreases |frags| - p
      {
        assert b == frags[p];
        a := b;
        b := b.next;
        p := p + 1;
      }
    }

    method StoreFragment(seqNum: U16, data: seq<byte>) returns (status: Status)
      requires Valid() && |data| < 0x100
      modifies this`fragmentsBegin, this`frags, frags`next
      ensures Valid() && forall f :: f in frags ==> fresh(f) || f in old(frags)
      ensures Store(old(State()), seqNum, data) == Changed(State(), status)
    {
      var a, b, p := FindFragment(seqNum);
      if b != null && Wrap(seqNum + |data|) > b.seqNum { return Invalid; }
      LinkFragment(a, b, seqNum, data, p);
      return Ok;
    }

    method LinkFragment(a: RxFragment?, b: RxFragment?, seqNum: U16, data: seq<byte>, ghost p: nat)
      requires Valid() && |data| < 0x100 && p <= |frags|
      requires b == At<RxFragment?>(frags, p, null)
      requires a == if p > 0 then frags[p - 1] else null
      modifies this`fragmentsBegin, this`frags, frags`next
      ensures Valid() && forall f :: f in frags ==> fresh(f) || f in old(frags)
      ensures State() == old(State()).(frags := InsertAt(old(State()).frags, p, RxFrag(seqNum, data)))
    {
      hide InsertAt, Pending, Indexed, Infos;
      ghost var was, head := frags, fragmentsBegin;
      var f := new RxFragment(seqNum, data, b);
      if a != null { a.next := f; } else { fragmentsBegin := f; }
      LinkedInsert(head, was, p, f);
      PendingInsert(was, p, f);
      InsertedFrom(was, p, f);
      frags := InsertAt<RxFragment>(frags, p, f);
    }

    /** The state with the first j pending fragments left out. */
    ghost function Rest(j: nat): RxState
      requires Valid() && j <= |frags|
      reads this, msgDataBuf, msgDataBuf.buffer, store, frags
    {
      State().(frags := State().frags[j..])
    }

    /** Write the size of the message that begins at the sequence number, if one does. */
    method WriteSize() returns (ok: bool)
      requires Valid() && msgDataBuf.posA == 0
      modifies msgDataBuf`posB, msgDataBuf.buffer
      ensures Valid()
      ensures var s := old(State());
              && (ok <==> !BeginsHere(s) || Fits2(s, 2))
              && State() == if ok && BeginsHere(s) then s.(buf := s.buf + Le16(s.infos[0].size)) else s
    {
      ok := true;
      if msgInfoBegin < store.Length {
        var info := store[msgInfoBegin];
        if seqNum == info.begin { ok := msgDataBuf.Write(Le16(info.size)); }
      }
    }

    /** The item the list begins with is the first declared message. */
    lemma HeadInfo()
      requires Valid()
      ensures msgInfoBegin < store.Length <==> State().infos != []
      ensures msgInfoBegin < store.Length ==>
                State().infos[0] == Info(store[msgInfoBegin].begin, store[msgInfoBegin].size)
    {
    }

    /** Release the message that ends at the sequence number, if one does. */
    method EndMessage() returns (ended: bool)
      requires Valid()
      modifies this`msgInfoBegin, this`order, store
      ensures Valid()
      ensures ended <==> EndsHere(old(State()))
      ensures State() == if ended then old(State()).(infos := old(State()).infos[1..]) else old(State())
    {
      hide Indexed, Valid, Infos;
      HeadInfo();
      ended := false;
      if msgInfoBegin < store.Length {
        var info := store[msgInfoBegin];
        if seqNum == Wrap(info.begin + info.size) {
          Release();
          ended := true;
        }
      }
    }

    method Release()
      requires Valid() && State().infos != []
      modifies this`msgInfoBegin, this`order, store
      ensures Valid() && State() == old(State()).(infos := old(State()).infos[1..])
    {
      hide Nexts, InUse;
      ghost var items, head := store[..], msgInfoBegin;
      store[msgInfoBegin] := store[msgInfoBegin].(inUse := false);
      IndexedRelease(items, store[..], head, order);
      msgInfoBegin := store[msgInfoBegin].next;
      order := order[1..];
    }

    /** Append the data of a fragment that is next. */
    method TakeData(f: RxFragment) returns (ok: bool)
      requires Valid() && msgDataBuf.posA == 0 && f in frags
      modifies this`seqNum, msgDataBuf`posB, msgDataBuf.buffer, f`assembled
      ensures Valid()
      ensures var s := old(State());
              && (ok <==> Fits2(s, |f.data|))
              && State() == if ok then s.(buf := s.buf + f.data, seqNum := Wrap(s.seqNum + |f.data|)) else s
    {
      hide Indexed, Infos;
      ok := msgDataBuf.Write(f.data);
      if ok {
        seqNum := Wrap(seqNum + |f.data|);
        f.assembled := true;
      }
    }

    /** Take in one pending fragment if it is the next one. */
    method Turn(f: RxFragment, ghost j: nat, n: nat) returns (status: Status, more: bool, n': nat)
      requires Valid() && msgDataBuf.posA == 0 && j < |frags| && frags[j] == f
      modifies this`seqNum, this`msgInfoBegin, this`order, store, msgDataBuf`posB, msgDataBuf.buffer, f`assembled
      ensures Valid() && (more ==> status == Ok) && (!more ==> n' == n)
      ensures Assemble(old(Rest(j)), n) ==
              if more then Assemble(Rest(j + 1), n') else RxResult(Rest(j), status, n)
    {
      hide Valid, Assemble, BeginsHere, EndsHere, Fits2;
      ghost var before := State();
      assert before.frags[j] == f.Value();
      AssembleUnfolds(before, j, n);
      status, more, n' := Ok, false, n;
      var ok := WriteSize();
      if !ok { return OutOfRange, false, n; }
      assert State() == SizeWritten(before);
      if f.seqNum != seqNum { return; }
      ok := TakeData(f);
      if !ok { return OutOfRange, false, n; }
      var ended := EndMessage();
      if ended { n' := n + 1; }
      more := true;
    }

    /** Reassemble as far as the pending fragments reach. */
    method AssembleAll() returns (status: Status, nMsgs: nat)
      requires Valid() && msgDataBuf.posA == 0
      modifies this, store, msgDataBuf`posB, msgDataBuf.buffer, frags`assembled
      ensures Valid() && forall f :: f in frags ==> f in old(frags)
      ensures RxResult(State(), status, nMsgs) == Finish(old(State()), Assemble(old(State()), 0))
    {
      hide Indexed, Assemble, Infos;
      ghost var before, was := State(), frags;
      var f, more := fragmentsBegin, true;
      ghost var j := 0;
      status, nMsgs := Ok, 0;
      assert Rest(0) == before;
      while f != null && more
        invariant j <= |frags| && f == At<RxFragment?>(frags, j, null)
        invariant Valid() && status == Ok && frags == was && State().frags == before.frags
        invariant Assemble(before, 0) == if more then Assemble(Rest(j), nMsgs) else RxResult(Rest(j), Ok, nMsgs)
        decreases |frags| - j, more
      {
        status, more, nMsgs := Turn(f, j, nMsgs);
        if status != Ok { return status, 0; }
        if more {
          f := f.next;
          j := j + 1;
        }
      }
      if more { NothingPending(Rest(j), nMsgs); }
      DropTaken(f, j);
    }

    lemma NothingPending(st: RxState, n: nat)
      requires st.frags == []
      ensures Assemble(st, n) == RxResult(st, Ok, n)
    {
    }

    /** The list of pending fragments now begins with the j-th. */
    method DropTaken(f: RxFragment?, ghost j: nat)
      requires Valid() && j <= |frags| && f == At<RxFragment?>(frags, j, null)
      modifies this`fragmentsBegin, this`frags
      ensures Valid() && frags == old(frags)[j..]
      ensures State() == old(Rest(j))
    {
      fragmentsBegin := f;
      frags := frags[j..];
      assert Pending(frags) == old(Pending(frags))[j..];
    }

    /** Make room behind the message in progress. */
    method CompactMessages()
      requires Valid()
      modifies msgDataBuf, msgDataBuf.buffer
      ensures Valid() && msgDataBuf.posA == 0 && State() == old(State())
    {
      hide Indexed, Infos;
      msgDataBuf.Compact();
    }

    /** wtp_rx_handle_packet */
    method HandlePacket(seqNum: U16, data: seq<byte>, newMsgSize: U16) returns (status: Status, nMsgs: nat)
      requires Valid() && |data| < 0x100
      modifies this, store, msgDataBuf, msgDataBuf.buffer, frags
      ensures Valid() && forall f :: f in frags ==> fresh(f) || f in old(frags)
      ensures RxResult(State(), status, nMsgs) == Handle(old(State()), seqNum, data, newMsgSize)
    {
      hide Valid, Assemble, Declare, Store, Finish;
      nMsgs := 0;
      var relBegin := Wrap(seqNum - this.seqNum);
      var relEnd := Wrap(relBegin + |data|);
      if !(relBegin < relEnd <= windowSize) { return Invalid, 0; }
      if newMsgSize != 0 {
        status := DeclareMessage(seqNum, newMsgSize);
        if status != Ok { return; }
      }
      status := StoreFragment(seqNum, data);
      if status != Ok { return; }
      CompactMessages();
      assert forall i :: 0 <= i < |frags| ==> fresh(frags[i]) || frags[i] in old(frags);
      status, nMsgs := AssembleAll();
    }

    lemma SlicedTwice(s: seq<byte>, a: nat, b: nat)
      requires a + b <= |s|
      ensures s[a..][..b] == s[a..a + b] && s[a..][b..] == s[a + b..]
    {
    }

    lemma DrainNothing(buf: seq<byte>)
      ensures Drain(buf, 0) == Drained([], buf, true)
    {
    }

    lemma DrainUnfolds(buf: seq<byte>, n: nat)
      requires n > 0 && Drain(buf, n).ok
      ensures 2 <= |buf| && 2 + Word(buf[0], buf[1]) <= |buf|
      ensures var end := 2 + Word(buf[0], buf[1]);
              var d := Drain(buf[end..], n - 1);
              Drain(buf, n) == d.(msgs := [buf[2..end]] + d.msgs)
    {
    }

    /** Take the first of n completed messages off the buffer. */
    method ReadMessage(ghost n: nat) returns (msg: Msg)
      requires msgDataBuf.Valid() && n > 0 && Drain(msgDataBuf.Unread(), n).ok
      modifies msgDataBuf`posA
      ensures msgDataBuf.Valid()
      ensures var d := Drain(msgDataBuf.Unread(), n - 1);
              Drain(old(msgDataBuf.Unread()), n) == d.(msgs := [msg] + d.msgs)
    {
      hide Drain, Word, WioBuf.Valid, WioBuf.Unread;
      ghost var unread := msgDataBuf.Unread();
      DrainUnfolds(unread, n);
      var size := msgDataBuf.Read(2);
      SlicedTwice(unread, 2, Word(unread[0], unread[1]));
      var msgSize := Word(size[0], size[1]);
      msg := msgDataBuf.Read(msgSize);
    }

    /** The loop that hands the completed messages to the receive callbacks. */
    method HandOut(n: nat) returns (msgs: seq<Msg>)
      requires Valid() && Drain(msgDataBuf.Unread(), n).ok
      modifies msgDataBuf`posA
      ensures Valid() && msgs == Drain(old(msgDataBuf.Unread()), n).msgs
      ensures State() == old(State()).(buf := Drain(old(msgDataBuf.Unread()), n).rest)
    {
      hide Indexed, Infos, Drain, Linked;
      msgs := [];
      ghost var all := Drain(State().buf, n);
      assert [] + all.msgs == all.msgs;
      for i := 0 to n
        invariant Valid()
        invariant all == var d := Drain(msgDataBuf.Unread(), n - i); d.(msgs := msgs + d.msgs)
      {
        ghost var given := msgs;
        var msg := ReadMessage(n - i);
        msgs := msgs + [msg];
        ghost var d := Drain(msgDataBuf.Unread(), n - i - 1);
        assert given + ([msg] + d.msgs) == msgs + d.msgs;
      }
      DrainNothing(msgDataBuf.Unread());
      assert msgs + [] == msgs;
    }

    /** A data packet arrives: reassemble, hand out, and answer with the sequence number. */
    method HandleMsgPacket(p: Packet) returns (msgs: seq<Msg>, ack: U16)
      requires Valid() && |p.data| < 0x100 && Receive(State(), p).ok
      modifies this, store, msgDataBuf, msgDataBuf.buffer, frags
      ensures Valid() && forall f :: f in frags ==> fresh(f) || f in old(frags)
      ensures var r := Receive(old(State()), p);
              State() == r.rx && msgs == r.msgs && ack == r.rx.seqNum
    {
      hide Valid, Handle, Drain;
      var status, nMsgs := HandlePacket(p.seqNum, p.data, p.msgSize);
      msgs := HandOut(nMsgs);
      ack := seqNum;
    }
  }

  ghost function SizeWritten(st: RxState): RxState {
    if BeginsHere(st) then st.(buf := st.buf + Le16(st.infos[0].size)) else st
  }

  ghost function DataTaken(st: RxState, f: RxFrag): RxState {
    st.(buf := st.buf + f.data, seqNum := Wrap(st.seqNum + |f.data|))
  }

  ghost function Skip(st: RxState, j: nat): RxState
    requires j <= |st.frags|
  {
    st.(frags := st.frags[j..])
  }

  lemma UnfoldNoSize(st: RxState, j: nat, n: nat)
    requires j < |st.frags| && BeginsHere(st) && !Fits2(st, 2)
    ensures Assemble(Skip(st, j), n) == RxResult(Skip(st, j), OutOfRange, n)
  {
  }

  lemma UnfoldGap(st: RxState, j: nat, n: nat)
    requires j < |st.frags| && (BeginsHere(st) ==> Fits2(st, 2))
    requires st.frags[j].seqNum != st.seqNum
    ensures Assemble(Skip(st, j), n) == RxResult(Skip(SizeWritten(st), j), Ok, n)
  {
  }

  lemma UnfoldNoRoom(st: RxState, j: nat, n: nat)
    requires j < |st.frags| && (BeginsHere(st) ==> Fits2(st, 2))
    requires st.frags[j].seqNum == st.seqNum && !Fits2(SizeWritten(st), |st.frags[j].data|)
    ensures Assemble(Skip(st, j), n) == RxResult(Skip(SizeWritten(st), j), OutOfRange, n)
  {
  }

  lemma UnfoldTake(st: RxState, j: nat, n: nat)
    requires j < |st.frags| && (BeginsHere(st) ==> Fits2(st, 2))
    requires st.frags[j].seqNum == st.seqNum && Fits2(SizeWritten(st), |st.frags[j].data|)
    ensures var t := DataTaken(SizeWritten(st), st.frags[j]);
            Assemble(Skip(st, j), n) ==
            if EndsHere(t) then Assemble(Skip(t.(infos := t.infos[1..]), j + 1), n + 1)
            else Assemble(Skip(t, j + 1), n)
  {
    assert st.frags[j..][1..] == st.frags[j + 1..];
  }

  /** One turn of reassembly with the first j fragments already taken in, branch by branch. */
  lemma AssembleUnfolds(st: RxState, j: nat, n: nat)
    requires j < |st.frags|
    ensures BeginsHere(st) && !Fits2(st, 2) ==> Assemble(Skip(st, j), n) == RxResult(Skip(st, j), OutOfRange, n)
    ensures var s, f := SizeWritten(st), st.frags[j];
            (BeginsHere(st) ==> Fits2(st, 2)) ==>
              && (f.seqNum != st.seqNum ==> Assemble(Skip(st, j), n) == RxResult(Skip(s, j), Ok, n))
              && (f.seqNum == st.seqNum && !Fits2(s, |f.data|) ==>
                    Assemble(Skip(st, j), n) == RxResult(Skip(s, j), OutOfRange, n))
              && (f.seqNum == st.seqNum && Fits2(s, |f.data|) ==>
                    var t := DataTaken(s, f);
                    Assemble(Skip(st, j), n) ==
                    if EndsHere(t) then Assemble(Skip(t.(infos := t.infos[1..]), j + 1), n + 1)
                    else Assemble(Skip(t, j + 1), n))
  {
    hide Assemble, BeginsHere, EndsHere, Fits2;
    if BeginsHere(st) && !Fits2(st, 2) {
      UnfoldNoSize(st, j, n);
    } else if st.frags[j].seqNum != st.seqNum {
      UnfoldGap(st, j, n);
    } else if !Fits2(SizeWritten(st), |st.frags[j].data|) {
      UnfoldNoRoom(st, j, n);
    } else {
      UnfoldTake(st, j, n);
    }
  }
}
