/**
 * The byte stream a connection carries: messages laid end to end, and the
 * fragments cut from them.  Positions are absolute (unbounded) here; the
 * protocol only ever transmits them modulo 2^16.
 */
module Stream {
  import opened Base

  type Msg = seq<byte>

  /** Absolute position of the first byte of message k (the total length when k == |ms|). */
  ghost function Start(ms: seq<Msg>, k: nat): nat
    requires k <= |ms|
  {
    if k == 0 then 0 else Start(ms, k - 1) + |ms[k - 1]|
  }

  ghost function Total(ms: seq<Msg>): nat { Start(ms, |ms|) }

  ghost predicate NonEmpty(ms: seq<Msg>) { forall k :: 0 <= k < |ms| ==> 0 < |ms[k]| }

  /** A fragment with its absolute position and the index of the message it is cut from. */
  datatype Frag = Frag(pos: nat, msg: nat, data: seq<byte>)
  {
    ghost function End(): nat { pos + |data| }
  }

  /** The fragment is a non-empty slice of its message: it never straddles two messages. */
  ghost predicate Fits(ms: seq<Msg>, f: Frag) {
    && f.msg < |ms|
    && f.data != []
    && Start(ms, f.msg) <= f.pos
    && f.End() <= Start(ms, f.msg) + |ms[f.msg]|
    && f.data == ms[f.msg][f.pos - Start(ms, f.msg)..f.End() - Start(ms, f.msg)]
  }

  /** The fragment is the first of its message. */
  ghost predicate IsHead(ms: seq<Msg>, f: Frag) {
    f.msg < |ms| && f.pos == Start(ms, f.msg)
  }

  /** What a data packet announces as message size: the size on the first fragment, else 0. */
  ghost function SizeField(ms: seq<Msg>, f: Frag): nat
    requires f.msg < |ms|
  {
    if f.pos == Start(ms, f.msg) then |ms[f.msg]| else 0
  }

  /** The position where fragment i begins; the end of the tiling when i == |h|. */
  ghost function Edge(h: seq<Frag>, i: nat): nat
    requires i <= |h|
  {
    if i == 0 then 0 else h[i - 1].End()
  }

  /** The fragments cover [0, Edge(h, |h|)) without gap or overlap. */
  ghost predicate Tiles(ms: seq<Msg>, h: seq<Frag>) {
    forall i {:trigger Fits(ms, h[i])} :: 0 <= i < |h| ==> Fits(ms, h[i]) && h[i].pos == Edge(h, i)
  }

  lemma {:induction false} StartMonotone(ms: seq<Msg>, i: nat, j: nat)
    requires i <= j <= |ms|
    ensures Start(ms, i) <= Start(ms, j)
    ensures i < j ==> Start(ms, i) + |ms[i]| <= Start(ms, j)
    decreases j
  {
    if i < j { StartMonotone(ms, i, j - 1); }
  }

  lemma {:induction false} StartAppend(ms: seq<Msg>, m: Msg, k: nat)
    requires k <= |ms|
    ensures Start(ms + [m], k) == Start(ms, k)
  {
    if k > 0 { StartAppend(ms, m, k - 1); }
  }

  /** A position lies in one message only. */
  lemma MessageUnique(ms: seq<Msg>, j: nat, k: nat, pos: int)
    requires j < |ms| && k < |ms|
    requires Start(ms, j) <= pos < Start(ms, j) + |ms[j]|
    requires Start(ms, k) <= pos < Start(ms, k) + |ms[k]|
    ensures j == k
  {
    if j < k { StartMonotone(ms, j, k); } else if k < j { StartMonotone(ms, k, j); }
  }

  lemma {:induction false} EdgeMonotone(ms: seq<Msg>, h: seq<Frag>, i: nat, j: nat)
    requires Tiles(ms, h) && i <= j <= |h|
    ensures Edge(h, i) <= Edge(h, j)
    ensures i < j ==> h[i].End() <= Edge(h, j)
    decreases j
  {
    if i < j {
      EdgeMonotone(ms, h, i, j - 1);
      var f := h[j - 1];
      assert Fits(ms, f);
      assert Edge(h, j) == f.pos + |f.data|;
    }
  }

  lemma TilesAppendMsg(ms: seq<Msg>, m: Msg, h: seq<Frag>)
    requires Tiles(ms, h)
    ensures Tiles(ms + [m], h)
    ensures forall i :: 0 <= i < |h| ==> h[i].msg < |ms| && SizeField(ms + [m], h[i]) == SizeField(ms, h[i])
  {
    forall i | 0 <= i < |h|
      ensures h[i].msg < |ms| && Fits(ms + [m], h[i]) && h[i].pos == Edge(h, i)
      ensures SizeField(ms + [m], h[i]) == SizeField(ms, h[i])
    {
      assert Fits(ms, h[i]);
      StartAppend(ms, m, h[i].msg);
    }
  }

  lemma TilesAppendFrag(ms: seq<Msg>, h: seq<Frag>, f: Frag)
    requires Tiles(ms, h) && Fits(ms, f) && f.pos == Edge(h, |h|)
    ensures Tiles(ms, h + [f])
    ensures forall i :: 0 <= i <= |h| ==> Edge(h + [f], i) == Edge(h, i)
  {
    var g := h + [f];
    forall i | 0 <= i < |g| ensures Fits(ms, g[i]) && g[i].pos == Edge(g, i) {
      if i < |h| { assert g[i] == h[i]; assert Fits(ms, h[i]) && h[i].pos == Edge(h, i); }
    }
  }

  /** Exactly the messages before `done` end at or below the position. */
  ghost predicate DoneAt(ms: seq<Msg>, done: nat, pos: int) {
    && done <= |ms|
    && Start(ms, done) <= pos
    && (done < |ms| ==> pos < Start(ms, done) + |ms[done]|)
  }

  /** A fragment that begins in an unfinished message ends in it. */
  lemma FragmentCompletes(ms: seq<Msg>, f: Frag, done: nat)
    requires NonEmpty(ms) && Fits(ms, f) && DoneAt(ms, done, f.pos)
    ensures done < |ms| && f.msg == done
    ensures f.End() < Start(ms, done + 1) ==> DoneAt(ms, done, f.End())
    ensures f.End() >= Start(ms, done + 1) ==> DoneAt(ms, done + 1, f.End())
  {
    StartMonotone(ms, f.msg, |ms|);
    assert done < |ms|;
    MessageUnique(ms, f.msg, done, f.pos);
  }

  /** The first k messages laid end to end. */
  ghost function Concat(ms: seq<Msg>, k: nat): (s: seq<byte>)
    requires k <= |ms|
    ensures |s| == Start(ms, k)
  {
    if k == 0 then [] else Concat(ms, k - 1) + ms[k - 1]
  }

  ghost function Bytes(ms: seq<Msg>): (s: seq<byte>)
    ensures |s| == Total(ms)
  {
    Concat(ms, |ms|)
  }

  /** Message k occupies its own stretch of the stream. */
  lemma {:induction false} MessageInConcat(ms: seq<Msg>, k: nat, j: nat)
    requires k < j <= |ms|
    ensures Start(ms, k) + |ms[k]| <= Start(ms, j)
    ensures Concat(ms, j)[Start(ms, k)..Start(ms, k) + |ms[k]|] == ms[k]
    decreases j
  {
    StartMonotone(ms, k, j);
    if k < j - 1 {
      MessageInConcat(ms, k, j - 1);
      var c := Concat(ms, j - 1);
      assert Concat(ms, j)[Start(ms, k)..Start(ms, k) + |ms[k]|] == c[Start(ms, k)..Start(ms, k) + |ms[k]|];
    }
  }

  /** What a fragment carries is the stretch of the stream at its position. */
  lemma FragInStream(ms: seq<Msg>, f: Frag)
    requires Fits(ms, f)
    ensures f.End() <= Total(ms) && f.data == Bytes(ms)[f.pos..f.End()]
  {
    MessageInConcat(ms, f.msg, |ms|);
    var b, s, n := Bytes(ms), Start(ms, f.msg), |ms[f.msg]|;
    assert b[s..s + n] == ms[f.msg];
    SliceOfSlice(b, s, s + n, f.pos - s, f.End() - s);
  }

  lemma SliceOfSlice<T>(s: seq<T>, a: nat, b: nat, i: nat, j: nat)
    requires a <= b <= |s| && i <= j <= b - a
    ensures s[a..b][i..j] == s[a + i..a + j]
  {
    var t, u := s[a..b][i..j], s[a + i..a + j];
    assert |t| == |u|;
    forall k | 0 <= k < |t| ensures t[k] == u[k] { assert t[k] == s[a..b][i + k]; }
  }
}
