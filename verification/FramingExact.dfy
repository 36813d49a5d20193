/**
 * What the tag accepts and refuses (client/wtp/wtp/endpoint.c), in terms of
 * the bytes and their XOR alone: which stretches of a BlockWrite are handed
 * on, which are skipped, and what ends the list.
 */
module FramingExact {
  import opened Base
  import opened Wire
  import opened Framing

  // ------------------------------------------------------------ one record

  /** A known packet type, and behind the parameter type the parameter that is known. */
  predicate Typed(s: seq<byte>) {
    && s != []
    && (s[0] == PKT_OPEN || s[0] == PKT_ACK || s[0] == PKT_BEGIN_MSG || s[0] == PKT_CONT_MSG || s[0] == PKT_SET_PARAM)
    && (s[0] == PKT_SET_PARAM && |s| > 1 ==> s[1] == PARAM_READ_SIZE)
  }

  /** The size of the record that begins with these bytes, as far as they tell. */
  function Expected(s: seq<byte>): (n: nat)
    requires Typed(s)
  {
    if s[0] == PKT_OPEN then 1
    else if s[0] == PKT_ACK || s[0] == PKT_SET_PARAM then 3
    else
      var header := if s[0] == PKT_BEGIN_MSG then 6 else 4;
      header + if |s| < header then 0 else s[header - 1] as int
  }

  predicate Complete(r: seq<byte>) { Typed(r) && |r| == Expected(r) }

  lemma Le16OfWord(low: byte, high: byte)
    ensures Le16(Word(low, high)) == [low, high]
  {
    assert Word(low, high) % 256 == low as int && Word(low, high) / 256 == high as int;
  }

  lemma DataRead(msgSize: Option<U16>, head: seq<byte>, low: byte, high: byte, length: byte, data: seq<byte>)
    requires |data| == length as int
    requires head == match msgSize case None => [PKT_CONT_MSG] case Some(n) => [PKT_BEGIN_MSG] + Le16(n)
    ensures var p := DataOf(msgSize, Word(low, high), data);
            Sendable(p) && Record(p) == head + [low, high, length] + data
  {
    hide Le16, Word;
    Le16OfWord(low, high);
    assert ByteOf(|data|) == length;
    assert Le16(Word(low, high)) + [ByteOf(|data|)] == [low, high, length];
  }

  /** A record complete in front with its checksum behind it: what the parser makes of it. */
  lemma DataByLength(s: seq<byte>, head: seq<byte>, msgSize: Option<U16>)
    requires |head| + 3 <= |s| && head == s[..|head|]
    requires head == match msgSize case None => [PKT_CONT_MSG] case Some(n) => [PKT_BEGIN_MSG] + Le16(n)
    ensures var i, n := |head|, |head| + 3 + s[|head| + 2] as int;
            if |s| <= n then DataFront(s, i, msgSize) == Failed(OutOfRange)
            else if Xor(s[..n]) != s[n] then DataFront(s, i, msgSize) == Failed(BadChecksum)
            else
              var p := DataOf(msgSize, Word(s[i], s[i + 1]), s[i + 3..n]);
              DataFront(s, i, msgSize) == Got(p, n + 1) && Sendable(p) && Record(p) == s[..n]
  {
    hide Xor, Word, Le16, Record, DataOf;
    var i, n := |head|, |head| + 3 + s[|head| + 2] as int;
    if |s| > n {
      DataRead(msgSize, head, s[i], s[i + 1], s[i + 2], s[i + 3..n]);
      assert s[..n] == head + [s[i], s[i + 1], s[i + 2]] + s[i + 3..n];
    }
  }

  /** The front of the list goes by the size of the record and the XOR of its bytes. */
  ghost predicate ByLength(s: seq<byte>, front: Front)
    requires Typed(s)
  {
    var n := Expected(s);
    if |s| <= n then front == Failed(OutOfRange)
    else if Xor(s[..n]) != s[n] then front == Failed(BadChecksum)
    else front.Got? && front.size == n + 1 && Sendable(front.packet) && Record(front.packet) == s[..n]
  }

  lemma ShortByLength(s: seq<byte>)
    requires Typed(s) && (s[0] == PKT_OPEN || s[0] == PKT_ACK || s[0] == PKT_SET_PARAM)
    ensures ByLength(s, ParseFront(s))
  {
    hide Xor, Word, Le16;
    if |s| > 3 { Le16OfWord(s[1], s[2]); }
    if |s| > Expected(s) { assert s[..1] == [s[0]]; assert |s| > 3 ==> s[..3] == [s[0], s[1], s[2]]; }
  }

  lemma LongByLength(s: seq<byte>)
    requires Typed(s) && (s[0] == PKT_BEGIN_MSG || s[0] == PKT_CONT_MSG)
    ensures ByLength(s, ParseFront(s))
  {
    hide Xor, Word, Le16, Record, DataOf;
    if s[0] == PKT_CONT_MSG {
      if |s| >= 4 { DataByLength(s, s[..1], None); }
    } else if |s| >= 6 {
      Le16OfWord(s[1], s[2]);
      assert s[..3] == [PKT_BEGIN_MSG] + Le16(Word(s[1], s[2]));
      DataByLength(s, s[..3], Some(Word(s[1], s[2])));
    }
  }

  lemma FrontByLength(s: seq<byte>)
    ensures Typed(s) ==> ByLength(s, ParseFront(s))
  {
    hide ByLength, ParseFront;
    if Typed(s) {
      if s[0] == PKT_BEGIN_MSG || s[0] == PKT_CONT_MSG { LongByLength(s); } else { ShortByLength(s); }
    }
  }

  lemma CompleteRecord(p: Packet)
    requires Sendable(p)
    ensures Complete(Record(p))
  {
    hide Le16;
    match p
    case BeginMsg(_, _, data) => IntOfByteOf(|data|);
    case ContMsg(_, data) => IntOfByteOf(|data|);
    case _ =>
  }

  /** Bytes too few for their record are the beginning of one. */
  ghost function Filled(s: seq<byte>): (r: seq<byte>)
    requires Typed(s) && |s| <= Expected(s)
  {
    if s == [PKT_SET_PARAM] then [PKT_SET_PARAM, PARAM_READ_SIZE, 0]
    else s + seq(Expected(s) - |s|, _ => 0 as byte)
  }

  lemma FilledComplete(s: seq<byte>)
    requires Typed(s) && |s| <= Expected(s)
    ensures Complete(Filled(s)) && s == Filled(s)[..|s|]
  {
  }

  /** Every complete record is one of a packet. */
  lemma RecordRead(r: seq<byte>) returns (p: Packet)
    requires Complete(r)
    ensures Sendable(p) && Record(p) == r
  {
    hide Complete, Record, Xor, ParseFront;
    var s := r + [Xor(r)];
    assert s[..|r|] == r;
    assert Typed(s) && Expected(s) == |r| by { StillExpected(r, [Xor(r)]); }
    FrontByLength(s);
    p := ParseFront(s).packet;
  }

  lemma StillExpected(r: seq<byte>, more: seq<byte>)
    requires Complete(r)
    ensures Typed(r + more) && Expected(r + more) == |r|
  {
  }

  // -------------------------------------------------- what stands in the list

  /** A packet handed on, or a parameter that is skipped. */
  datatype Piece = Taken(packet: Packet) | Skipped(code: byte)

  predicate Allowed(piece: Piece) {
    match piece
    case Taken(p) => Sendable(p)
    case Skipped(code) => code != PARAM_READ_SIZE
  }

  predicate AllAllowed(pieces: seq<Piece>) { forall i :: 0 <= i < |pieces| ==> Allowed(pieces[i]) }

  /** The bytes it occupies: a skipped parameter just the two. */
  ghost function Stretch(piece: Piece): seq<byte>
    requires Allowed(piece)
  {
    match piece
    case Taken(p) => Sealed(p)
    case Skipped(code) => [PKT_SET_PARAM, code]
  }

  ghost function Stretches(pieces: seq<Piece>): seq<byte>
    requires AllAllowed(pieces)
    decreases |pieces|
  {
    if pieces == [] then [] else Stretch(pieces[0]) + Stretches(pieces[1..])
  }

  function Packets(pieces: seq<Piece>): seq<Packet> {
    if pieces == [] then []
    else (match pieces[0] case Taken(p) => [p] case Skipped(_) => []) + Packets(pieces[1..])
  }

  /** The record of a packet with a wrong byte behind it. */
  ghost predicate WrongChecksum(rest: seq<byte>, p: Packet)
    requires Sendable(p)
  {
    |rest| > |Record(p)| && rest[..|Record(p)|] == Record(p) && rest[|Record(p)|] != Xor(Record(p))
  }

  /** The beginning of a record, at most all of it, and no byte behind it. */
  ghost predicate CutShort(rest: seq<byte>, p: Packet)
    requires Sendable(p)
  {
    0 < |rest| <= |Record(p)| && rest == Record(p)[..|rest|]
  }

  predicate UnknownType(b: byte) { b == 2 || b == 6 || b > 7 }

  /** What is left where the list ends. */
  ghost predicate Ends(rest: seq<byte>, status: Status) {
    match status
    case Ok => rest == [] || rest[0] == PKT_END
    case OutOfRange => exists p :: Sendable(p) && CutShort(rest, p)
    case BadChecksum => exists p :: Sendable(p) && WrongChecksum(rest, p)
    case Unsupported => rest != [] && UnknownType(rest[0])
  }

  // ------------------------------------------------------- the front, exactly

  /** What the front of the list is, for what the parser says of it. */
  ghost predicate FrontIs(s: seq<byte>, front: Front) {
    match front
    case End => Ends(s, Ok)
    case Failed(status) => status != Ok && Ends(s, status)
    case Ignored(n) => n == 2 <= |s| && s[0] == PKT_SET_PARAM && s[1] != PARAM_READ_SIZE
    case Got(p, n) => Sendable(p) && n == |Sealed(p)| <= |s| && s[..n] == Sealed(p)
  }

  lemma FrontOfTyped(s: seq<byte>)
    requires Typed(s)
    ensures FrontIs(s, ParseFront(s))
  {
    hide ParseFront, Record, Xor, Typed, Expected;
    FrontByLength(s);
    var n := Expected(s);
    if |s| <= n {
      FilledComplete(s);
      var p := RecordRead(Filled(s));
      assert 0 < |s| by { TypedNonEmpty(s); }
      assert CutShort(s, p);
    } else if Xor(s[..n]) != s[n] {
      FirstComplete(s);
      var p := RecordRead(s[..n]);
      assert WrongChecksum(s, p);
    } else {
      assert s[..n + 1] == s[..n] + [s[n]];
    }
  }

  lemma TypedNonEmpty(s: seq<byte>)
    requires Typed(s)
    ensures s != []
  {
  }

  lemma FirstComplete(s: seq<byte>)
    requires Typed(s) && Expected(s) <= |s|
    ensures Complete(s[..Expected(s)])
  {
  }

  lemma FrontExplained(s: seq<byte>)
    ensures FrontIs(s, ParseFront(s))
  {
    hide Verify, DataFront, Record, Xor, CutShort, WrongChecksum;
    if Typed(s) { FrontOfTyped(s); }
  }

  /** In the other direction: what stands there decides what the parser says. */
  lemma FrontOfWrong(s: seq<byte>, p: Packet)
    requires Sendable(p) && WrongChecksum(s, p)
    ensures ParseFront(s) == Failed(BadChecksum)
  {
    hide ParseFront, Record, Xor, Complete, Typed, Expected;
    CompleteRecord(p);
    var r := Record(p);
    assert s == r + s[|r|..];
    StillExpected(r, s[|r|..]);
    FrontByLength(s);
  }

  lemma FrontOfCut(s: seq<byte>, p: Packet)
    requires Sendable(p) && CutShort(s, p)
    ensures ParseFront(s) == Failed(OutOfRange)
  {
    hide ParseFront, Record, Xor;
    CompleteRecord(p);
    FirstExpected(Record(p), |s|);
    FrontByLength(s);
  }

  lemma FirstExpected(r: seq<byte>, n: nat)
    requires Complete(r) && 0 < n <= |r|
    ensures Typed(r[..n]) && n <= Expected(r[..n])
  {
  }

  lemma FrontOfEnd(s: seq<byte>, status: Status)
    requires Ends(s, status)
    ensures ParseFront(s) == if status == Ok then End else Failed(status)
  {
    hide ParseFront, CutShort, WrongChecksum;
    match status
    case OutOfRange => var p :| Sendable(p) && CutShort(s, p); FrontOfCut(s, p);
    case BadChecksum => var p :| Sendable(p) && WrongChecksum(s, p); FrontOfWrong(s, p);
    case _ => PlainEnd(s);
  }

  lemma PlainEnd(s: seq<byte>)
    ensures s == [] || s[0] == PKT_END ==> ParseFront(s) == End
    ensures s != [] && UnknownType(s[0]) ==> ParseFront(s) == Failed(Unsupported)
  {
    hide DataFront, Verify;
  }

  lemma FrontOfSkipped(code: byte, rest: seq<byte>)
    requires code != PARAM_READ_SIZE
    ensures ParseFront([PKT_SET_PARAM, code] + rest) == Ignored(2)
  {
  }

  // -------------------------------------------------------- the whole list

  /**
   * Whatever the memory holds: the list is the packets of a series of
   * stretches, each with an XOR of 0 and its own checksum behind it or a
   * skipped parameter of two bytes, and it ends as what is left behind them
   * says.
   */
  lemma {:induction false} ParseExplained(s: seq<byte>) returns (pieces: seq<Piece>, rest: seq<byte>)
    ensures AllAllowed(pieces) && s == Stretches(pieces) + rest
    ensures Parse(s).packets == Packets(pieces) && Ends(rest, Parse(s).status)
    ensures forall i :: 0 <= i < |pieces| && pieces[i].Taken? ==> Xor(Stretch(pieces[i])) == 0
    decreases |s|
  {
    hide ParseFront, Sealed, Ends, Xor;
    FrontExplained(s);
    match ParseFront(s)
    case Got(p, n) =>
      var more;
      more, rest := ParseExplained(s[n..]);
      pieces := [Taken(p)] + more;
      Explains(s, n, Taken(p), more, rest);
      SealedCancels(p);
    case Ignored(n) =>
      var more;
      more, rest := ParseExplained(s[n..]);
      pieces := [Skipped(s[1])] + more;
      assert s[..2] == [PKT_SET_PARAM, s[1]];
      Explains(s, n, Skipped(s[1]), more, rest);
    case _ =>
      pieces, rest := [], s;
      assert [] + s == s;
  }

  lemma SealedCancels(p: Packet)
    requires Sendable(p)
    ensures Xor(Sealed(p)) == 0
  {
    XorCancels(Record(p));
  }

  lemma Explains(s: seq<byte>, n: nat, piece: Piece, more: seq<Piece>, rest: seq<byte>)
    requires Allowed(piece) && AllAllowed(more)
    requires n <= |s| && s[..n] == Stretch(piece) && s[n..] == Stretches(more) + rest
    ensures var pieces := [piece] + more;
            && AllAllowed(pieces) && s == Stretches(pieces) + rest
            && Packets(pieces) == (match piece case Taken(p) => [p] case Skipped(_) => []) + Packets(more)
  {
    hide Stretch;
    assert ([piece] + more)[1..] == more;
    assert s == s[..n] + s[n..];
    assert Stretch(piece) + (Stretches(more) + rest) == (Stretch(piece) + Stretches(more)) + rest;
  }

  /** And any such reading of the memory is the list. */
  lemma {:induction false} ParseDetermined(pieces: seq<Piece>, rest: seq<byte>, status: Status)
    requires AllAllowed(pieces) && Ends(rest, status)
    ensures Parse(Stretches(pieces) + rest) == Parsed(Packets(pieces), status)
    decreases |pieces|
  {
    hide ParseFront, Sealed, Ends;
    if pieces == [] {
      assert [] + rest == rest;
      FrontOfEnd(rest, status);
    } else {
      var behind := Stretches(pieces[1..]) + rest;
      var first := Stretch(pieces[0]);
      assert Stretches(pieces) + rest == first + behind;
      assert (first + behind)[|first|..] == behind;
      match pieces[0] {
        case Taken(p) => FrontOfSealed(p, behind);
        case Skipped(code) => FrontOfSkipped(code, behind);
      }
      ParseDetermined(pieces[1..], rest, status);
    }
  }

  // ----------------------------------------------------- one byte changed

  /** The bytes that say what is where: type, parameter code and payload length. */
  predicate Structural(p: Packet, i: nat) {
    i == 0 || (p.ReadSize? && i == 1) || (p.BeginMsg? && i == 5) || (p.ContMsg? && i == 3)
  }

  lemma XorChanged(s: seq<byte>, i: nat, b: byte)
    requires i < |s| && b != s[i]
    ensures Xor(s[i := b]) != Xor(s)
  {
    hide Xor;
    XorAround(s, i);
    XorAround(s[i := b], i);
    assert s[i := b][..i] == s[..i] && s[i := b][i + 1..] == s[i + 1..];
    XorDiffers(Xor(s[..i]), s[i], b, Xor(s[i + 1..]));
  }

  lemma XorDiffers(x: byte, a: byte, b: byte, y: byte)
    requires a != b
    ensures (x ^ a) ^ y != (x ^ b) ^ y
  {
  }

  lemma XorAround(s: seq<byte>, i: nat)
    requires i < |s|
    ensures Xor(s) == (Xor(s[..i]) ^ s[i]) ^ Xor(s[i + 1..])
  {
    hide Xor;
    assert s == (s[..i] + [s[i]]) + s[i + 1..];
    XorAppend(s[..i] + [s[i]], s[i + 1..]);
    XorAppend(s[..i], [s[i]]);
    assert Xor([s[i]]) == s[i] by { XorOne(s[i]); }
  }

  lemma XorOne(b: byte)
    ensures Xor([b]) == b
  {
    assert [b][..0] == [];
    assert Xor([]) == 0;
  }

  lemma StillComplete(p: Packet, i: nat, b: byte)
    requires Sendable(p) && i < |Record(p)| && !Structural(p, i)
    ensures Complete(Record(p)[i := b])
  {
    hide Le16;
    CompleteRecord(p);
  }

  /** The record with another byte, or the checksum changed, is a record with a wrong byte behind it. */
  lemma ChangedIsWrong(p: Packet, i: nat, b: byte, behind: seq<byte>) returns (q: Packet)
    requires Sendable(p) && i < |Sealed(p)| && !Structural(p, i) && b != Sealed(p)[i]
    ensures Sendable(q) && WrongChecksum(Sealed(p)[i := b] + behind, q)
  {
    hide Record, Xor, Structural;
    var r := Record(p);
    if i == |r| {
      q := p;
      assert (Sealed(p)[i := b] + behind)[..|r|] == r;
    } else {
      StillComplete(p, i, b);
      q := RecordRead(r[i := b]);
      XorChanged(r, i, b);
      assert (Sealed(p)[i := b] + behind)[..|r|] == r[i := b];
    }
  }

  /**
   * So behind any packets, one byte of a packet changed on the way, be it in
   * its fields, its payload or its checksum: the packets in front are handed
   * on, and the list ends there with a bad checksum.
   */
  lemma ChangedByteRefused(ps: seq<Packet>, p: Packet, i: nat, b: byte, behind: seq<byte>)
    requires (forall j :: 0 <= j < |ps| ==> Sendable(ps[j])) && Sendable(p)
    requires i < |Sealed(p)| && !Structural(p, i) && b != Sealed(p)[i]
    ensures Parse(Bytes(ps) + (Sealed(p)[i := b] + behind)) == Parsed(ps, BadChecksum)
  {
    hide Parse, Sealed, Bytes, Structural, WrongChecksum;
    var q := ChangedIsWrong(p, i, b, behind);
    var rest := Sealed(p)[i := b] + behind;
    assert Ends(rest, BadChecksum);
    AllTaken(ps);
    ParseDetermined(TakenAll(ps), rest, BadChecksum);
  }

  ghost function TakenAll(ps: seq<Packet>): (pieces: seq<Piece>)
    ensures |pieces| == |ps|
    ensures forall i :: 0 <= i < |ps| ==> pieces[i] == Taken(ps[i])
  {
    seq(|ps|, i requires 0 <= i < |ps| => Taken(ps[i]))
  }

  lemma {:induction false} AllTaken(ps: seq<Packet>)
    requires forall j :: 0 <= j < |ps| ==> Sendable(ps[j])
    ensures AllAllowed(TakenAll(ps)) && Stretches(TakenAll(ps)) == Bytes(ps) && Packets(TakenAll(ps)) == ps
    decreases |ps|
  {
    hide Sealed;
    if ps != [] {
      assert TakenAll(ps)[1..] == TakenAll(ps[1..]);
      AllTaken(ps[1..]);
      assert [ps[0]] + ps[1..] == ps;
    }
  }

  // ------------------------------------------------- handlers that fail later

  /** With a handler failing after parsing, the list ends with its packet and its status; it is the first that does. */
  lemma {:induction false} EndsAtFirstFailure(parsed: Parsed, outcome: nat -> Status, i: nat, k: nat)
    requires k < |parsed.packets| && outcome(i + k) != Ok
    requires forall j :: i <= j < i + k ==> outcome(j) == Ok
    ensures Handled(parsed, outcome, i) == Parsed(parsed.packets[..k + 1], outcome(i + k))
    decreases k
  {
    if k > 0 {
      var rest := Parsed(parsed.packets[1..], parsed.status);
      EndsAtFirstFailure(rest, outcome, i + 1, k - 1);
      assert [parsed.packets[0]] + parsed.packets[1..][..k] == parsed.packets[..k + 1];
    }
  }
}
