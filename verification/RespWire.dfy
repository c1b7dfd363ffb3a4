/** Replies as a server writes them, byte for byte, and the grammar on what it writes. */
module RespWire {
  import opened Bytes
  import opened Decimal
  import opened Resp

  // ----- What a server writes -----

  /** The bytes are `$`, `:`, `+`, `-`, `*` and the line end. */
  function Encode(v: Reply): bytes
    decreases v
  {
    match v
    case Nil => [36, 45, 49, 13, 10]
    case Integer(n) => [58] + PrintInt(n) + [13, 10]
    case Status(t) => [43] + t + [13, 10]
    case Error(t) => [45] + t + [13, 10]
    case Bulk(t) => [36] + Dec(|t|) + [13, 10] + t + [13, 10]
    case Array(es) => [42] + Dec(|es|) + [13, 10] + EncodeAll(es)
    case BadArray(n) => [42] + PrintInt(n) + [13, 10]
  }

  function EncodeAll(vs: seq<Reply>): bytes
    decreases vs
  {
    if vs == [] then [] else Encode(vs[0]) + EncodeAll(vs[1..])
  }

  /** Numbers fit their C types, and a line holds no line end. */
  predicate Encodable(v: Reply) {
    match v
    case Nil => true
    case Integer(n) => -0x8000_0000_0000_0000 <= n < 0x8000_0000_0000_0000
    case Status(t) => OneLine(t)
    case Error(t) => OneLine(t)
    case Bulk(t) => |t| < 0x8000_0000_0000_0000
    case Array(es) => |es| <= INT_MAX && forall e :: e in es ==> Encodable(e)
    case BadArray(n) => -0x8000_0000 <= n <= -2
  }

  predicate OneLine(t: bytes) {
    forall i :: 0 <= i < |t| - 1 ==> !(t[i] == 13 && t[i + 1] == 10)
  }

  /** How many arrays are inside each other. */
  function Height(v: Reply): nat {
    match v
    case Array(es) => 1 + HeightAll(es)
    case BadArray(_) => 1
    case _ => 0
  }

  function HeightAll(vs: seq<Reply>): nat {
    if vs == [] then 0 else if Height(vs[0]) > HeightAll(vs[1..]) then Height(vs[0]) else HeightAll(vs[1..])
  }

  // ----- The grammar reads it -----

  lemma LineRead(kind: Kind, t: bytes, rest: bytes, depth: nat)
    requires OneLine(t) && depth <= 3 && kind in {ErrorKind, StatusKind, IntegerKind}
    ensures var type_ := if kind == ErrorKind then 45 else if kind == StatusKind then 43 else 58;
            ParseItem(depth, [type_] + t + [13, 10] + rest) == Done(LineReply(kind, t), rest)
  {
    hide ReadNumber, FirstCrlf;
    var type_ := if kind == ErrorKind then 45 else if kind == StatusKind then 43 else 58;
    var s := [type_] + t + [13, 10] + rest;
    var u := t + [13, 10] + rest;
    assert s[1..] == u;
    assert CrlfAt(u, |t|);
    forall j: nat | j < |t| ensures !CrlfAt(u, j) {
      assert u[j] == t[j] && (j < |t| - 1 ==> u[j + 1] == t[j + 1]);
    }
    FirstCrlfUnique(u, |t|);
    assert u[..|t|] == t && u[|t| + 2..] == rest;
  }

  lemma IntegerRead(n: int, rest: bytes, depth: nat)
    requires -0x8000_0000_0000_0000 <= n < 0x8000_0000_0000_0000 && depth <= 3
    ensures ParseItem(depth, Encode(Integer(n)) + rest) == Done(Integer(n), rest)
  {
    hide ReadNumber, ParseItem, PrintInt, Dec;
    IntDigits(n);
    LineRead(IntegerKind, PrintInt(n), rest, depth);
    ReadPrinted(n);
  }

  lemma IntDigits(n: int)
    ensures OneLine(PrintInt(n))
  {
    DecDigits(if n < 0 then -n else n);
  }

  lemma BulkRead(t: bytes, rest: bytes, depth: nat)
    requires |t| < 0x8000_0000_0000_0000 && depth <= 3
    ensures ParseItem(depth, Encode(Bulk(t)) + rest) == Done(Bulk(t), rest)
  {
    hide FirstCrlf, ReadNumber, Dec;
    var s := Encode(Bulk(t)) + rest;
    var n := Dec(|t|);
    assert s[1..] == n + CRLF + (t + [13, 10] + rest);
    FirstCrlfDec(|t|, t + [13, 10] + rest);
    assert s[1..][..|n|] == n;
    ReadNumberDec(|t|);
    var start := |n| + 2;
    assert s[1..][start..start + |t|] == t;
    assert s[1..][start + |t| + 2..] == rest;
  }

  /** Every negative length means nil. */
  lemma NilRead(n: int, rest: bytes, depth: nat)
    requires -0x8000_0000_0000_0000 <= n < 0 && depth <= 3
    ensures ParseItem(depth, [36] + PrintInt(n) + [13, 10] + rest) == Done(Nil, rest)
  {
    hide FirstCrlf, ReadNumber, PrintInt;
    var s := [36] + PrintInt(n) + [13, 10] + rest;
    assert s[1..] == PrintInt(n) + CRLF + rest;
    FirstCrlfInt(n, rest);
    ReadPrinted(n);
    assert s[1..][..|PrintInt(n)|] == PrintInt(n) && s[1..][|PrintInt(n)| + 2..] == rest;
  }

  /** The count of an array and what follows it. A count is cut to 32 bits once it is known
      to be positive or below -1. */
  lemma ArrayRead(n: int, rest: bytes, depth: nat)
    requires -0x8000_0000_0000_0000 <= n < 0x8000_0000_0000_0000 && depth <= 3
    ensures var r := ParseItem(depth, [42] + PrintInt(n) + [13, 10] + rest);
            if depth == 3 then r == Bad(TooDeep)
            else if n < -1 then r == Done(BadArray(Wrap32(n)), rest)
            else if n == -1 then r == Done(Nil, rest)
            else if n == 0 then r == Done(Array([]), rest)
            else if Wrap32(n) <= 0 then r == Bad(Undefined)
            else match ParseElements(depth + 1, Wrap32(n), rest)
              case Done(vs, rest') => r == Done(Array(vs), rest')
              case More => r == More
              case Bad(e) => r == Bad(e)
  {
    hide FirstCrlf, ReadNumber, PrintInt, ParseElements;
    var s := [42] + PrintInt(n) + [13, 10] + rest;
    assert s[1..] == PrintInt(n) + CRLF + rest;
    FirstCrlfInt(n, rest);
    ReadPrinted(n);
    assert s[1..][..|PrintInt(n)|] == PrintInt(n) && s[1..][|PrintInt(n)| + 2..] == rest;
  }

  /** The grammar undoes the encoding of every reply, wherever it stands, and says that it
      is nested too deep exactly when more than three arrays are inside each other. */
  lemma {:induction false} DecodeEncoded(v: Reply, depth: nat, rest: bytes)
    requires Encodable(v) && depth <= 3
    ensures ParseItem(depth, Encode(v) + rest) == if depth + Height(v) <= 3 then Done(v, rest) else Bad(TooDeep)
    decreases v
  {
    hide ParseItem, ReadNumber, Dec, ParseElements;
    match v
    case Nil =>
      NilRead(-1, rest, depth);
      MinusOne();
    case Integer(n) => IntegerRead(n, rest, depth);
    case Status(t) => LineRead(StatusKind, t, rest, depth);
    case Error(t) => LineRead(ErrorKind, t, rest, depth);
    case Bulk(t) => BulkRead(t, rest, depth);
    case BadArray(n) => ArrayRead(n, rest, depth);
    case Array(es) =>
      ArrayRead(|es|, EncodeAll(es) + rest, depth);
      assert Encode(v) + rest == [42] + PrintInt(|es|) + [13, 10] + (EncodeAll(es) + rest);
      if es == [] {
        assert EncodeAll(es) + rest == rest;
      } else if depth < 3 {
        DecodeAll(es, depth + 1, rest);
      }
  }

  lemma MinusOne()
    ensures [36] + PrintInt(-1) + [13, 10] == [36, 45, 49, 13, 10]
  {
  }

  lemma {:induction false} DecodeAll(vs: seq<Reply>, depth: nat, rest: bytes)
    requires (forall v :: v in vs ==> Encodable(v)) && depth <= 3
    ensures ParseElements(depth, |vs|, EncodeAll(vs) + rest) ==
            if depth + HeightAll(vs) <= 3 then Done(vs, rest) else Bad(TooDeep)
    decreases vs
  {
    hide ParseItem, Encode, Height;
    if vs == [] {
      assert EncodeAll(vs) + rest == rest;
    } else {
      var tail := EncodeAll(vs[1..]) + rest;
      assert EncodeAll(vs) + rest == Encode(vs[0]) + tail;
      DecodeEncoded(vs[0], depth, tail);
      DecodeAll(vs[1..], depth, rest);
      assert [vs[0]] + vs[1..] == vs;
    }
  }

  /** A type byte that is none of the five is an error at once. */
  lemma TypeByte(s: bytes, depth: nat)
    requires s != [] && depth <= 3 && s[0] !in {36, 42, 43, 45, 58}
    ensures ParseItem(depth, s) == Bad(BadType(s[0]))
  {
  }

  // ----- Parts of what a server writes -----

  /** What is read on a prefix is read in the same way on any longer input. */
  lemma {:induction false} ItemStable(depth: nat, s: bytes, x: bytes)
    requires depth <= 3 && !ParseItem(depth, s).More?
    ensures ParseItem(depth, s + x) == Longer(ParseItem(depth, s), x)
    decreases 8 - 2 * depth, 0
  {
    hide FirstCrlf, ReadNumber, ParseArray, ParseBulk;
    var t := s[1..];
    assert (s + x)[0] == s[0] && (s + x)[1..] == t + x;
    match KindOf(s[0])
    case Some(BulkKind) => BulkGrows(t, x);
    case Some(ArrayKind) =>
      if depth < 3 {
        ArrayStable(depth, t, x);
      }
    case Some(_) =>
      FirstCrlfAppend(t, x);
      var eol := FirstCrlf(t).value;
      assert (t + x)[..eol] == t[..eol] && (t + x)[eol + 2..] == t[eol + 2..] + x;
    case None =>
  }

  function Longer<T>(p: Parsed<T>, x: bytes): Parsed<T> {
    if p.Done? then Done(p.value, p.rest + x) else p
  }

  lemma BulkGrows(s: bytes, x: bytes)
    requires !ParseBulk(s).More?
    ensures ParseBulk(s + x) == Longer(ParseBulk(s), x)
  {
    hide FirstCrlf, ReadNumber;
    FirstCrlfAppend(s, x);
    var eol := FirstCrlf(s).value;
    assert (s + x)[..eol] == s[..eol];
    var start, len := eol + 2, ReadNumber(s[..eol]);
    if len < 0 {
      assert (s + x)[start..] == s[start..] + x;
    } else {
      assert (s + x)[start..start + len] == s[start..start + len];
      assert (s + x)[start + len + 2..] == s[start + len + 2..] + x;
    }
  }

  lemma {:induction false} ArrayStable(depth: nat, s: bytes, x: bytes)
    requires depth < 3 && !ParseArray(depth, s).More?
    ensures ParseArray(depth, s + x) == Longer(ParseArray(depth, s), x)
    decreases 7 - 2 * depth, 0
  {
    hide FirstCrlf, ReadNumber, ParseElements, Wrap32;
    FirstCrlfAppend(s, x);
    var eol := FirstCrlf(s).value;
    assert (s + x)[..eol] == s[..eol] && (s + x)[eol + 2..] == s[eol + 2..] + x;
    var count := ReadNumber(s[..eol]);
    if count > 0 && Wrap32(count) > 0 {
      ElementsStable(depth + 1, Wrap32(count), s[eol + 2..], x);
    }
  }

  lemma {:induction false} ElementsStable(depth: nat, n: nat, s: bytes, x: bytes)
    requires depth <= 3 && !ParseElements(depth, n, s).More?
    ensures ParseElements(depth, n, s + x) == Longer(ParseElements(depth, n, s), x)
    decreases 8 - 2 * depth, n
  {
    hide ParseItem;
    if n > 0 {
      ItemStable(depth, s, x);
      var first := ParseItem(depth, s);
      if first.Done? {
        ElementsStable(depth, n - 1, first.rest, x);
      }
    }
  }

  /** Until a reply is complete the grammar waits. */
  lemma Incomplete(v: Reply, depth: nat, s: bytes)
    requires Encodable(v) && depth + Height(v) <= 3 && s < Encode(v)
    ensures ParseItem(depth, s) == More
  {
    hide ParseItem, Encode;
    var x := Encode(v)[|s|..];
    assert Encode(v) == s + x && Encode(v) + [] == Encode(v);
    DecodeEncoded(v, depth, []);
    if !ParseItem(depth, s).More? {
      ItemStable(depth, s, x);
    }
  }

  /** A stream of replies is read as those replies. */
  lemma {:induction false} StreamDecoded(vs: seq<Reply>, rest: bytes)
    requires forall v :: v in vs ==> Encodable(v) && Height(v) <= 3
    ensures ParseStream(EncodeAll(vs) + rest) == Stream(vs + ParseStream(rest).replies, ParseStream(rest).error)
    decreases |vs|
  {
    hide ParseItem, Encode, Height;
    if vs == [] {
      assert EncodeAll(vs) + rest == rest && vs + ParseStream(rest).replies == ParseStream(rest).replies;
    } else {
      var tail := EncodeAll(vs[1..]) + rest;
      assert EncodeAll(vs) + rest == Encode(vs[0]) + tail;
      DecodeEncoded(vs[0], 0, tail);
      StreamDecoded(vs[1..], rest);
      assert vs == [vs[0]] + vs[1..];
      Regroup([vs[0]], vs[1..], ParseStream(rest).replies);
    }
  }
}
