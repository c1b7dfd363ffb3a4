/** JSON trees, the text the printer gives them, and the grammar the parser accepts.
    A text is what follows a `char *`: a zero byte or the end of the sequence ends it. */
module JsonText {
  import opened Bits
  import opened Bytes
  import opened Decimal

  datatype Value =
    | Null
    | Bool(truth: bool)
    | Number(number: real)
    | String(text: bytes)
    | Array(elements: seq<Value>)
    | Object(members: seq<Member>)

  datatype Member = Member(name: bytes, value: Value)

  /** Undefined: the parser steps over the end of the text, or a `\u` lacks its digits. */
  datatype Outcome<+T> = Ok(value: T, rest: bytes) | Fail | Undefined

  const COMMA: byte := 44
  const DOT: byte := 46
  const LBRACKET: byte := 91
  const RBRACKET: byte := 93
  const LBRACE: byte := 123
  const RBRACE: byte := 125

  const NULL_TEXT: bytes := [110, 117, 108, 108]
  const FALSE_TEXT: bytes := [102, 97, 108, 115, 101]
  const TRUE_TEXT: bytes := [116, 114, 117, 101]

  // ----- Printing -----

  /** The character that stands for b after a backslash, if b has a short escape. */
  function ShortEscape(b: byte): Option<byte> {
    if b == BACKSLASH || b == QUOTE then Some(b)
    else if b == 8 then Some(98)
    else if b == 12 then Some(102)
    else if b == LF then Some(110)
    else if b == CR then Some(114)
    else if b == TAB then Some(116)
    else None
  }

  /** How one byte of a string is printed. */
  function EscapeByte(b: byte): (e: bytes)
    ensures |e| >= 1
  {
    if b > 31 && b != QUOTE && b != BACKSLASH then [b]
    else match ShortEscape(b)
      case Some(c) => [BACKSLASH, c]
      case None => [BACKSLASH, 117, ZERO, ZERO, HexDigit(b / 16), HexDigit(b % 16)]
  }

  function Escape(s: bytes): bytes {
    if s == [] then [] else EscapeByte(s[0]) + Escape(s[1..])
  }

  function PrintString(s: bytes): bytes {
    [QUOTE] + Escape(s) + [QUOTE]
  }

  const INT_MIN: int := -0x8000_0000

  predicate IsInt(x: real) {
    x.Floor as real == x && INT_MIN <= x.Floor <= INT_MAX
  }

  /** Trees whose text does not depend on how libc prints a fraction. */
  predicate Printable(v: Value) {
    match v
    case Null => true
    case Bool(_) => true
    case Number(x) => IsInt(x)
    case String(t) => NUL !in t
    case Array(es) => forall e :: e in es ==> Printable(e)
    case Object(ms) => forall m :: m in ms ==> NUL !in m.name && Printable(m.value)
  }

  function Tabs(n: nat): (s: bytes)
    ensures |s| == n
  {
    if n == 0 then [] else [TAB] + Tabs(n - 1)
  }

  function If(fmt: bool, s: bytes): bytes {
    if fmt then s else []
  }

  function PrintValue(v: Value, depth: nat, fmt: bool): bytes
    requires Printable(v)
    decreases v, 0
  {
    match v
    case Null => NULL_TEXT
    case Bool(b) => if b then TRUE_TEXT else FALSE_TEXT
    case Number(x) => PrintInt(x.Floor)
    case String(t) => PrintString(t)
    case Array(es) => [LBRACKET] + PrintElements(es, depth + 1, fmt) + [RBRACKET]
    case Object(ms) =>
      [LBRACE] + If(fmt, [LF]) + PrintMembers(ms, depth + 1, fmt) + If(fmt, Tabs(depth)) + [RBRACE]
  }

  function PrintElements(es: seq<Value>, depth: nat, fmt: bool): bytes
    requires forall e :: e in es ==> Printable(e)
    decreases es, 1
  {
    if es == [] then []
    else PrintValue(es[0], depth, fmt) + ElementEnd(|es| == 1, fmt) + PrintElements(es[1..], depth, fmt)
  }

  /** What separates an element from the next. */
  function ElementEnd(last: bool, fmt: bool): bytes {
    if last then [] else [COMMA] + If(fmt, [SPACE])
  }

  function PrintMembers(ms: seq<Member>, depth: nat, fmt: bool): bytes
    requires forall m :: m in ms ==> Printable(m.value)
    decreases ms, 1
  {
    if ms == [] then []
    else If(fmt, Tabs(depth)) + PrintMember(ms[0], depth, fmt) + MemberEnd(|ms| == 1, fmt) + PrintMembers(ms[1..], depth, fmt)
  }

  function PrintMember(m: Member, depth: nat, fmt: bool): bytes
    requires Printable(m.value)
    decreases m, 1
  {
    PrintString(m.name) + [COLON] + If(fmt, [TAB]) + PrintValue(m.value, depth, fmt)
  }

  function MemberEnd(last: bool, fmt: bool): bytes {
    (if last then [] else [COMMA]) + If(fmt, [LF])
  }

  // ----- Parsing -----

  function Skip(s: bytes): (r: bytes)
    ensures |r| <= |s|
  {
    if At(s) != NUL && At(s) <= 32 then Skip(s[1..]) else s
  }

  function DigitRun(s: bytes, acc: nat): (nat, bytes)
    ensures |DigitRun(s, acc).1| <= |s|
  {
    if IsDigit(At(s)) then DigitRun(s[1..], acc * 10 + (At(s) - ZERO)) else (acc, s)
  }

  function Pow10(e: int): real
    decreases if e < 0 then -e else e
  {
    if e == 0 then 1.0 else if e > 0 then Pow10(e - 1) * 10.0 else Pow10(e + 1) / 10.0
  }

  /** One leading zero is stepped over; after it "05" reads on and "00" does not. */
  function IntegerPart(s: bytes): (nat, bytes)
    ensures |IntegerPart(s).1| <= |s|
  {
    var t := if At(s) == ZERO then s[1..] else s;
    if IsDigit(At(t)) && At(t) != ZERO then DigitRun(t, 0) else (0, t)
  }

  /** The fraction extends the digits read so far. */
  function Fraction(n: nat, s: bytes): (nat, nat, bytes)
    ensures |Fraction(n, s).2| <= |s|
  {
    if At(s) == DOT && IsDigit(At(s[1..])) then
      var (m, r) := DigitRun(s[1..], n);
      (m, |s| - 1 - |r|, r)
    else (n, 0, s)
  }

  function Exponent(s: bytes): (int, bytes)
    ensures |Exponent(s).1| <= |s|
  {
    if At(s) == 101 || At(s) == 69 then
      var t := if At(s[1..]) == PLUS || At(s[1..]) == MINUS then s[2..] else s[1..];
      var (e, r) := DigitRun(t, 0);
      (if At(s[1..]) == MINUS then 0 - e else e, r)
    else (0, s)
  }

  function ParseNumber(s: bytes): (r: Outcome<real>)
    ensures r.Ok? && |r.rest| <= |s|
  {
    var t := if At(s) == MINUS then s[1..] else s;
    var (n, a) := IntegerPart(t);
    var (m, scale, b) := Fraction(n, a);
    var (e, c) := Exponent(b);
    Ok((if At(s) == MINUS then -1.0 else 1.0) * m as real * Pow10(e - scale), c)
  }

  predicate IsHex(b: byte) {
    IsDigit(b) || 97 <= b <= 102 || 65 <= b <= 70
  }

  function HexValue(b: byte): (v: nat)
    requires IsHex(b)
    ensures v < 16
  {
    if IsDigit(b) then b - ZERO else if b >= 97 then b - 87 else b - 55
  }

  predicate Hex4(s: bytes) {
    |s| >= 4 && IsHex(s[0]) && IsHex(s[1]) && IsHex(s[2]) && IsHex(s[3])
  }

  function Hex4Value(s: bytes): (v: nat)
    requires Hex4(s)
    ensures v < 0x1_0000
  {
    ((HexValue(s[0]) * 16 + HexValue(s[1])) * 16 + HexValue(s[2])) * 16 + HexValue(s[3])
  }

  /** How the two halves of a surrogate pair are put together. */
  function Combine(high: nat, low: nat): (c: nat)
    requires 0xD800 <= high < 0xDC00 && 0xDC00 <= low < 0xE000
    ensures 0x1_0000 <= c < 0x20_0000
  {
    PairBits(high, low);
    Or(Or(0x1_0000, And(high, 0x3FF) * 0x400), And(low, 0x3FF))
  }

  /** The `|` keeps bit 16 of the shifted half as it is, where UTF-16 adds it. */
  lemma PairBits(high: nat, low: nat)
    requires 0xD800 <= high < 0xDC00 && 0xDC00 <= low < 0xE000
    ensures var c := Or(Or(0x1_0000, And(high, 0x3FF) * 0x400), And(low, 0x3FF));
            && 0x1_0000 <= c < 0x20_0000
            && c == (if high / 64 % 2 == 1 then 0 else 0x1_0000) + (high - 0xD800) * 0x400 + (low - 0xDC00)
  {
    hide Or, And, IsPowerOfTwo;
    Powers();
    var h, l := high - 0xD800, low - 0xDC00;
    AndSplit(54, h, high, 0, 0x3FF, 0x400);
    AndSplit(55, l, low, 0, 0x3FF, 0x400);
    AndZero(54);
    AndZero(55);
    OrSplit(64, 0x1_0000, h, 0, h * 0x400, 0x400);
    OrBit6(h);
    var m := Or(64, h);
    OrSplit(m, m * 0x400, 0, l, l, 0x400);
    OrNothing(m);
    assert high / 64 == 0x360 + h / 64;
  }

  lemma CombineIs(high: nat, low: nat)
    requires 0xD800 <= high < 0xDC00 && 0xDC00 <= low < 0xE000
    ensures Combine(high, low) ==
            (if high / 64 % 2 == 1 then 0 else 0x1_0000) + (high - 0xD800) * 0x400 + (low - 0xDC00)
  {
    hide Or, And;
    PairBits(high, low);
  }

  lemma OrBit6(h: nat)
    ensures Or(64, h) == if h / 64 % 2 == 1 then h else h + 64
  {
    hide IsPowerOfTwo;
    Powers();
    OrSplit(1, 64, h / 64, h % 64, h, 64);
    OrStep(1, h / 64);
  }

  lemma OrNothing(a: nat)
    ensures Or(a, 0) == a && Or(0, a) == a
  {
  }

  function Utf8Length(c: nat): nat {
    if c < 0x80 then 1 else if c < 0x800 then 2 else if c < 0x1_0000 then 3 else 4
  }

  /** The UTF-8 form of c. */
  function Utf8(c: nat): (s: bytes)
    requires 0 < c < 0x20_0000
    ensures |s| == Utf8Length(c) && NUL !in s
  {
    if c < 0x80 then [c]
    else if c < 0x800 then [0xC0 + c / 0x40, 0x80 + c % 0x40]
    else if c < 0x1_0000 then [0xE0 + c / 0x1000, 0x80 + c / 0x40 % 0x40, 0x80 + c % 0x40]
    else [0xF0 + c / 0x4_0000, 0x80 + c / 0x1000 % 0x40, 0x80 + c / 0x40 % 0x40, 0x80 + c % 0x40]
  }

  /** The bytes a `\u` escape gives, after the `\u`. */
  function Unicode(s: bytes): (r: Outcome<bytes>)
    ensures r.Ok? ==> |r.rest| <= |s|
  {
    if !Hex4(s) then Undefined
    else
      var c := Hex4Value(s);
      if c == 0 || 0xDC00 <= c <= 0xDFFF then Ok([], s[4..])
      else if !(0xD800 <= c <= 0xDBFF) then Ok(Utf8(c), s[4..])
      else if At(s[4..]) != BACKSLASH || At(s[5..]) != 117 then Ok([], s[4..])
      else if !Hex4(s[6..]) then Undefined
      else
        var d := Hex4Value(s[6..]);
        if !(0xDC00 <= d <= 0xDFFF) then Ok([], s[10..])
        else Ok(Utf8(Combine(c, d)), s[10..])
  }

  /** The byte a one-letter escape gives. */
  function Unescaped(b: byte): byte {
    if b == 98 then 8 else if b == 102 then 12 else if b == 110 then LF
    else if b == 114 then CR else if b == 116 then TAB else b
  }

  /** One character of a string body. */
  function OneChar(s: bytes): (r: Outcome<bytes>)
    requires At(s) != NUL && At(s) != QUOTE
    ensures r.Ok? ==> |r.rest| < |s|
  {
    if s[0] != BACKSLASH then Ok([s[0]], s[1..])
    else if At(s[1..]) == NUL then Undefined
    else if s[1] == 117 then Unicode(s[2..])
    else Ok([Unescaped(s[1])], s[2..])
  }

  /** A string body up to its quote; the end of the text ends it too. */
  function Body(s: bytes): (r: Outcome<bytes>)
    ensures r.Ok? ==> |r.rest| <= |s|
    decreases |s|
  {
    if At(s) == NUL then Ok([], s)
    else if s[0] == QUOTE then Ok([], s[1..])
    else match OneChar(s)
      case Ok(bs, r) => Prepend(bs, Body(r))
      case Fail => Fail
      case Undefined => Undefined
  }

  function Prepend<T>(bs: seq<T>, o: Outcome<seq<T>>): (r: Outcome<seq<T>>)
    ensures r.Ok? <==> o.Ok?
    ensures r.Ok? ==> r.rest == o.rest
  {
    match o
    case Ok(cs, r) => Ok(bs + cs, r)
    case Fail => Fail
    case Undefined => Undefined
  }

  function ParseString(s: bytes): (r: Outcome<bytes>)
    ensures r.Ok? ==> |r.rest| < |s|
  {
    if At(s) == QUOTE then Body(s[1..]) else Fail
  }

  function ParseValue(s: bytes): (r: Outcome<Value>)
    ensures r.Ok? ==> |r.rest| <= |s|
    decreases |s|, 0
  {
    if NULL_TEXT <= s then Ok(Null, s[4..])
    else if FALSE_TEXT <= s then Ok(Bool(false), s[5..])
    else if TRUE_TEXT <= s then Ok(Bool(true), s[4..])
    else if At(s) == QUOTE then
      match ParseString(s)
      case Ok(t, r) => Ok(String(t), r)
      case Fail => Fail
      case Undefined => Undefined
    else if At(s) == MINUS || IsDigit(At(s)) then Ok(Number(ParseNumber(s).value), ParseNumber(s).rest)
    else if At(s) == LBRACKET then
      var t := Skip(s[1..]);
      if At(t) == RBRACKET then Ok(Array([]), t[1..])
      else match ParseElements(t)
        case Ok(es, r) => Ok(Array(es), r)
        case Fail => Fail
        case Undefined => Undefined
    else if At(s) == LBRACE then
      var t := Skip(s[1..]);
      if At(t) == RBRACE then Ok(Object([]), t[1..])
      else match ParseMembers(t)
        case Ok(ms, r) => Ok(Object(ms), r)
        case Fail => Fail
        case Undefined => Undefined
    else Fail
  }

  /** One element or more, and the closing bracket. */
  function ParseElements(s: bytes): (r: Outcome<seq<Value>>)
    ensures r.Ok? ==> |r.rest| <= |s|
    decreases |s|, 1
  {
    match ParseValue(Skip(s))
    case Fail => Fail
    case Undefined => Undefined
    case Ok(v, r) =>
      var t := Skip(r);
      if At(t) == COMMA then Prepend([v], ParseElements(t[1..]))
      else if At(t) == RBRACKET then Ok([v], t[1..])
      else Fail
  }

  function ParseMembers(s: bytes): (r: Outcome<seq<Member>>)
    ensures r.Ok? ==> |r.rest| <= |s|
    decreases |s|, 2
  {
    match ParseMember(s)
    case Fail => Fail
    case Undefined => Undefined
    case Ok(m, r) =>
      var t := Skip(r);
      if At(t) == COMMA then Prepend([m], ParseMembers(t[1..]))
      else if At(t) == RBRACE then Ok([m], t[1..])
      else Fail
  }

  /** A name, a colon and a value. */
  function ParseMember(s: bytes): (r: Outcome<Member>)
    ensures r.Ok? ==> |r.rest| <= |s|
    decreases |s|, 1
  {
    match ParseString(Skip(s))
    case Fail => Fail
    case Undefined => Undefined
    case Ok(name, r) =>
      var t := Skip(r);
      if At(t) != COLON then Fail
      else match ParseValue(Skip(t[1..]))
        case Ok(v, u) => Ok(Member(name, v), u)
        case Fail => Fail
        case Undefined => Undefined
  }
}
