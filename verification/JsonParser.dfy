/** Parsing text into a tree of items. */
module JsonParser {
  import opened Bits
  import opened Bytes
  import opened JsonText
  import opened JsonItem

  /** Where parsing goes on, if it does. */
  datatype Next = Go(at: nat) | Stop | Lost

  /** The position reached says the same as the outcome of the grammar. */
  ghost predicate Agrees<T>(n: Next, o: Outcome<T>, text: bytes) {
    match o
    case Ok(_, rest) => n.Go? && n.at <= |text| && text[n.at..] == rest
    case Fail => n.Stop?
    case Undefined => n.Lost?
  }

  method SkipBlanks(text: bytes, i: nat) returns (j: nat)
    requires i <= |text|
    ensures i <= j <= |text| && text[j..] == Skip(text[i..])
  {
    j := i;
    while CharAt(text, j) != NUL && CharAt(text, j) <= 32
      invariant i <= j <= |text| && Skip(text[j..]) == Skip(text[i..])
      decreases |text| - j
    {
      CharAtIs(text, j);
      j := j + 1;
    }
    CharAtIs(text, j);
  }

  // ----- Numbers -----

  /** A run of digits, appended to the number read so far. */
  method Digits(text: bytes, i: nat, n0: real, ghost acc0: nat) returns (n: real, j: nat, ghost acc: nat)
    requires i <= |text| && n0 == acc0 as real
    ensures i <= j <= |text| && DigitRun(text[i..], acc0) == (acc, text[j..]) && n == acc as real
  {
    n, j, acc := n0, i, acc0;
    while IsDigit(CharAt(text, j))
      invariant i <= j <= |text| && n == acc as real
      invariant DigitRun(text[j..], acc) == DigitRun(text[i..], acc0)
      decreases |text| - j
    {
      CharAtIs(text, j);
      n, acc := n * 10.0 + (text[j] - ZERO) as real, acc * 10 + (text[j] - ZERO);
      j := j + 1;
    }
    CharAtIs(text, j);
  }

  method ReadInteger(text: bytes, i: nat) returns (n: real, j: nat, ghost acc: nat)
    requires i <= |text|
    ensures i <= j <= |text| && IntegerPart(text[i..]) == (acc, text[j..]) && n == acc as real
  {
    hide DigitRun;
    n, j, acc := 0.0, i, 0;
    CharAtIs(text, j);
    if CharAt(text, j) == ZERO {
      j := j + 1;
    }
    CharAtIs(text, j);
    if IsDigit(CharAt(text, j)) && CharAt(text, j) != ZERO {
      n, j, acc := Digits(text, j, 0.0, 0);
    }
  }

  method ReadFraction(text: bytes, i: nat, n0: real, ghost acc0: nat) returns (n: real, scale: int, j: nat, ghost acc: nat)
    requires i <= |text| && n0 == acc0 as real
    ensures i <= j <= |text| && scale <= 0
    ensures Fraction(acc0, text[i..]) == (acc, 0 - scale, text[j..]) && n == acc as real
  {
    hide DigitRun;
    n, scale, j, acc := n0, 0, i, acc0;
    CharAtIs(text, i);
    if CharAt(text, i) == DOT {
      CharAtIs(text, i + 1);
      if IsDigit(CharAt(text, i + 1)) {
        n, j, acc := Digits(text, i + 1, n0, acc0);
        scale := i + 1 - j;
      }
    }
  }

  method ReadExponent(text: bytes, i: nat) returns (e: int, j: nat)
    requires i <= |text|
    ensures i <= j <= |text| && Exponent(text[i..]) == (e, text[j..])
  {
    hide DigitRun;
    e, j := 0, i;
    CharAtIs(text, i);
    if CharAt(text, i) == 101 || CharAt(text, i) == 69 {
      j := j + 1;
      CharAtIs(text, j);
      var negative := CharAt(text, j) == MINUS;
      if negative || CharAt(text, j) == PLUS {
        assert text[i..][2..] == text[i + 2..];
        j := j + 1;
      }
      var subscale: nat;
      subscale, j := DigitsInt(text, j);
      e := if negative then 0 - subscale else subscale;
    }
  }

  method DigitsInt(text: bytes, i: nat) returns (n: nat, j: nat)
    requires i <= |text|
    ensures i <= j <= |text| && DigitRun(text[i..], 0) == (n, text[j..])
  {
    n, j := 0, i;
    while IsDigit(CharAt(text, j))
      invariant i <= j <= |text| && DigitRun(text[j..], n) == DigitRun(text[i..], 0)
      decreases |text| - j
    {
      CharAtIs(text, j);
      n := n * 10 + (text[j] - ZERO);
      j := j + 1;
    }
    CharAtIs(text, j);
  }

  method ReadNumber(item: Item, text: bytes, i: nat) returns (next: Next)
    requires i <= |text|
    modifies item`kind, item`valuedouble, item`valueint
    ensures next.Go? && i <= next.at && Agrees(next, ParseNumber(text[i..]), text)
    ensures Denotes(item, Number(ParseNumber(text[i..]).value), {})
  {
    hide IntegerPart, Fraction, Exponent, Pow10;
    var sign, j := 1.0, i;
    CharAtIs(text, i);
    if CharAt(text, j) == MINUS {
      sign, j := -1.0, j + 1;
    }
    var n, k, acc := ReadInteger(text, j);
    var scale: int;
    n, scale, k, acc := ReadFraction(text, k, n, acc);
    var e, l := ReadExponent(text, k);
    n := sign * n * Pow10(scale + e);
    item.valuedouble := n;
    item.valueint := *;
    if Converts(n) {
      item.valueint := Trunc(n);
    }
    item.kind := NUMBER;
    next := Go(l);
  }

  // ----- Strings -----

  /** The iterations of the counting pass; None when it steps over the end of the text. */
  function Count(s: bytes): Option<nat>
    decreases |s|
  {
    if At(s) == NUL || At(s) == QUOTE then Some(0)
    else if s[0] == BACKSLASH then
      if At(s[1..]) == NUL then None else More(Count(s[2..]))
    else More(Count(s[1..]))
  }

  function More(n: Option<nat>): Option<nat> {
    if n.Some? then Some(n.value + 1) else None
  }

  lemma CountPlain(s: bytes, k: nat)
    requires k <= |s| && forall i :: 0 <= i < k ==> IsHex(s[i])
    ensures Count(s).Some? <==> Count(s[k..]).Some?
    ensures Count(s).Some? ==> Count(s).value == k + Count(s[k..]).value
  {
    if k == 0 {
      assert s[0..] == s;
    } else {
      CountPlain(s[1..], k - 1);
      assert s[1..][k - 1..] == s[k..];
    }
  }

  /** What one character adds to the output is not more than its count. */
  lemma StepBound(s: bytes)
    requires At(s) != NUL && At(s) != QUOTE && OneChar(s).Ok?
    ensures var (bs, r) := (OneChar(s).value, OneChar(s).rest);
            && (Count(s).Some? <==> Count(r).Some?)
            && (Count(s).Some? ==> |bs| + Count(r).value <= Count(s).value)
  {
    hide Utf8, Hex4Value;
    if s[0] == BACKSLASH && s[1] == 117 {
      UnicodeBound(s[2..]);
    }
  }

  lemma UnicodeBound(s: bytes)
    requires Unicode(s).Ok?
    ensures var (bs, r) := (Unicode(s).value, Unicode(s).rest);
            && (Count(s).Some? <==> Count(r).Some?)
            && (Count(s).Some? ==> |bs| + Count(r).value <= Count(s).value + 1)
  {
    hide Hex4Value, Hex4, Count;
    HexCount(s);
    if At(s[4..]) == BACKSLASH && At(s[5..]) == 117 {
      EscapeCount(s[4..]);
      assert s[4..][2..] == s[6..];
      if Hex4(s[6..]) {
        HexCount(s[6..]);
        assert s[6..][4..] == s[10..];
      }
    }
  }

  lemma EscapeCount(s: bytes)
    requires |s| >= 2 && s[0] == BACKSLASH && s[1] == 117
    ensures Count(s) == More(Count(s[2..]))
  {
  }

  lemma HexCount(s: bytes)
    requires Hex4(s)
    ensures |s| >= 4
    ensures Count(s).Some? <==> Count(s[4..]).Some?
    ensures Count(s).Some? ==> Count(s).value == 4 + Count(s[4..]).value
  {
    CountPlain(s, 4);
  }

  /** The counting pass only gets lost where the grammar does. */
  lemma {:induction false} LostCount(s: bytes)
    requires Count(s).None?
    ensures Body(s).Undefined?
    decreases |s|
  {
    hide OneChar;
    NeverFails(s);
    if OneChar(s).Ok? {
      StepBound(s);
      LostCount(OneChar(s).rest);
    }
  }

  lemma NeverFails(s: bytes)
    ensures At(s) != NUL && At(s) != QUOTE ==> !OneChar(s).Fail?
  {
  }

  lemma NoNul(s: bytes)
    requires At(s) != NUL && At(s) != QUOTE && OneChar(s).Ok?
    ensures NUL !in OneChar(s).value
  {
    hide Utf8, Hex4Value;
  }

  method CountPass(text: bytes, i: nat) returns (len: Option<nat>)
    requires i <= |text|
    ensures len == Count(text[i..])
  {
    var n, j := 0, i;
    while CharAt(text, j) != QUOTE && CharAt(text, j) != NUL
      invariant i <= j <= |text| && 0 <= n
      invariant Count(text[i..]) == if Count(text[j..]).Some? then Some(n + Count(text[j..]).value) else None
      decreases |text| - j
    {
      CharAtIs(text, j);
      n := n + 1;
      if text[j] == BACKSLASH {
        CharAtIs(text, j + 1);
        if CharAt(text, j + 1) == NUL {
          return None;
        }
        assert text[j..][2..] == text[j + 2..];
        j := j + 1;
      }
      j := j + 1;
    }
    CharAtIs(text, j);
    len := Some(n);
  }

  /** The bytes of a code point, stored from the last to the first. */
  method StoreUtf8(out: array<byte>, p: nat, c: nat) returns (q: nat)
    requires 0 < c < 0x20_0000 && p + Utf8Length(c) <= out.Length
    modifies out
    ensures q == p + Utf8Length(c) && out[..q] == old(out[..p]) + Utf8(c)
  {
    hide And, Or;
    var len := 4;
    if c < 0x80 {
      len := 1;
    } else if c < 0x800 {
      len := 2;
    } else if c < 0x1_0000 {
      len := 3;
    }
    q := p + len;
    var uc, ptr := c, q;
    assert c / 0x40 / 0x40 == c / 0x1000 && c / 0x1000 / 0x40 == c / 0x4_0000;
    if len >= 4 {
      ptr := ptr - 1;
      TailIs(uc);
      out[ptr] := And(Or(0x80, uc), 0xBF);
      uc := uc / 0x40;
    }
    if len >= 3 {
      ptr := ptr - 1;
      TailIs(uc);
      out[ptr] := And(Or(0x80, uc), 0xBF);
      uc := uc / 0x40;
    }
    if len >= 2 {
      ptr := ptr - 1;
      TailIs(uc);
      out[ptr] := And(Or(0x80, uc), 0xBF);
      uc := uc / 0x40;
    }
    ptr := ptr - 1;
    HeadIs(len, uc);
    out[ptr] := Or(FirstByteMark(len), uc);
  }

  /** A continuation byte: the low six bits under the mark. */
  lemma TailIs(uc: nat)
    ensures And(Or(0x80, uc), 0xBF) == 0x80 + uc % 0x40
  {
    hide And, Or, IsPowerOfTwo;
    Powers();
    var q, r := uc / 0x40, uc % 0x40;
    OrSplit(2, 0x80, q, r, uc, 0x40);
    var z := Or(2, q);
    AndSplit(z, r, z * 0x40 + r, 2, 0xBF, 0x40);
    SecondBit(q);
  }

  lemma SecondBit(q: nat)
    ensures And(Or(2, q), 2) == 2
  {
    hide And, Or;
    OrStep(2, q);
    AndStep(Or(2, q), 2);
    OrStep(1, q / 2);
    AndStep(Or(1, q / 2), 1);
    AndZero(Or(1, q / 2) / 2);
  }

  lemma HeadIs(len: nat, uc: nat)
    requires len == 2 ==> uc < 0x20
    requires len == 3 ==> uc < 0x10
    requires len == 4 ==> uc < 8
    ensures Or(FirstByteMark(len), uc) == FirstByteMark(len) + uc
  {
    hide Or, IsPowerOfTwo;
    Powers();
    OrNothing(uc);
    if len == 2 {
      OrSplit(6, 0xC0, 0, uc, uc, 0x20);
      OrNothing(6);
    } else if len == 3 {
      OrSplit(14, 0xE0, 0, uc, uc, 0x10);
      OrNothing(14);
    } else if len == 4 {
      OrSplit(30, 0xF0, 0, uc, uc, 8);
      OrNothing(30);
    }
  }

  function FirstByteMark(len: nat): byte {
    if len == 2 then 0xC0 else if len == 3 then 0xE0 else if len == 4 then 0xF0 else 0
  }

  /** `sscanf` of four hexadecimal digits. */
  function ScanHex(text: bytes, i: nat): Option<nat> {
    if i <= |text| && Hex4(text[i..]) then Some(Hex4Value(text[i..])) else None
  }

  /** A `\u` escape whose digits start at j. */
  method StoreUnicode(out: array<byte>, p: nat, text: bytes, j: nat) returns (q: nat, next: Next)
    requires j <= |text| && p <= out.Length
    requires Unicode(text[j..]).Ok? ==> p + |Unicode(text[j..]).value| <= out.Length
    modifies out
    ensures Agrees(next, Unicode(text[j..]), text)
    ensures next.Go? ==> q == p + |Unicode(text[j..]).value| && out[..q] == old(out[..p]) + Unicode(text[j..]).value
  {
    hide Hex4Value, Hex4, Utf8, Utf8Length;
    q := p;
    HexDrop(text, j);
    if ScanHex(text, j).None? {
      return q, Lost;
    }
    var uc := ScanHex(text, j).value;
    next := Go(j + 4);
    if uc == 0 || 0xDC00 <= uc <= 0xDFFF {
      return;
    }
    if 0xD800 <= uc <= 0xDBFF {
      if CharAt(text, j + 4) != BACKSLASH || CharAt(text, j + 5) != 117 {
        return;
      }
      HexDrop(text, j + 6);
      if ScanHex(text, j + 6).None? {
        return q, Lost;
      }
      var uc2 := ScanHex(text, j + 6).value;
      next := Go(j + 10);
      if uc2 < 0xDC00 || uc2 > 0xDFFF {
        return;
      }
      uc := Combine(uc, uc2);
    }
    q := StoreUtf8(out, p, uc);
  }

  lemma HexDrop(text: bytes, j: nat)
    requires j <= |text|
    ensures Hex4(text[j..]) ==> j + 4 <= |text| && text[j..][4..] == text[j + 4..]
    ensures Hex4(text[j..]) && j + 6 <= |text| ==> text[j..][6..] == text[j + 6..]
    ensures Hex4(text[j..]) && j + 10 <= |text| ==> text[j..][10..] == text[j + 10..]
  {
  }

  /** One character of a string, at j. */
  method StoreChar(out: array<byte>, p: nat, text: bytes, j: nat) returns (q: nat, next: Next)
    requires j < |text| && p <= out.Length && text[j] != NUL && text[j] != QUOTE
    requires OneChar(text[j..]).Ok? ==> p + |OneChar(text[j..]).value| <= out.Length
    modifies out
    ensures Agrees(next, OneChar(text[j..]), text)
    ensures next.Go? ==> q == p + |OneChar(text[j..]).value| && out[..q] == old(out[..p]) + OneChar(text[j..]).value
  {
    hide Unicode, Unescaped;
    q := p;
    CharAtIs(text, j);
    if text[j] != BACKSLASH {
      out[p] := text[j];
      return p + 1, Go(j + 1);
    }
    CharAtIs(text, j + 1);
    if CharAt(text, j + 1) == NUL {
      return q, Lost;
    }
    assert text[j..][2..] == text[j + 2..];
    if text[j + 1] == 117 {
      q, next := StoreUnicode(out, p, text, j + 2);
    } else {
      out[p] := Unescaped(text[j + 1]);
      q, next := p + 1, Go(j + 2);
    }
  }

  lemma BodyStep(done: bytes, s: bytes)
    requires At(s) != NUL && At(s) != QUOTE && OneChar(s).Ok?
    ensures Prepend(done, Body(s)) == Prepend(done + OneChar(s).value, Body(OneChar(s).rest))
  {
    hide OneChar;
    var o, bs := Body(OneChar(s).rest), OneChar(s).value;
    if o.Ok? {
      assert done + (bs + o.value) == done + bs + o.value;
    }
  }

  /** The writes stay inside the counted length: `out` has one more byte for the zero. */
  method ReadString(item: Item, text: bytes, i: nat) returns (next: Next)
    requires i <= |text|
    modifies item`kind, item`valuestring
    ensures Agrees(next, ParseString(text[i..]), text)
    ensures next.Go? ==> item.kind == STRING && item.valuestring == Some(ParseString(text[i..]).value)
    ensures next.Go? ==> NUL !in ParseString(text[i..]).value
  {
    hide OneChar, Body, Count;
    CharAtIs(text, i);
    if CharAt(text, i) != QUOTE {
      return Stop;
    }
    var len := CountPass(text, i + 1);
    if len.None? {
      LostCount(text[i + 1..]);
      return Lost;
    }
    var out := new byte[len.value + 1];
    var p;
    p, next := Transcode(out, text, i + 1, len.value);
    if next.Lost? {
      return;
    }
    out[p] := NUL;
    var j := next.at;
    if CharAt(text, j) == QUOTE {
      j := j + 1;
    }
    item.valuestring := Some(out[..p]);
    item.kind := STRING;
    next := Go(j);
  }

  /** The second pass: up to the quote or the end of the text. */
  method Transcode(out: array<byte>, text: bytes, i: nat, len: nat) returns (p: nat, next: Next)
    requires i <= |text| && Count(text[i..]) == Some(len) && out.Length == len + 1
    modifies out
    ensures next.Lost? || (next.Go? && next.at <= |text| && p <= len)
    ensures next.Lost? ==> Body(text[i..]).Undefined?
    ensures next.Go? ==> CharAt(text, next.at) in {QUOTE, NUL} && NUL !in out[..p]
    ensures next.Go? ==> Body(text[i..]) == Ok(out[..p], if CharAt(text, next.at) == QUOTE then text[next.at + 1..] else text[next.at..])
  {
    hide OneChar, Body, Count;
    p := 0;
    var j := i;
    PrependNone(out[..p], Body(text[i..]));
    while CharAt(text, j) != QUOTE && CharAt(text, j) != NUL
      invariant i <= j <= |text| && Count(text[j..]).Some? && p + Count(text[j..]).value <= len
      invariant Body(text[i..]) == Prepend(out[..p], Body(text[j..])) && NUL !in out[..p]
      decreases |text| - j
    {
      CharAtIs(text, j);
      if OneChar(text[j..]).Ok? {
        StepBound(text[j..]);
        BodyStep(out[..p], text[j..]);
        NoNul(text[j..]);
      }
      LostStep(text[j..]);
      p, next := StoreChar(out, p, text, j);
      if next.Lost? {
        return;
      }
      j := next.at;
    }
    CharAtIs(text, j);
    BodyEnd(text[j..]);
    assert out[..p] + [] == out[..p];
    next := Go(j);
  }

  lemma LostStep(s: bytes)
    requires At(s) != NUL && At(s) != QUOTE
    ensures OneChar(s).Undefined? ==> Body(s).Undefined?
    ensures !OneChar(s).Fail?
  {
    hide OneChar;
    NeverFails(s);
  }

  lemma BodyEnd(s: bytes)
    requires At(s) == NUL || At(s) == QUOTE
    ensures Body(s) == Ok([], if At(s) == QUOTE then s[1..] else s)
  {
  }

  // ----- Lists of children -----

  /** Linked children standing for es, then `end`; what they own is in r. */
  ghost predicate Row(kids: seq<Item>, es: seq<Value>, r: set<Item>, end: Item?)
    reads kids, r
  {
    && |kids| == |es| > 0 && kids[0].prev == null && kids[|kids| - 1].next == end
    && (forall j :: 0 <= j < |kids| - 1 ==> kids[j].next == kids[j + 1])
    && (forall j :: 0 < j < |kids| ==> kids[j].prev == kids[j - 1])
    && (forall j :: 0 <= j < |kids| ==> kids[j] !in r && Denotes(kids[j], es[j], r))
  }

  lemma {:induction false} DenotesGrow(item: Item, v: Value, r: set<Item>, r': set<Item>)
    requires r <= r' && Denotes(item, v, r)
    ensures Denotes(item, v, r')
    decreases v, 0
  {
    match v
    case Array(es) => ElementsGrow(null, item.child, es, r, r');
    case Object(ms) => MembersGrow(null, item.child, ms, r, r');
    case _ =>
  }

  lemma {:induction false} ElementsGrow(before: Item?, first: Item?, es: seq<Value>, r: set<Item>, r': set<Item>)
    requires r <= r' && Elements(before, first, es, r)
    ensures Elements(before, first, es, r')
    decreases es, 1
  {
    if es != [] {
      DenotesGrow(first, es[0], r, r');
      ElementsGrow(first, first.next, es[1..], r, r');
    }
  }

  lemma {:induction false} MembersGrow(before: Item?, first: Item?, ms: seq<Member>, r: set<Item>, r': set<Item>)
    requires r <= r' && Members(before, first, ms, r)
    ensures Members(before, first, ms, r')
    decreases ms, 1
  {
    if ms != [] {
      DenotesGrow(first, ms[0].value, r, r');
      MembersGrow(first, first.next, ms[1..], r, r');
    }
  }

  ghost function Before(kids: seq<Item>, j: nat): Item?
    requires j <= |kids|
  {
    if j == 0 then null else kids[j - 1]
  }

  ghost function From(kids: seq<Item>, j: nat): Item?
    requires j <= |kids|
  {
    if j == |kids| then null else kids[j]
  }

  lemma {:induction false} RowElements(kids: seq<Item>, es: seq<Value>, r: set<Item>, all: set<Item>, j: nat)
    requires Row(kids, es, r, null) && r <= all && (forall k :: k in kids ==> k in all) && j <= |kids|
    ensures Elements(Before(kids, j), From(kids, j), es[j..], all)
    decreases |kids| - j
  {
    hide Denotes;
    if j < |kids| {
      RowElements(kids, es, r, all, j + 1);
      DenotesGrow(kids[j], es[j], r, all);
      assert es[j..][0] == es[j] && es[j..][1..] == es[j + 1..];
    }
  }

  lemma {:induction false} RowMembers(kids: seq<Item>, ms: seq<Member>, r: set<Item>, all: set<Item>, j: nat)
    requires Row(kids, Values(ms), r, null) && r <= all && (forall k :: k in kids ==> k in all) && j <= |kids|
    requires Named(kids, ms)
    ensures Members(Before(kids, j), From(kids, j), ms[j..], all)
    decreases |kids| - j
  {
    hide Denotes;
    if j < |kids| {
      RowMembers(kids, ms, r, all, j + 1);
      DenotesGrow(kids[j], ms[j].value, r, all);
      assert ms[j..][0] == ms[j] && ms[j..][1..] == ms[j + 1..];
    }
  }

  ghost function Values(ms: seq<Member>): seq<Value> {
    seq(|ms|, j requires 0 <= j < |ms| => ms[j].value)
  }

  /** The children carry the names of the members. */
  ghost predicate Named(kids: seq<Item>, ms: seq<Member>)
    reads kids`name
  {
    |kids| == |ms| && forall j :: 0 <= j < |kids| ==> kids[j].name == Some(ms[j].name)
  }

  lemma FirstRow(kid: Item, v: Value, r: set<Item>)
    requires kid.prev == null && kid.next == null && kid !in r && Denotes(kid, v, r)
    ensures Row([kid], [v], r, null)
  {
    hide Denotes;
  }

  lemma LongerRow(kids: seq<Item>, es: seq<Value>, r: set<Item>, kid: Item, v: Value, r': set<Item>)
    requires Row(kids, es, r, kid) && kid.prev == kids[|kids| - 1] && kid.next == null
    requires kid !in r + r' && Denotes(kid, v, r') && forall k :: k in kids ==> k !in r'
    ensures Row(kids + [kid], es + [v], r + r', null)
  {
    hide Denotes;
    var kids', es', all := kids + [kid], es + [v], r + r';
    DenotesGrow(kid, v, r', all);
    forall j | 0 <= j < |kids| ensures Denotes(kids[j], es[j], all) {
      DenotesGrow(kids[j], es[j], r, all);
    }
    assert forall j :: 0 <= j < |kids| ==> kids'[j] == kids[j] && es'[j] == es[j] && kids[j] !in r';
  }

  // ----- Values -----

  /** What comes after an element. */
  function ElementsRest(s: bytes): Outcome<seq<Value>> {
    if At(s) == COMMA then ParseElements(s[1..])
    else if At(s) == RBRACKET then Ok([], s[1..])
    else Fail
  }

  lemma ElementsStep(done: seq<Value>, s: bytes)
    ensures match ParseValue(Skip(s))
            case Ok(v, r) => Prepend(done, ParseElements(s)) == Prepend(done + [v], ElementsRest(Skip(r)))
            case Fail => Prepend(done, ParseElements(s)).Fail?
            case Undefined => Prepend(done, ParseElements(s)).Undefined?
  {
    hide ParseValue, ParseElements, ElementsRest, Skip;
    ElementsFirst(s);
    var o := ParseValue(Skip(s));
    if o.Ok? {
      PrependBoth(done, [o.value], ElementsRest(Skip(o.rest)));
    }
  }

  lemma ElementsFirst(s: bytes)
    ensures match ParseValue(Skip(s))
            case Ok(v, r) => ParseElements(s) == Prepend([v], ElementsRest(Skip(r)))
            case Fail => ParseElements(s).Fail?
            case Undefined => ParseElements(s).Undefined?
  {
    hide ParseValue, Skip;
    var o := ParseValue(Skip(s));
    if o.Ok? {
      var none: seq<Value> := [];
      assert [o.value] + none == [o.value];
    }
  }

  lemma PrependBoth<T>(a: seq<T>, b: seq<T>, o: Outcome<seq<T>>)
    ensures Prepend(a, Prepend(b, o)) == Prepend(a + b, o)
  {
    if o.Ok? {
      Regroup(a, b, o.value);
    }
  }

  method ReadValue(item: Item, text: bytes, i: nat) returns (next: Next, ghost r: set<Item>)
    requires i <= |text| && item.child == null
    modifies item`kind, item`child, item`valuestring, item`valuedouble, item`valueint
    ensures Agrees(next, ParseValue(text[i..]), text)
    ensures next.Go? ==> fresh(r) && item !in r && Denotes(item, ParseValue(text[i..]).value, r)
    decreases |text| - i, 1
  {
    hide ParseString, ParseNumber, ParseElements, ParseMembers, Skip;
    r := {};
    CharAtIs(text, i);
    if NULL_TEXT <= text[i..] {
      item.kind := NULL;
      return Go(i + 4), r;
    }
    if FALSE_TEXT <= text[i..] {
      item.kind := FALSE;
      return Go(i + 5), r;
    }
    if TRUE_TEXT <= text[i..] {
      item.kind := TRUE;
      item.valueint := 1;
      return Go(i + 4), r;
    }
    if CharAt(text, i) == QUOTE {
      next := ReadString(item, text, i);
    } else if CharAt(text, i) == MINUS || IsDigit(CharAt(text, i)) {
      next := ReadNumber(item, text, i);
    } else if CharAt(text, i) == LBRACKET {
      next, r := ReadArray(item, text, i);
    } else if CharAt(text, i) == LBRACE {
      next, r := ReadObject(item, text, i);
    } else {
      next := Stop;
    }
  }

  method ReadArray(item: Item, text: bytes, i: nat) returns (next: Next, ghost r: set<Item>)
    requires i < |text| && text[i] == LBRACKET && item.child == null
    modifies item`kind, item`child
    ensures Agrees(next, ParseValue(text[i..]), text)
    ensures next.Go? ==> fresh(r) && item !in r && Denotes(item, ParseValue(text[i..]).value, r)
    decreases |text| - i, 0
  {
    hide ParseElements, Skip, Row;
    r := {};
    item.kind := ARRAY;
    CharAtIs(text, i);
    var j := SkipBlanks(text, i + 1);
    CharAtIs(text, j);
    if CharAt(text, j) == RBRACKET {
      return Go(j + 1), r;
    }
    var child := new Item();
    item.child := child;
    ghost var kids, es, owned;
    next, kids, es, owned := ReadElements(child, text, j);
    if next.Go? {
      r := owned + set k | k in kids;
      AllElements(kids, es, owned, r);
    }
  }

  lemma AllElements(kids: seq<Item>, es: seq<Value>, r: set<Item>, all: set<Item>)
    requires Row(kids, es, r, null) && r <= all && forall k :: k in kids ==> k in all
    ensures |kids| > 0 && Elements(null, kids[0], es, all)
  {
    hide Denotes;
    RowElements(kids, es, r, all, 0);
    assert es[0..] == es;
  }

  /** The elements and the closing bracket; the first goes into `first`. */
  method ReadElements(first: Item, text: bytes, i: nat)
    returns (next: Next, ghost kids: seq<Item>, ghost es: seq<Value>, ghost r: set<Item>)
    requires i <= |text| && first.Blank()
    modifies first
    ensures Agrees(next, ParseElements(text[i..]), text)
    ensures next.Go? ==> es == ParseElements(text[i..]).value && Row(kids, es, r, null)
    ensures next.Go? ==> |kids| > 0 && kids[0] == first && fresh(r) && forall k :: k in kids ==> k == first || fresh(k)
    decreases |text| - i, 2
  {
    hide ParseValue, ParseElements, Skip, Row, Denotes, ElementsRest;
    var child := first;
    var j := SkipBlanks(text, i);
    kids, es := [first], [];
    PrependNone(es, ParseElements(text[i..]));
    ElementsStep(es, text[i..]);
    next, r := ReadValue(child, text, j);
    if !next.Go? {
      return;
    }
    ghost var v := ParseValue(text[j..]).value;
    FirstRow(first, v, r);
    assert es + [v] == [v];
    es := [v];
    j := SkipBlanks(text, next.at);
    while CharAt(text, j) == COMMA
      invariant i <= j <= |text| && |kids| > 0 && child == kids[|kids| - 1] && kids[0] == first
      invariant Row(kids, es, r, null) && (child == first || fresh(child))
      invariant ParseElements(text[i..]) == Prepend(es, ElementsRest(text[j..]))
      invariant fresh(r) && forall k :: k in kids ==> k == first || fresh(k)
      decreases |text| - j
    {
      CharAtIs(text, j);
      RestIs(es, text[j..]);
      ElementsStep(es, text[j + 1..]);
      child := Append(child, kids, es, r);
      var k := SkipBlanks(text, j + 1);
      ghost var r';
      next, r' := ReadValue(child, text, k);
      if !next.Go? {
        return;
      }
      ghost var v := ParseValue(text[k..]).value;
      LongerRow(kids, es, r, child, v, r');
      kids, es, r := kids + [child], es + [v], r + r';
      j := SkipBlanks(text, next.at);
    }
    CharAtIs(text, j);
    RestIs(es, text[j..]);
    next := if CharAt(text, j) == RBRACKET then Go(j + 1) else Stop;
  }

  lemma RestIs(done: seq<Value>, s: bytes)
    ensures At(s) == COMMA ==> ElementsRest(s) == ParseElements(s[1..])
    ensures At(s) == RBRACKET ==> Prepend(done, ElementsRest(s)) == Ok(done, s[1..])
    ensures At(s) != COMMA && At(s) != RBRACKET ==> Prepend(done, ElementsRest(s)).Fail?
  {
    hide ParseElements;
    assert done + [] == done;
  }

  /** A new child at the end of the list. */
  method Append(last: Item, ghost kids: seq<Item>, ghost es: seq<Value>, ghost r: set<Item>) returns (kid: Item)
    requires Row(kids, es, r, null) && last == kids[|kids| - 1]
    modifies last`next
    ensures fresh(kid) && kid.prev == last && kid.next == null && kid.child == null
    ensures Row(kids, es, r, kid)
  {
    hide Denotes;
    kid := new Item();
    forall j | 0 <= j < |kids| - 1 ensures kids[j] != last {
      assert kids[j].next == kids[j + 1];
    }
    last.next := kid;
    kid.prev := last;
  }

  lemma PrependNone<T>(none: seq<T>, o: Outcome<seq<T>>)
    requires none == []
    ensures Prepend(none, o) == o
  {
    if o.Ok? {
      assert none + o.value == o.value;
    }
  }

  // ----- Objects -----

  function MembersRest(s: bytes): Outcome<seq<Member>> {
    if At(s) == COMMA then ParseMembers(s[1..])
    else if At(s) == RBRACE then Ok([], s[1..])
    else Fail
  }

  lemma MembersStep(done: seq<Member>, s: bytes)
    ensures match ParseMember(s)
            case Ok(m, r) => Prepend(done, ParseMembers(s)) == Prepend(done + [m], MembersRest(Skip(r)))
            case Fail => Prepend(done, ParseMembers(s)).Fail?
            case Undefined => Prepend(done, ParseMembers(s)).Undefined?
  {
    hide ParseMember, ParseMembers, MembersRest, Skip;
    MembersFirst(s);
    var o := ParseMember(s);
    if o.Ok? {
      PrependBoth(done, [o.value], MembersRest(Skip(o.rest)));
    }
  }

  lemma MembersFirst(s: bytes)
    ensures match ParseMember(s)
            case Ok(m, r) => ParseMembers(s) == Prepend([m], MembersRest(Skip(r)))
            case Fail => ParseMembers(s).Fail?
            case Undefined => ParseMembers(s).Undefined?
  {
    hide ParseMember, Skip;
    var o := ParseMember(s);
    if o.Ok? {
      var none: seq<Member> := [];
      assert [o.value] + none == [o.value];
    }
  }

  lemma MembersRestIs(done: seq<Member>, s: bytes)
    ensures At(s) == COMMA ==> MembersRest(s) == ParseMembers(s[1..])
    ensures At(s) == RBRACE ==> Prepend(done, MembersRest(s)) == Ok(done, s[1..])
    ensures At(s) != COMMA && At(s) != RBRACE ==> Prepend(done, MembersRest(s)).Fail?
  {
    hide ParseMembers;
    assert done + [] == done;
  }

  method ReadObject(item: Item, text: bytes, i: nat) returns (next: Next, ghost r: set<Item>)
    requires i < |text| && text[i] == LBRACE && item.child == null
    modifies item`kind, item`child
    ensures Agrees(next, ParseValue(text[i..]), text)
    ensures next.Go? ==> fresh(r) && item !in r && Denotes(item, ParseValue(text[i..]).value, r)
    decreases |text| - i, 0
  {
    hide ParseMembers, Skip, Row, Named;
    r := {};
    item.kind := OBJECT;
    CharAtIs(text, i);
    var j := SkipBlanks(text, i + 1);
    CharAtIs(text, j);
    if CharAt(text, j) == RBRACE {
      return Go(j + 1), r;
    }
    var child := new Item();
    item.child := child;
    ghost var kids, ms, owned;
    next, kids, ms, owned := ReadMembers(child, text, j);
    if next.Go? {
      r := owned + set k | k in kids;
      AllMembers(kids, ms, owned, r);
    }
  }

  lemma AllMembers(kids: seq<Item>, ms: seq<Member>, r: set<Item>, all: set<Item>)
    requires Row(kids, Values(ms), r, null) && Named(kids, ms)
    requires r <= all && forall k :: k in kids ==> k in all
    ensures |kids| > 0 && Members(null, kids[0], ms, all)
  {
    hide Denotes;
    RowMembers(kids, ms, r, all, 0);
    assert ms[0..] == ms;
  }

  /** A name, a colon and a value, all into one item. */
  method ReadMember(child: Item, text: bytes, i: nat) returns (next: Next, ghost r: set<Item>)
    requires i <= |text| && child.child == null
    modifies child`kind, child`child, child`valuestring, child`valuedouble, child`valueint, child`name
    ensures Agrees(next, ParseMember(text[i..]), text)
    ensures next.Go? ==> fresh(r) && child !in r && child.name == Some(ParseMember(text[i..]).value.name)
    ensures next.Go? ==> Denotes(child, ParseMember(text[i..]).value.value, r)
    decreases |text| - i, 2
  {
    hide ParseString, ParseValue, Skip, Denotes;
    r := {};
    var j := SkipBlanks(text, i);
    next := ReadString(child, text, j);
    if !next.Go? {
      return;
    }
    j := SkipBlanks(text, next.at);
    child.name, child.valuestring := child.valuestring, None;
    CharAtIs(text, j);
    if CharAt(text, j) != COLON {
      return Stop, r;
    }
    j := SkipBlanks(text, j + 1);
    next, r := ReadValue(child, text, j);
  }

  method ReadMembers(first: Item, text: bytes, i: nat)
    returns (next: Next, ghost kids: seq<Item>, ghost ms: seq<Member>, ghost r: set<Item>)
    requires i <= |text| && first.Blank()
    modifies first
    ensures Agrees(next, ParseMembers(text[i..]), text)
    ensures next.Go? ==> ms == ParseMembers(text[i..]).value && Row(kids, Values(ms), r, null) && Named(kids, ms)
    ensures next.Go? ==> |kids| > 0 && kids[0] == first && fresh(r) && forall k :: k in kids ==> k == first || fresh(k)
    decreases |text| - i, 4
  {
    hide ParseMember, ParseMembers, Skip, Row, Denotes, MembersRest, Values, Named;
    var child := first;
    kids, ms := [first], [];
    PrependNone(ms, ParseMembers(text[i..]));
    MembersStep(ms, text[i..]);
    next, r := ReadMember(child, text, i);
    if !next.Go? {
      return;
    }
    ghost var m := ParseMember(text[i..]).value;
    FirstRow(first, m.value, r);
    FirstMember(first, m);
    assert ms + [m] == [m];
    ms := [m];
    var j := SkipBlanks(text, next.at);
    while CharAt(text, j) == COMMA
      invariant i <= j <= |text| && |kids| > 0 && child == kids[|kids| - 1] && kids[0] == first
      invariant Row(kids, Values(ms), r, null) && Named(kids, ms) && (child == first || fresh(child))
      invariant ParseMembers(text[i..]) == Prepend(ms, MembersRest(text[j..]))
      invariant fresh(r) && forall k :: k in kids ==> k == first || fresh(k)
      decreases |text| - j
    {
      CharAtIs(text, j);
      MembersRestIs(ms, text[j..]);
      MembersStep(ms, text[j + 1..]);
      ghost var r';
      child, next, r' := AppendMember(child, kids, ms, r, text, j + 1);
      if !next.Go? {
        return;
      }
      kids, ms, r := kids + [child], ms + [ParseMember(text[j + 1..]).value], r + r';
      j := SkipBlanks(text, next.at);
    }
    CharAtIs(text, j);
    MembersRestIs(ms, text[j..]);
    next := if CharAt(text, j) == RBRACE then Go(j + 1) else Stop;
  }

  /** One more child, with its name and value. */
  method AppendMember(last: Item, ghost kids: seq<Item>, ghost ms: seq<Member>, ghost r: set<Item>, text: bytes, i: nat)
    returns (child: Item, next: Next, ghost r': set<Item>)
    requires i <= |text| && Row(kids, Values(ms), r, null) && Named(kids, ms) && last == kids[|kids| - 1]
    modifies last`next
    ensures fresh(child) && Agrees(next, ParseMember(text[i..]), text)
    ensures next.Go? ==> var m := ParseMember(text[i..]).value;
                         fresh(r') && Row(kids + [child], Values(ms + [m]), r + r', null) && Named(kids + [child], ms + [m])
    decreases |text| - i, 3
  {
    hide ParseMember, Row, Denotes, Values, Named;
    child := Append(last, kids, Values(ms), r);
    next, r' := ReadMember(child, text, i);
    if next.Go? {
      ghost var m := ParseMember(text[i..]).value;
      LongerRow(kids, Values(ms), r, child, m.value, r');
      MoreMembers(kids, ms, child, m);
    }
  }

  lemma FirstMember(kid: Item, m: Member)
    requires kid.name == Some(m.name)
    ensures Values([m]) == [m.value] && Named([kid], [m])
  {
  }

  lemma MoreMembers(kids: seq<Item>, ms: seq<Member>, kid: Item, m: Member)
    requires Named(kids, ms) && kid.name == Some(m.name)
    ensures Values(ms + [m]) == Values(ms) + [m.value] && Named(kids + [kid], ms + [m])
  {
  }

  // ----- Whole texts -----

  /** The item for a text, or null. */
  method Parse(text: bytes) returns (c: Item?, ghost r: set<Item>)
    ensures c != null <==> ParseValue(Skip(text)).Ok?
    ensures c != null ==> fresh(c) && fresh(r) && Denotes(c, ParseValue(Skip(text)).value, r)
  {
    hide ParseValue, Skip, Denotes;
    var item := new Item();
    assert text[0..] == text;
    var i := SkipBlanks(text, 0);
    var next;
    next, r := ReadValue(item, text, i);
    c := if next.Go? then item else null;
  }
}
