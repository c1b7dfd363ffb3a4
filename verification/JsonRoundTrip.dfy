/** What the printer prints is JSON that means the tree it printed, in both formats and at any
    depth, so that parsing gives the tree back. */
module JsonRoundTrip {
  import opened Bytes
  import opened Decimal
  import opened JsonText
  import opened JsonSyntax

  // ----- Strings -----

  /** How one byte of a string is written. */
  function ByteUnit(b: byte): Unit {
    if b > 31 && b != 34 && b != 92 then Plain(b)
    else if b == 8 then Short(98)
    else if b == 12 then Short(102)
    else if b == 10 then Short(110)
    else if b == 13 then Short(114)
    else if b == 9 then Short(116)
    else if b == 34 || b == 92 then Short(b)
    else Code([48, 48, 48 + b / 16, if b % 16 < 10 then 48 + b % 16 else 87 + b % 16])
  }

  lemma ByteWritten(b: byte)
    ensures UnitText(ByteUnit(b)) == EscapeByte(b)
    ensures b != 0 ==> LegalUnit(ByteUnit(b)) && UnitMeaning(ByteUnit(b)) == [b]
  {
  }

  function Units(t: bytes): seq<Unit> {
    if t == [] then [] else [ByteUnit(t[0])] + Units(t[1..])
  }

  lemma {:induction false} UnitsWritten(t: bytes)
    ensures UnitsText(Units(t)) == Escape(t)
    ensures NUL !in t ==> LegalUnits(Units(t)) && UnitsMeaning(Units(t)) == t
  {
    hide UnitText, LegalUnit, UnitMeaning, EscapeByte, ByteUnit;
    if t != [] {
      ByteWritten(t[0]);
      UnitsWritten(t[1..]);
      assert Units(t)[0] == ByteUnit(t[0]) && Units(t)[1..] == Units(t[1..]);
      assert [t[0]] + t[1..] == t;
      assert NUL !in t ==> t[0] != 0 && NUL !in t[1..];
    }
  }

  lemma StringBack(t: bytes, rest: bytes)
    requires NUL !in t
    ensures ParseString(PrintString(t) + rest) == Ok(t, rest)
  {
    hide UnitsText, UnitsMeaning, Escape, Units, ParseString;
    UnitsWritten(t);
    StringRead(Units(t), rest);
  }

  // ----- Numbers -----

  function IntNum(n: int): Num {
    Num(n < 0, Dec(if n < 0 then -n else n), [], NoPower)
  }

  lemma IntWritten(n: int)
    ensures NumText(IntNum(n)) == PrintInt(n) && LegalNum(IntNum(n)) && NumMeaning(IntNum(n)) == n as real
  {
    hide Worth, Canonical;
    var m := if n < 0 then -n else n;
    DecIs(m);
    assert Dec(m) + [] == Dec(m);
    assert Ten(0) == 1 && m * 1 == m;
  }

  lemma NumberBack(x: real, rest: bytes)
    requires IsInt(x) && Ends(rest)
    ensures ParseNumber(PrintInt(x.Floor) + rest) == Ok(x, rest)
  {
    hide ParseNumber, PrintInt, NumText, NumMeaning, LegalNum;
    IntWritten(x.Floor);
    NumRead(IntNum(x.Floor), rest);
  }

  // ----- Values -----

  /** The text that is printed, with its white space. */
  function Layout(v: Value, depth: nat, fmt: bool): Doc
    decreases v, 0
  {
    match v
    case Null => NullDoc
    case Bool(b) => if b then TrueDoc else FalseDoc
    case Number(x) => NumberDoc(IntNum(x.Floor))
    case String(t) => StringDoc(Units(t))
    case Array(es) => ArrayDoc([], Elements(es, depth + 1, fmt, true))
    case Object(ms) => ObjectDoc(NewLine(depth, fmt), Fields(ms, depth + 1, fmt))
  }

  /** A line feed and tabs, in the formatted text. */
  function NewLine(depth: nat, fmt: bool): bytes {
    If(fmt, [10]) + If(fmt, Tabs(depth))
  }

  function Elements(es: seq<Value>, depth: nat, fmt: bool, first: bool): seq<Element>
    decreases es, 0
  {
    if es == [] then []
    else [Element(if first then [] else If(fmt, [32]), Layout(es[0], depth, fmt), [])] + Elements(es[1..], depth, fmt, false)
  }

  function Fields(ms: seq<Member>, depth: nat, fmt: bool): seq<Field>
    requires depth > 0
    decreases ms, 0
  {
    if ms == [] then []
    else
      [Field(NewLine(depth, fmt), Units(ms[0].name), [], If(fmt, [9]), Layout(ms[0].value, depth, fmt),
             if |ms| == 1 then NewLine(depth - 1, fmt) else [])] + Fields(ms[1..], depth, fmt)
  }

  lemma {:induction false} TabsWhite(n: nat)
    ensures White(Tabs(n))
  {
    if n > 0 {
      TabsWhite(n - 1);
    }
  }

  lemma NewLineWhite(depth: nat, fmt: bool)
    ensures White(NewLine(depth, fmt))
  {
    TabsWhite(depth);
  }

  /** The printed text is legal and means the tree. */
  lemma {:induction false} Printed(v: Value, depth: nat, fmt: bool)
    requires Printable(v)
    ensures var d := Layout(v, depth, fmt); Legal(d) && DocText(d) == PrintValue(v, depth, fmt) && Meaning(d) == v
    decreases v, 0
  {
    hide NumText, NumMeaning, LegalNum, PrintInt, UnitsText, UnitsMeaning, Units, Escape, ElementsText, FieldsText,
      PrintElements, PrintMembers, Tabs, NewLine, LegalElements, LegalFields, LegalUnits;
    match v
    case Null =>
    case Bool(_) =>
    case Number(x) => IntWritten(x.Floor);
    case String(t) => UnitsWritten(t);
    case Array(es) =>
      ElementsPrinted(es, depth + 1, fmt, true);
      ArrayPrinted(es, depth, fmt);
    case Object(ms) =>
      FieldsPrinted(ms, depth + 1, fmt);
      ObjectPrinted(ms, depth, fmt);
  }

  lemma ArrayPrinted(es: seq<Value>, depth: nat, fmt: bool)
    requires forall e :: e in es ==> Printable(e)
    requires var ds := Elements(es, depth + 1, fmt, true);
             LegalElements(ds) && ElementsMeaning(ds) == es && |ds| == |es| &&
             (es != [] ==> ElementsText(ds) == PrintElements(es, depth + 1, fmt) + [93])
    ensures var d := Layout(Array(es), depth, fmt);
            Legal(d) && DocText(d) == PrintValue(Array(es), depth, fmt) && Meaning(d) == Array(es)
  {
    hide ElementsText, ElementsMeaning, LegalElements, Elements;
    if es == [] {
      assert PrintElements(es, depth + 1, fmt) == [];
    }
    Regroup([91], PrintElements(es, depth + 1, fmt), [93]);
  }

  lemma {:induction false} ElementsPrinted(es: seq<Value>, depth: nat, fmt: bool, first: bool)
    requires forall e :: e in es ==> Printable(e)
    ensures var ds := Elements(es, depth, fmt, first);
            && LegalElements(ds) && ElementsMeaning(ds) == es && |ds| == |es|
            && (es != [] ==>
                  ElementsText(ds) == (if first then [] else If(fmt, [32])) + (PrintElements(es, depth, fmt) + [93]))
    decreases es, 0
  {
    hide Legal, DocText, PrintValue, Meaning, Printable, Layout, LegalElements, ElementsMeaning, White;
    LeadWhite(fmt);
    if es != [] {
      Printed(es[0], depth, fmt);
      ElementsPrinted(es[1..], depth, fmt, false);
      var ds := Elements(es, depth, fmt, first);
      assert ds[1..] == Elements(es[1..], depth, fmt, false);
      ElementsCons(ds[0], ds[1..]);
      assert [ds[0]] + ds[1..] == ds && [es[0]] + es[1..] == es;
      var lead, text := if first then [] else If(fmt, [32]), PrintValue(es[0], depth, fmt);
      if |es| == 1 {
        LastElement(lead, text, es[1..], depth, fmt);
      } else {
        NextElement(lead, text, If(fmt, [32]), PrintElements(es[1..], depth, fmt));
      }
    }
  }

  lemma LeadWhite(fmt: bool)
    ensures White(If(fmt, [32])) && White([]) && LegalElements([]) && ElementsMeaning([]) == []
  {
  }

  lemma ElementsCons(e: Element, es: seq<Element>)
    requires LegalElements(es) && White(e.before) && Legal(e.doc) && White(e.after)
    ensures LegalElements([e] + es) && ElementsMeaning([e] + es) == [Meaning(e.doc)] + ElementsMeaning(es)
  {
    hide White, Legal, Meaning;
    assert ([e] + es)[1..] == es;
  }

  lemma LastElement(lead: bytes, text: bytes, none: seq<Value>, depth: nat, fmt: bool)
    requires none == []
    ensures lead + (text + ([] + [93])) == lead + ((text + ElementEnd(true, fmt) + PrintElements(none, depth, fmt)) + [93])
  {
    assert [] + [93] == [93] && text + [] == text;
  }

  lemma NextElement(lead: bytes, text: bytes, gap: bytes, more: bytes)
    ensures lead + (text + ([] + ([44] + (gap + (more + [93]))))) == lead + ((text + ([44] + gap) + more) + [93])
  {
    assert [] + ([44] + (gap + (more + [93]))) == [44] + (gap + (more + [93]));
    assert text + ([44] + (gap + (more + [93]))) == (text + ([44] + gap) + more) + [93];
  }

  lemma ObjectPrinted(ms: seq<Member>, depth: nat, fmt: bool)
    requires forall m :: m in ms ==> NUL !in m.name && Printable(m.value)
    requires var fs := Fields(ms, depth + 1, fmt);
             LegalFields(fs) && FieldsMeaning(fs) == ms && |fs| == |ms| &&
             (ms != [] ==> FieldsText(fs) == If(fmt, [10]) + (PrintMembers(ms, depth + 1, fmt) + (If(fmt, Tabs(depth)) + [125])))
    ensures var d := Layout(Object(ms), depth, fmt);
            Legal(d) && DocText(d) == PrintValue(Object(ms), depth, fmt) && Meaning(d) == Object(ms)
  {
    hide FieldsText, FieldsMeaning, LegalFields, Fields, Tabs, If;
    NewLineWhite(depth, fmt);
    assert ms == [] ==> PrintMembers(ms, depth + 1, fmt) == [];
    hide PrintMembers;
    Braced(If(fmt, [10]), PrintMembers(ms, depth + 1, fmt), If(fmt, Tabs(depth)));
  }

  lemma Braced(nl: bytes, body: bytes, tabs: bytes)
    ensures [123] + (nl + (body + (tabs + [125]))) == [123] + nl + body + tabs + [125]
    ensures body == [] ==> [123] + ((nl + tabs) + [125]) == [123] + nl + body + tabs + [125]
  {
    assert body == [] ==> nl + body == nl;
  }

  lemma {:induction false} FieldsPrinted(ms: seq<Member>, depth: nat, fmt: bool)
    requires depth > 0 && forall m :: m in ms ==> NUL !in m.name && Printable(m.value)
    ensures var fs := Fields(ms, depth, fmt);
            && LegalFields(fs) && FieldsMeaning(fs) == ms && |fs| == |ms|
            && (ms != [] ==>
                  FieldsText(fs) == If(fmt, [10]) + (PrintMembers(ms, depth, fmt) + (If(fmt, Tabs(depth - 1)) + [125])))
    decreases ms, 0
  {
    hide Legal, DocText, PrintValue, Meaning, Printable, Layout, Units, UnitsMeaning, UnitsText, LegalUnits, Escape, Tabs,
      NewLine, FieldText, PrintMember, LegalFields, FieldsMeaning, If, White;
    GapWhite(fmt);
    if ms != [] {
      var m := ms[0];
      Printed(m.value, depth, fmt);
      UnitsWritten(m.name);
      NewLineWhite(depth, fmt);
      NewLineWhite(depth - 1, fmt);
      FieldsPrinted(ms[1..], depth, fmt);
      var fs := Fields(ms, depth, fmt);
      assert fs[1..] == Fields(ms[1..], depth, fmt);
      FieldsCons(fs[0], fs[1..]);
      assert [fs[0]] + fs[1..] == fs && [m] + ms[1..] == ms;
      FieldPrinted(fs[0], m, depth, fmt);
      if |ms| == 1 {
        LastField(fs[0], m, ms[1..], depth, fmt);
      } else {
        NextField(fs[0], m, depth, fmt, PrintMembers(ms[1..], depth, fmt));
      }
    }
  }

  lemma GapWhite(fmt: bool)
    ensures White(If(fmt, [9])) && White([]) && LegalFields([]) && FieldsMeaning([]) == []
  {
  }

  lemma FieldsCons(f: Field, fs: seq<Field>)
    requires LegalFields(fs) && White(f.before) && LegalUnits(f.name) && White(f.colon) && White(f.gap)
    requires Legal(f.doc) && White(f.after)
    ensures LegalFields([f] + fs)
    ensures FieldsMeaning([f] + fs) == [Member(UnitsMeaning(f.name), Meaning(f.doc))] + FieldsMeaning(fs)
  {
    hide White, LegalUnits, Legal, UnitsMeaning, Meaning;
    assert ([f] + fs)[1..] == fs;
  }

  lemma FieldPrinted(f: Field, m: Member, depth: nat, fmt: bool)
    requires Printable(m.value) && f.before == NewLine(depth, fmt) && f.name == Units(m.name) && f.colon == []
    requires f.gap == If(fmt, [9]) && DocText(f.doc) == PrintValue(m.value, depth, fmt) && UnitsText(f.name) == Escape(m.name)
    ensures FieldText(f) == If(fmt, [10]) + (If(fmt, Tabs(depth)) + (PrintMember(m, depth, fmt) + f.after))
  {
    hide UnitsText, Escape, DocText, PrintValue, Tabs, Units, If;
    var s, g, v := PrintString(m.name), f.gap, PrintValue(m.value, depth, fmt);
    assert [] + ([58] + (g + (v + f.after))) == [58] + (g + (v + f.after));
    assert s + ([58] + (g + (v + f.after))) == (s + [58] + g + v) + f.after;
    Regroup(If(fmt, [10]), If(fmt, Tabs(depth)), (s + [58] + g + v) + f.after);
  }

  lemma LastField(f: Field, m: Member, none: seq<Member>, depth: nat, fmt: bool)
    requires depth > 0 && Printable(m.value) && none == [] && f.after == NewLine(depth - 1, fmt)
    requires FieldText(f) == If(fmt, [10]) + (If(fmt, Tabs(depth)) + (PrintMember(m, depth, fmt) + f.after))
    ensures FieldText(f) + [125] == If(fmt, [10]) +
            ((If(fmt, Tabs(depth)) + PrintMember(m, depth, fmt) + MemberEnd(true, fmt) + PrintMembers(none, depth, fmt)) +
             (If(fmt, Tabs(depth - 1)) + [125]))
  {
    hide FieldText, PrintMember, Tabs, If;
    var nl, tabs, text, back := If(fmt, [10]), If(fmt, Tabs(depth)), PrintMember(m, depth, fmt), If(fmt, Tabs(depth - 1));
    assert PrintMembers(none, depth, fmt) == [] && MemberEnd(true, fmt) == [] + nl == nl;
    hide PrintMembers, MemberEnd;
    Closing(nl, tabs, text, back);
  }

  lemma Closing(nl: bytes, tabs: bytes, text: bytes, back: bytes)
    ensures nl + (tabs + (text + (nl + back))) + [125] == nl + ((tabs + text + nl + []) + (back + [125]))
  {
    Regroup(tabs + text + nl, [], []);
    assert tabs + (text + (nl + back)) + [125] == tabs + text + nl + (back + [125]);
    Regroup(nl, tabs + (text + (nl + back)), [125]);
  }

  lemma NextField(f: Field, m: Member, depth: nat, fmt: bool, more: bytes)
    requires depth > 0 && Printable(m.value) && f.after == []
    requires FieldText(f) == If(fmt, [10]) + (If(fmt, Tabs(depth)) + (PrintMember(m, depth, fmt) + f.after))
    ensures var back := If(fmt, Tabs(depth - 1)) + [125];
            FieldText(f) + ([44] + (If(fmt, [10]) + (more + back))) == If(fmt, [10]) +
            ((If(fmt, Tabs(depth)) + PrintMember(m, depth, fmt) + MemberEnd(false, fmt) + more) + back)
  {
    hide FieldText, PrintMember, Tabs, If;
    var nl, tabs, text := If(fmt, [10]), If(fmt, Tabs(depth)), PrintMember(m, depth, fmt);
    var back := If(fmt, Tabs(depth - 1)) + [125];
    assert MemberEnd(false, fmt) == [44] + nl;
    assert nl + (tabs + (text + [])) + ([44] + (nl + (more + back))) == nl + ((tabs + text + ([44] + nl) + more) + back);
  }

  lemma RoundTrip(v: Value, depth: nat, fmt: bool, rest: bytes)
    requires Printable(v) && Ends(rest)
    ensures ParseValue(PrintValue(v, depth, fmt) + rest) == Ok(v, rest)
  {
    hide ParseValue, PrintValue, DocText, Meaning, Legal, Layout;
    Printed(v, depth, fmt);
    DocRead(Layout(v, depth, fmt), rest);
  }

  /** The whole printed text is read, and nothing else comes of it. */
  lemma WholeText(v: Value, fmt: bool)
    requires Printable(v)
    ensures ParseValue(Skip(PrintValue(v, 0, fmt))) == Ok(v, [])
  {
    hide ParseValue, PrintValue, DocText, Meaning, Legal, Layout;
    var s := PrintValue(v, 0, fmt);
    assert s + [] == s;
    Printed(v, 0, fmt);
    DocStart(Layout(v, 0, fmt), []);
    assert Skip(s) == s;
    RoundTrip(v, 0, fmt, []);
  }

  // ----- Surrogate pairs -----

  /** Two escapes that make a pair are read as one code point. */
  lemma EscapesRead(h: bytes, l: bytes, rest: bytes)
    requires |h| == 4 && Hex4(h) && 0xD800 <= Hex4Value(h) < 0xDC00
    requires |l| == 4 && Hex4(l) && 0xDC00 <= Hex4Value(l) < 0xE000
    ensures var c := Combine(Hex4Value(h), Hex4Value(l));
            && 0x1_0000 <= c < 0x20_0000
            && ParseString([QUOTE, BACKSLASH, 117] + h + [BACKSLASH, 117] + l + [QUOTE] + rest) == Ok(Utf8(c), rest)
  {
    hide Combine, Utf8, Hex4, Hex4Value, Body;
    var s := [QUOTE, BACKSLASH, 117] + h + [BACKSLASH, 117] + l + [QUOTE] + rest;
    var t := s[1..][2..];
    var tail := [QUOTE] + rest;
    assert t == h + [BACKSLASH, 117] + l + tail;
    SameHex(t, h);
    assert t[6..] == l + tail;
    SameHex(t[6..], l);
    assert t[10..] == tail && tail[1..] == rest;
    assert Unicode(t) == Ok(Utf8(Combine(Hex4Value(h), Hex4Value(l))), tail);
    assert OneChar(s[1..]) == Unicode(t);
    OneCharBody(s[1..], rest);
  }

  /** A body of one character. */
  lemma OneCharBody(s: bytes, rest: bytes)
    requires At(s) != NUL && At(s) != QUOTE && OneChar(s).Ok? && OneChar(s).rest == [QUOTE] + rest
    ensures Body(s) == Ok(OneChar(s).value, rest)
  {
    hide OneChar;
    assert ([QUOTE] + rest)[1..] == rest && Body([QUOTE] + rest) == Ok([], rest);
    assert OneChar(s).value + [] == OneChar(s).value;
  }

  lemma Utf8Differs(c: nat, d: nat)
    requires 0x1_0000 <= c < 0x20_0000 && 0x1_0000 <= d < 0x20_0000 && c != d
    ensures Utf8(c) != Utf8(d)
  {
    assert c / 0x40 / 0x40 == c / 0x1000 && c / 0x1000 / 0x40 == c / 0x4_0000;
    assert d / 0x40 / 0x40 == d / 0x1000 && d / 0x1000 / 0x40 == d / 0x4_0000;
    var e, f := Utf8(c), Utf8(d);
    assert e[0] != f[0] || e[1] != f[1] || e[2] != f[2] || e[3] != f[3];
  }

  /** A string of one surrogate pair is read as its UTF-16 code point exactly when bit 6 of
      the high half is clear. */
  lemma PairExact(h: bytes, l: bytes, rest: bytes)
    requires |h| == 4 && Hex4(h) && 0xD800 <= Hex4Value(h) < 0xDC00
    requires |l| == 4 && Hex4(l) && 0xDC00 <= Hex4Value(l) < 0xE000
    ensures var text := [QUOTE, BACKSLASH, 117] + h + [BACKSLASH, 117] + l + [QUOTE] + rest;
            ParseString(text) == Ok(Utf8(Utf16(Hex4Value(h), Hex4Value(l))), rest) <==> Hex4Value(h) / 64 % 2 == 0
  {
    hide Combine, Utf8, Hex4Value, Hex4, ParseString;
    EscapesRead(h, l, rest);
    CombineIs(Hex4Value(h), Hex4Value(l));
    var c, d := Combine(Hex4Value(h), Hex4Value(l)), Utf16(Hex4Value(h), Hex4Value(l));
    if c != d {
      Utf8Differs(c, d);
    }
  }

  /** "\ud840\udc00" stands for U+20000 and is read as U+10000. */
  lemma FirstBadPair(rest: bytes)
    ensures ParseString([QUOTE, BACKSLASH, 117, 100, 56, 52, 48, BACKSLASH, 117, 100, 99, 48, 48, QUOTE] + rest)
            == Ok(Utf8(0x1_0000), rest)
    ensures Utf16(0xD840, 0xDC00) == 0x2_0000
  {
    hide Combine, Utf8, Hex4, Hex4Value, ParseString;
    var h, l := [100, 56, 52, 48], [100, 99, 48, 48];
    BadHex(h, l);
    EscapesRead(h, l, rest);
    CombineIs(0xD840, 0xDC00);
    assert [QUOTE, BACKSLASH, 117, 100, 56, 52, 48, BACKSLASH, 117, 100, 99, 48, 48, QUOTE] + rest
        == [QUOTE, BACKSLASH, 117] + h + [BACKSLASH, 117] + l + [QUOTE] + rest;
  }

  lemma BadHex(h: bytes, l: bytes)
    requires h == [100, 56, 52, 48] && l == [100, 99, 48, 48]
    ensures Hex4(h) && Hex4(l) && Hex4Value(h) == 0xD840 && Hex4Value(l) == 0xDC00
  {
  }
}
