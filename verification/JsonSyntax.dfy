/** The syntax of JSON as RFC 8259 gives it, byte for byte, what a text means, and the proof
    that the parser's grammar gives every such text its meaning. */
module JsonSyntax {
  import opened Bytes
  import opened Decimal
  import opened JsonText

  // ----- Section 7: strings -----

  /** A byte that stands for itself, a one-letter escape, a \u escape, or two of them that
      make a surrogate pair. */
  datatype Unit = Plain(b: byte) | Short(letter: byte) | Code(hex: bytes) | Pair(high: bytes, low: bytes)

  function UnitText(u: Unit): bytes {
    match u
    case Plain(b) => [b]
    case Short(c) => [92, c]
    case Code(h) => [92, 117] + h
    case Pair(h, l) => [92, 117] + h + ([92, 117] + l)
  }

  predicate LegalUnit(u: Unit) {
    match u
    case Plain(b) => b != 0 && b != 34 && b != 92
    case Short(c) => c in {34, 92, 47, 98, 102, 110, 114, 116}
    case Code(h) => |h| == 4 && Hex4(h) && Hex4Value(h) != 0 && !(0xD800 <= Hex4Value(h) < 0xE000)
    case Pair(h, l) =>
      && |h| == 4 && Hex4(h) && 0xD800 <= Hex4Value(h) < 0xDC00 && Hex4Value(h) / 64 % 2 == 0
      && |l| == 4 && Hex4(l) && 0xDC00 <= Hex4Value(l) < 0xE000
  }

  /** The code point of a surrogate pair, as section 2.2 of RFC 2781 gives it. */
  function Utf16(high: nat, low: nat): nat
    requires 0xD800 <= high < 0xDC00 && 0xDC00 <= low < 0xE000
  {
    0x1_0000 + (high - 0xD800) * 0x400 + (low - 0xDC00)
  }

  function UnitMeaning(u: Unit): bytes
    requires LegalUnit(u)
  {
    match u
    case Plain(b) => [b]
    case Short(c) =>
      if c == 98 then [8] else if c == 102 then [12] else if c == 110 then [10]
      else if c == 114 then [13] else if c == 116 then [9] else [c]
    case Code(h) => Utf8(Hex4Value(h))
    case Pair(h, l) => Utf8(Utf16(Hex4Value(h), Hex4Value(l)))
  }

  function UnitsText(us: seq<Unit>): bytes {
    if us == [] then [] else UnitText(us[0]) + UnitsText(us[1..])
  }

  predicate LegalUnits(us: seq<Unit>) {
    forall u :: u in us ==> LegalUnit(u)
  }

  function UnitsMeaning(us: seq<Unit>): bytes
    requires LegalUnits(us)
  {
    if us == [] then [] else UnitMeaning(us[0]) + UnitsMeaning(us[1..])
  }

  function StringText(us: seq<Unit>): bytes {
    [34] + UnitsText(us) + [34]
  }

  /** The code point of a UTF-8 sequence, as the table in section 3 of RFC 3629 gives it. */
  function Decoded(s: bytes): Option<nat> {
    if |s| == 1 && s[0] < 0x80 then Some(s[0])
    else if |s| == 2 && 0xC0 <= s[0] < 0xE0 && Tail(s[1]) then Some(Unmarked(s[0], 0xC0) * 64 + Unmarked(s[1], 0x80))
    else if |s| == 3 && 0xE0 <= s[0] < 0xF0 && Tail(s[1]) && Tail(s[2]) then
      Some((Unmarked(s[0], 0xE0) * 64 + Unmarked(s[1], 0x80)) * 64 + Unmarked(s[2], 0x80))
    else if |s| == 4 && 0xF0 <= s[0] < 0xF8 && Tail(s[1]) && Tail(s[2]) && Tail(s[3]) then
      Some(((Unmarked(s[0], 0xF0) * 64 + Unmarked(s[1], 0x80)) * 64 + Unmarked(s[2], 0x80)) * 64 + Unmarked(s[3], 0x80))
    else None
  }

  /** What is left of a byte without its mark. */
  function Unmarked(b: byte, mark: byte): nat
    requires b >= mark
  {
    b - mark
  }

  predicate Tail(b: byte) {
    0x80 <= b < 0xC0
  }

  /** The bytes decode to the code point, and are as few as can be. */
  lemma Utf8Decodes(c: nat)
    requires 0 < c < 0x20_0000
    ensures Decoded(Utf8(c)) == Some(c)
    ensures |Utf8(c)| == if c < 0x80 then 1 else if c < 0x800 then 2 else if c < 0x1_0000 then 3 else 4
  {
    assert c / 0x40 / 0x40 == c / 0x1000 && c / 0x1000 / 0x40 == c / 0x4_0000;
  }

  lemma HexIs(b: byte)
    ensures '0' <= b as char <= '9' ==> IsHex(b) && HexValue(b) == b - '0' as int
    ensures 'a' <= b as char <= 'f' ==> IsHex(b) && HexValue(b) == 10 + (b - 'a' as int)
    ensures 'A' <= b as char <= 'F' ==> IsHex(b) && HexValue(b) == 10 + (b - 'A' as int)
    ensures IsHex(b) ==> '0' <= b as char <= '9' || 'a' <= b as char <= 'f' || 'A' <= b as char <= 'F'
  {
  }

  lemma SameHex(s: bytes, h: bytes)
    requires |h| == 4 && h <= s && Hex4(h)
    ensures Hex4(s) && Hex4Value(s) == Hex4Value(h)
  {
  }

  lemma UnitRead(u: Unit, rest: bytes)
    requires LegalUnit(u)
    ensures var s := UnitText(u) + rest;
            At(s) != NUL && At(s) != QUOTE && OneChar(s) == Ok(UnitMeaning(u), rest)
  {
    hide Combine, Utf8, Hex4, Hex4Value;
    var s := UnitText(u) + rest;
    match u
    case Plain(_) => assert s[1..] == rest;
    case Short(_) => assert s[2..] == rest;
    case Code(h) =>
      assert s[2..] == h + rest && s[2..][4..] == rest;
      SameHex(s[2..], h);
    case Pair(h, l) =>
      assert s[2..] == h + ([92, 117] + (l + rest));
      PairRead(h, l, rest);
  }

  lemma PairRead(h: bytes, l: bytes, rest: bytes)
    requires LegalUnit(Pair(h, l))
    ensures Unicode(h + ([92, 117] + (l + rest))) == Ok(Utf8(Utf16(Hex4Value(h), Hex4Value(l))), rest)
  {
    hide Combine, Utf8, Hex4, Hex4Value;
    var t := h + ([92, 117] + (l + rest));
    SameHex(t, h);
    assert t[4..] == [92, 117] + (l + rest) && t[5..] == [117] + (l + rest);
    assert t[6..] == l + rest && t[10..] == rest;
    SameHex(t[6..], l);
    CombineIs(Hex4Value(h), Hex4Value(l));
  }

  lemma {:induction false} UnitsRead(us: seq<Unit>, rest: bytes)
    requires LegalUnits(us)
    ensures Body(UnitsText(us) + ([34] + rest)) == Ok(UnitsMeaning(us), rest)
    decreases |us|
  {
    hide OneChar, UnitText, UnitMeaning, LegalUnit;
    var tail := [34] + rest;
    if us == [] {
      assert UnitsText(us) + tail == tail && tail[1..] == rest;
    } else {
      var more := UnitsText(us[1..]) + tail;
      assert UnitsText(us) + tail == UnitText(us[0]) + more;
      UnitRead(us[0], more);
      UnitsRead(us[1..], rest);
    }
  }

  lemma StringRead(us: seq<Unit>, rest: bytes)
    requires LegalUnits(us)
    ensures var s := StringText(us) + rest; At(s) == 34 && ParseString(s) == Ok(UnitsMeaning(us), rest)
  {
    hide Body, UnitsText, UnitsMeaning;
    UnitsRead(us, rest);
    assert (StringText(us) + rest)[1..] == UnitsText(us) + ([34] + rest);
  }

  // ----- Section 6: numbers -----

  datatype Power = NoPower | Power(letter: byte, sign: bytes, digits: bytes)

  /** An integer part, the digits after the point, of which there may be none, and an
      exponent. */
  datatype Num = Num(minus: bool, whole: bytes, fraction: bytes, power: Power)

  predicate LegalPower(p: Power) {
    p.Power? ==> p.letter in {101, 69} && (p.sign == [] || p.sign == [43] || p.sign == [45]) &&
                 AllDigits(p.digits) && p.digits != []
  }

  predicate LegalNum(n: Num) {
    Canonical(n.whole) && AllDigits(n.fraction) && LegalPower(n.power)
  }

  function PowerText(p: Power): bytes {
    if p.NoPower? then [] else [p.letter] + p.sign + p.digits
  }

  function NumText(n: Num): bytes {
    (if n.minus then [45] else []) + (n.whole + ((if n.fraction == [] then [] else [46] + n.fraction) + PowerText(n.power)))
  }

  /** 10 to the k. */
  function Ten(k: nat): (t: nat)
    ensures t > 0
  {
    if k == 0 then 1 else 10 * Ten(k - 1)
  }

  function PowerValue(p: Power): int
    requires LegalPower(p)
  {
    if p.NoPower? then 0 else if p.sign == [45] then 0 - Worth(p.digits) else Worth(p.digits)
  }

  /** The digits as one integer, moved by the exponent and back by the fraction. */
  function NumMeaning(n: Num): real
    requires LegalNum(n)
  {
    var e, f := PowerValue(n.power), |n.fraction|;
    var up, down := if e > 0 then e else 0, f + if e > 0 then 0 else -e;
    var x := (Worth(n.whole + n.fraction) * Ten(up)) as real / Ten(down) as real;
    if n.minus then -x else x
  }

  lemma PowNext(e: int)
    ensures Pow10(0) == 1.0 && Pow10(e + 1) == 10.0 * Pow10(e)
  {
  }

  lemma {:induction false} PowQuotient(up: nat, down: nat)
    ensures Pow10(up - down) * Ten(down) as real == Ten(up) as real
    decreases up + down
  {
    hide Pow10, Ten;
    assert Ten(0) == 1 by { TenNone(); }
    if down > 0 {
      PowQuotient(up, down - 1);
      PowNext(up - down);
      Tenfold(down);
      Shift(Pow10(up - down), Ten(down - 1) as real);
    } else if up > 0 {
      PowQuotient(up - 1, 0);
      PowNext(up - 1);
      Tenfold(up);
    } else {
      PowNext(0);
    }
  }

  lemma TenNone()
    ensures Ten(0) == 1
  {
  }

  lemma Tenfold(k: nat)
    requires k > 0
    ensures Ten(k) as real == 10.0 * Ten(k - 1) as real
  {
  }

  lemma Shift(p: real, t: real)
    ensures p * (10.0 * t) == (10.0 * p) * t
  {
  }

  /** Digits read on from those read before. */
  lemma {:induction false} DigitsRead(before: bytes, ds: bytes, rest: bytes)
    requires AllDigits(before) && AllDigits(ds) && !IsDigit(At(rest))
    ensures DigitRun(ds + rest, Worth(before)) == (Worth(before + ds), rest)
    decreases |ds|
  {
    if ds == [] {
      assert ds + rest == rest && before + ds == before;
    } else {
      var next := before + [ds[0]];
      assert next[..|before|] == before;
      assert (ds + rest)[1..] == ds[1..] + rest;
      DigitsRead(next, ds[1..], rest);
      assert next + ds[1..] == before + ds;
    }
  }

  lemma WholeRead(whole: bytes, rest: bytes)
    requires Canonical(whole) && !IsDigit(At(rest))
    ensures IntegerPart(whole + rest) == (Worth(whole), rest)
  {
    hide DigitRun, Worth;
    var s := whole + rest;
    assert s[0] == whole[0];
    if whole[0] == 48 {
      assert whole == [48] && s[1..] == rest;
      WorthZero();
    } else {
      DigitsRead([], whole, rest);
      assert [] + whole == whole;
      WorthNone();
    }
  }

  lemma WorthZero()
    ensures Worth([48]) == 0
  {
    assert [48][..0] == [];
  }

  lemma WorthNone()
    ensures Worth([]) == 0
  {
  }

  lemma FractionRead(whole: bytes, fraction: bytes, rest: bytes)
    requires AllDigits(whole) && AllDigits(fraction) && !IsDigit(At(rest)) && At(rest) != DOT
    ensures Fraction(Worth(whole), (if fraction == [] then [] else [46] + fraction) + rest) ==
            (Worth(whole + fraction), |fraction|, rest)
  {
    hide DigitRun, Worth;
    if fraction == [] {
      assert [] + rest == rest && whole + fraction == whole;
    } else {
      var s := [46] + fraction + rest;
      assert s[1..] == fraction + rest && s[1..][0] == fraction[0];
      DigitsRead(whole, fraction, rest);
    }
  }

  lemma PowerRead(p: Power, rest: bytes)
    requires LegalPower(p) && !IsDigit(At(rest)) && At(rest) !in {101, 69}
    ensures Exponent(PowerText(p) + rest) == (PowerValue(p), rest)
  {
    hide DigitRun, Worth, Exponent, AllDigits;
    if p.NoPower? {
      assert PowerText(p) + rest == rest;
      NoExponent(rest);
    } else {
      DigitsAlone(p.digits, rest);
      ExponentRead(p.letter, p.sign, p.digits + rest);
      assert PowerText(p) + rest == [p.letter] + (p.sign + (p.digits + rest));
    }
  }

  lemma DigitsAlone(ds: bytes, rest: bytes)
    requires AllDigits(ds) && ds != [] && !IsDigit(At(rest))
    ensures DigitRun(ds + rest, 0) == (Worth(ds), rest) && IsDigit(At(ds + rest))
  {
    hide DigitRun, Worth;
    DigitsRead([], ds, rest);
    WorthNone();
    assert [] + ds == ds && (ds + rest)[0] == ds[0];
  }

  lemma NoExponent(rest: bytes)
    requires At(rest) !in {101, 69}
    ensures Exponent(rest) == (0, rest)
  {
  }

  lemma ExponentRead(letter: byte, sign: bytes, t: bytes)
    requires letter in {101, 69} && (sign == [] || sign == [43] || sign == [45]) && IsDigit(At(t))
    ensures var (e, r) := DigitRun(t, 0);
            Exponent([letter] + (sign + t)) == (if sign == [45] then 0 - e else e, r)
  {
    hide DigitRun;
    var s := [letter] + (sign + t);
    assert s[1..] == sign + t;
    if sign == [] {
      assert s[1..] == t;
    } else {
      assert s[1..][0] == sign[0] && s[2..] == t;
    }
  }

  /** What can follow a number: nothing, white space, a comma or a closing bracket. */
  predicate Ends(rest: bytes) {
    At(rest) in {0, 9, 10, 13, 32, 44, 93, 125}
  }

  lemma NumRead(n: Num, rest: bytes)
    requires LegalNum(n) && Ends(rest)
    ensures ParseNumber(NumText(n) + rest) == Ok(NumMeaning(n), rest)
  {
    hide IntegerPart, Fraction, Exponent, Pow10, Ten, Worth, PowerText, LegalPower, PowerValue, ParseNumber, NumMeaning,
      Times;
    var fr := if n.fraction == [] then [] else [46] + n.fraction;
    var p := PowerText(n.power) + rest;
    var a := fr + p;
    var t := n.whole + a;
    var s := NumText(n) + rest;
    assert t == n.whole + (fr + PowerText(n.power)) + rest;
    PowerStart(n.power, rest);
    assert a == if n.fraction == [] then p else [46] + n.fraction + p;
    NumStart(n, a);
    assert if n.minus then s == [45] + t && s[1..] == t else s == t;
    WholeRead(n.whole, a);
    FractionRead(n.whole, n.fraction, p);
    PowerRead(n.power, rest);
    PartsRead(s, n.minus, t, a, p, rest);
    Scaled(n);
  }

  function Times(m: nat, p: real): real {
    m as real * p
  }

  lemma PartsRead(s: bytes, minus: bool, t: bytes, a: bytes, b: bytes, c: bytes)
    requires IsDigit(At(t)) && if minus then At(s) == 45 && s[1..] == t else s == t
    requires IntegerPart(t).1 == a && Fraction(IntegerPart(t).0, a).2 == b && Exponent(b).1 == c
    ensures var (m, scale) := (Fraction(IntegerPart(t).0, a).0, Fraction(IntegerPart(t).0, a).1);
            var x := Times(m, Pow10(Exponent(b).0 - scale));
            ParseNumber(s).rest == c && ParseNumber(s).value == if minus then -x else x
  {
    hide IntegerPart, Fraction, Exponent, Pow10;
    assert (At(s) == MINUS) == minus;
  }

  lemma PowerStart(p: Power, rest: bytes)
    requires LegalPower(p) && Ends(rest)
    ensures var s := PowerText(p) + rest; !IsDigit(At(s)) && At(s) != DOT
  {
    assert p.NoPower? ==> PowerText(p) + rest == rest;
  }

  lemma NumStart(n: Num, a: bytes)
    requires LegalNum(n)
    ensures IsDigit(At(n.whole + a)) && AllDigits(n.whole) && n.whole != []
  {
  }

  lemma Scaled(n: Num)
    requires LegalNum(n)
    ensures var x := Times(Worth(n.whole + n.fraction), Pow10(PowerValue(n.power) - |n.fraction|));
            NumMeaning(n) == if n.minus then -x else x
  {
    hide Pow10, Ten, Worth, LegalPower, PowerValue;
    var e, f := PowerValue(n.power), |n.fraction|;
    var up, down := if e > 0 then e else 0, f + if e > 0 then 0 else -e;
    PowQuotient(up, down);
    Quotient(Worth(n.whole + n.fraction), Pow10(e - f), Ten(up), Ten(down));
  }

  lemma Quotient(n: nat, p: real, up: nat, down: nat)
    requires down > 0 && p * down as real == up as real
    ensures n as real * p == (n * up) as real / down as real
  {
    var d := down as real;
    assert (n * up) as real == n as real * (p * d);
    var x := n as real * p;
    assert x * d == n as real * (p * d);
    assert x == x * d / d;
  }

  // ----- Sections 2 to 5: values and structure -----

  /** A text with its white space: an empty array or object holds a blank, and there may be
      blanks around every element, name and value. */
  datatype Doc =
    | NullDoc
    | TrueDoc
    | FalseDoc
    | NumberDoc(num: Num)
    | StringDoc(units: seq<Unit>)
    | ArrayDoc(blank: bytes, elements: seq<Element>)
    | ObjectDoc(blank: bytes, fields: seq<Field>)

  datatype Element = Element(before: bytes, doc: Doc, after: bytes)

  datatype Field = Field(before: bytes, name: seq<Unit>, colon: bytes, gap: bytes, doc: Doc, after: bytes)

  predicate White(s: bytes) {
    forall i :: 0 <= i < |s| ==> s[i] in {9, 10, 13, 32}
  }

  predicate Legal(d: Doc)
    decreases d, 0
  {
    match d
    case NumberDoc(n) => LegalNum(n)
    case StringDoc(us) => LegalUnits(us)
    case ArrayDoc(blank, es) => White(blank) && LegalElements(es)
    case ObjectDoc(blank, fs) => White(blank) && LegalFields(fs)
    case _ => true
  }

  predicate LegalElements(es: seq<Element>)
    decreases es, 0
  {
    forall e :: e in es ==> White(e.before) && Legal(e.doc) && White(e.after)
  }

  predicate LegalFields(fs: seq<Field>)
    decreases fs, 0
  {
    forall f :: f in fs ==>
      White(f.before) && LegalUnits(f.name) && White(f.colon) && White(f.gap) && Legal(f.doc) && White(f.after)
  }

  /** The literals are null, true and false; the other bytes are [ ] { } , and :. */
  function DocText(d: Doc): bytes
    decreases d, 0
  {
    match d
    case NullDoc => [110, 117, 108, 108]
    case TrueDoc => [116, 114, 117, 101]
    case FalseDoc => [102, 97, 108, 115, 101]
    case NumberDoc(n) => NumText(n)
    case StringDoc(us) => StringText(us)
    case ArrayDoc(blank, es) => [91] + if es == [] then blank + [93] else ElementsText(es)
    case ObjectDoc(blank, fs) => [123] + if fs == [] then blank + [125] else FieldsText(fs)
  }

  function ElementsText(es: seq<Element>): bytes
    requires es != []
    decreases es, 0
  {
    es[0].before + (DocText(es[0].doc) + (es[0].after + if |es| == 1 then [93] else [44] + ElementsText(es[1..])))
  }

  function FieldText(f: Field): bytes
    decreases f, 0
  {
    f.before + (StringText(f.name) + (f.colon + ([58] + (f.gap + (DocText(f.doc) + f.after)))))
  }

  function FieldsText(fs: seq<Field>): bytes
    requires fs != []
    decreases fs, 0
  {
    FieldText(fs[0]) + if |fs| == 1 then [125] else [44] + FieldsText(fs[1..])
  }

  function Meaning(d: Doc): Value
    requires Legal(d)
    decreases d, 0
  {
    match d
    case NullDoc => Null
    case TrueDoc => Bool(true)
    case FalseDoc => Bool(false)
    case NumberDoc(n) => Number(NumMeaning(n))
    case StringDoc(us) => String(UnitsMeaning(us))
    case ArrayDoc(_, es) => Array(ElementsMeaning(es))
    case ObjectDoc(_, fs) => Object(FieldsMeaning(fs))
  }

  function ElementsMeaning(es: seq<Element>): seq<Value>
    requires LegalElements(es)
    decreases es, 0
  {
    if es == [] then [] else [Meaning(es[0].doc)] + ElementsMeaning(es[1..])
  }

  function FieldsMeaning(fs: seq<Field>): seq<Member>
    requires LegalFields(fs)
    decreases fs, 0
  {
    if fs == [] then [] else [Member(UnitsMeaning(fs[0].name), Meaning(fs[0].doc))] + FieldsMeaning(fs[1..])
  }

  // ----- White space -----

  lemma {:induction false} SkipWhite(ws: bytes, s: bytes)
    requires White(ws)
    ensures Skip(ws + s) == Skip(s)
  {
    if ws == [] {
      assert ws + s == s;
    } else {
      assert (ws + s)[1..] == ws[1..] + s;
      SkipWhite(ws[1..], s);
    }
  }

  /** White space before something else is stepped over. */
  lemma SkipTo(ws: bytes, s: bytes)
    requires White(ws) && At(s) > 32
    ensures Skip(ws + s) == s
  {
    SkipWhite(ws, s);
  }

  lemma WhiteEnds(ws: bytes, s: bytes)
    requires White(ws) && Ends(s)
    ensures Ends(ws + s)
  {
    if ws == [] {
      assert ws + s == s;
    } else {
      assert (ws + s)[0] == ws[0];
    }
  }

  lemma SkipTwice(s: bytes)
    ensures Skip(Skip(s)) == Skip(s)
  {
  }

  // ----- Every legal text is read as what it means -----

  lemma DocStart(d: Doc, rest: bytes)
    requires Legal(d)
    ensures At(DocText(d) + rest) > 32 && At(DocText(d) + rest) != 93 && At(DocText(d) + rest) != 125
  {
    hide UnitsText, ElementsText, FieldsText;
    if d.NumberDoc? {
      NumFirst(d.num, rest);
    }
  }

  lemma NumFirst(n: Num, rest: bytes)
    requires LegalNum(n)
    ensures At(NumText(n) + rest) == 45 || IsDigit(At(NumText(n) + rest))
  {
    hide PowerText;
    if !n.minus {
      assert NumText(n)[0] == n.whole[0];
    }
  }

  lemma {:induction false} DocRead(d: Doc, rest: bytes)
    requires Legal(d) && Ends(rest)
    ensures ParseValue(DocText(d) + rest) == Ok(Meaning(d), rest)
    decreases d, 1
  {
    hide ParseValue, ParseElements, ParseMembers, ElementsText, FieldsText, ElementsMeaning, FieldsMeaning;
    match d
    case NumberDoc(n) => NumberRead(n, rest);
    case StringDoc(us) => TextRead(us, rest);
    case ArrayDoc(blank, es) =>
      if es != [] {
        ElementsRead(es, rest);
      }
      ArrayRead(blank, es, rest);
    case ObjectDoc(blank, fs) =>
      if fs != [] {
        FieldsRead(fs, rest);
      }
      ObjectRead(blank, fs, rest);
    case _ => WordRead(d, rest);
  }

  lemma WordRead(d: Doc, rest: bytes)
    requires d.NullDoc? || d.TrueDoc? || d.FalseDoc?
    ensures ParseValue(DocText(d) + rest) == Ok(Meaning(d), rest)
  {
    var s := DocText(d) + rest;
    if d.NullDoc? {
      assert NULL_TEXT <= s && s[4..] == rest;
    } else if d.TrueDoc? {
      assert TRUE_TEXT <= s && s[4..] == rest && s[0] == 116;
      assert !(NULL_TEXT <= s) && !(FALSE_TEXT <= s);
    } else {
      assert FALSE_TEXT <= s && s[5..] == rest && s[0] == 102;
      assert !(NULL_TEXT <= s);
    }
  }

  lemma NumberRead(n: Num, rest: bytes)
    requires LegalNum(n) && Ends(rest)
    ensures ParseValue(NumText(n) + rest) == Ok(Number(NumMeaning(n)), rest)
  {
    hide NumText, ParseNumber, LegalNum, NumMeaning;
    NumFirst(n, rest);
    NumRead(n, rest);
  }

  lemma TextRead(us: seq<Unit>, rest: bytes)
    requires LegalUnits(us)
    ensures ParseValue(StringText(us) + rest) == Ok(String(UnitsMeaning(us)), rest)
  {
    hide StringText, ParseString, UnitsMeaning;
    StringRead(us, rest);
  }

  lemma ArrayRead(blank: bytes, es: seq<Element>, rest: bytes)
    requires White(blank) && LegalElements(es)
    requires es != [] ==> ParseElements(ElementsText(es) + rest) == Ok(ElementsMeaning(es), rest)
    ensures ParseValue(DocText(ArrayDoc(blank, es)) + rest) == Ok(Array(ElementsMeaning(es)), rest)
  {
    hide ParseElements, ParseValue, ElementsText, Skip;
    var s := DocText(ArrayDoc(blank, es)) + rest;
    Bracket(s);
    if es == [] {
      assert s[1..] == blank + ([93] + rest) && ([93] + rest)[1..] == rest;
      SkipTo(blank, [93] + rest);
    } else {
      var t := ElementsText(es) + rest;
      assert s[1..] == t;
      ElementsFirst(es, rest);
      SkipTwice(t);
      SameElements(Skip(t), t);
    }
  }

  lemma Bracket(s: bytes)
    requires At(s) == 91
    ensures var t := Skip(s[1..]);
            && (At(t) == 93 ==> ParseValue(s) == Ok(Array([]), t[1..]))
            && (At(t) != 93 && ParseElements(t).Ok? ==>
                  ParseValue(s) == Ok(Array(ParseElements(t).value), ParseElements(t).rest))
  {
    hide ParseElements, Skip;
    assert s[0] == 91;
  }

  lemma Brace(s: bytes)
    requires At(s) == 123
    ensures var t := Skip(s[1..]);
            && (At(t) == 125 ==> ParseValue(s) == Ok(Object([]), t[1..]))
            && (At(t) != 125 && ParseMembers(t).Ok? ==>
                  ParseValue(s) == Ok(Object(ParseMembers(t).value), ParseMembers(t).rest))
  {
    hide ParseMembers, Skip;
    assert s[0] == 123;
  }

  lemma ElementsFirst(es: seq<Element>, rest: bytes)
    requires es != [] && LegalElements(es)
    ensures At(Skip(ElementsText(es) + rest)) != 93
  {
    hide Skip, DocText;
    var e := es[0];
    var more := (e.after + if |es| == 1 then [93] else [44] + ElementsText(es[1..])) + rest;
    assert ElementsText(es) + rest == e.before + (DocText(e.doc) + more);
    DocStart(e.doc, more);
    SkipTo(e.before, DocText(e.doc) + more);
  }

  lemma SameElements(s: bytes, t: bytes)
    requires Skip(s) == Skip(t)
    ensures ParseElements(s) == ParseElements(t)
  {
    hide ParseValue, Skip;
  }

  lemma {:induction false} ElementsRead(es: seq<Element>, rest: bytes)
    requires es != [] && LegalElements(es)
    ensures ParseElements(ElementsText(es) + rest) == Ok(ElementsMeaning(es), rest)
    decreases es, 1
  {
    hide ParseValue, Skip, DocText, Meaning;
    var e := es[0];
    var tail := (if |es| == 1 then [93] else [44] + ElementsText(es[1..])) + rest;
    var after := e.after + tail;
    assert ElementsText(es) + rest == e.before + (DocText(e.doc) + after);
    DocStart(e.doc, after);
    SkipTo(e.before, DocText(e.doc) + after);
    WhiteEnds(e.after, tail);
    DocRead(e.doc, after);
    SkipTo(e.after, tail);
    if |es| == 1 {
      assert tail[1..] == rest && ElementsMeaning(es[1..]) == [];
      assert [Meaning(e.doc)] + [] == [Meaning(e.doc)];
    } else {
      assert tail[1..] == ElementsText(es[1..]) + rest;
      ElementsRead(es[1..], rest);
    }
  }

  lemma ObjectRead(blank: bytes, fs: seq<Field>, rest: bytes)
    requires White(blank) && LegalFields(fs)
    requires fs != [] ==> ParseMembers(FieldsText(fs) + rest) == Ok(FieldsMeaning(fs), rest)
    ensures ParseValue(DocText(ObjectDoc(blank, fs)) + rest) == Ok(Object(FieldsMeaning(fs)), rest)
  {
    hide ParseMembers, ParseValue, FieldsText, Skip;
    var s := DocText(ObjectDoc(blank, fs)) + rest;
    Brace(s);
    if fs == [] {
      assert s[1..] == blank + ([125] + rest) && ([125] + rest)[1..] == rest;
      SkipTo(blank, [125] + rest);
    } else {
      var t := FieldsText(fs) + rest;
      assert s[1..] == t;
      FieldsFirst(fs, rest);
      SkipTwice(t);
      SameMembers(Skip(t), t);
    }
  }

  lemma FieldsFirst(fs: seq<Field>, rest: bytes)
    requires fs != [] && LegalFields(fs)
    ensures At(Skip(FieldsText(fs) + rest)) == 34
  {
    hide Skip, DocText, StringText, FieldText;
    var tail := (if |fs| == 1 then [125] else [44] + FieldsText(fs[1..])) + rest;
    assert FieldsText(fs) + rest == FieldText(fs[0]) + tail;
    FieldSplit(fs[0], tail);
    var more := fs[0].colon + ([58] + (fs[0].gap + (DocText(fs[0].doc) + (fs[0].after + tail))));
    StringRead(fs[0].name, more);
    SkipTo(fs[0].before, StringText(fs[0].name) + more);
  }

  lemma FieldSplit(f: Field, tail: bytes)
    ensures FieldText(f) + tail ==
            f.before + (StringText(f.name) + (f.colon + ([58] + (f.gap + (DocText(f.doc) + (f.after + tail))))))
  {
    hide StringText, DocText;
  }

  lemma SameMembers(s: bytes, t: bytes)
    requires Skip(s) == Skip(t)
    ensures ParseMembers(s) == ParseMembers(t)
  {
    hide ParseValue, Skip, ParseString;
  }

  lemma FieldRead(f: Field, tail: bytes)
    requires White(f.before) && LegalUnits(f.name) && White(f.colon) && White(f.gap) && Legal(f.doc) && White(f.after)
    requires ParseValue(DocText(f.doc) + (f.after + tail)) == Ok(Meaning(f.doc), f.after + tail)
    ensures ParseMember(FieldText(f) + tail) == Ok(Member(UnitsMeaning(f.name), Meaning(f.doc)), f.after + tail)
  {
    hide ParseValue, ParseString, Skip, DocText, StringText, FieldText, Legal, Meaning, UnitsMeaning;
    FieldSplit(f, tail);
    var value := DocText(f.doc) + (f.after + tail);
    var r := [58] + (f.gap + value);
    StringRead(f.name, f.colon + r);
    SkipTo(f.before, StringText(f.name) + (f.colon + r));
    SkipTo(f.colon, r);
    assert r[1..] == f.gap + value;
    DocStart(f.doc, f.after + tail);
    SkipTo(f.gap, value);
  }

  lemma {:induction false} FieldsRead(fs: seq<Field>, rest: bytes)
    requires fs != [] && LegalFields(fs)
    ensures ParseMembers(FieldsText(fs) + rest) == Ok(FieldsMeaning(fs), rest)
    decreases fs, 1
  {
    hide ParseValue, ParseMember, Skip, DocText, Meaning, FieldText, UnitsMeaning;
    var f := fs[0];
    var tail := (if |fs| == 1 then [125] else [44] + FieldsText(fs[1..])) + rest;
    assert FieldsText(fs) + rest == FieldText(f) + tail;
    WhiteEnds(f.after, tail);
    DocRead(f.doc, f.after + tail);
    FieldRead(f, tail);
    SkipTo(f.after, tail);
    var m := Member(UnitsMeaning(f.name), Meaning(f.doc));
    if |fs| == 1 {
      assert tail[1..] == rest && FieldsMeaning(fs[1..]) == [];
      assert [m] + [] == [m];
    } else {
      assert tail[1..] == FieldsText(fs[1..]) + rest;
      FieldsRead(fs[1..], rest);
    }
  }

  // ----- Texts that are read although they are not JSON -----

  /** An escape of zero, and half a surrogate pair, are left out of the string. */
  lemma Dropped(h: bytes, rest: bytes)
    requires |h| == 4 && Hex4(h)
    ensures Hex4Value(h) == 0 || 0xDC00 <= Hex4Value(h) < 0xE000 ==> OneChar([92, 117] + h + rest) == Ok([], rest)
    ensures 0xD800 <= Hex4Value(h) < 0xDC00 && At(rest) != 92 ==> OneChar([92, 117] + h + rest) == Ok([], rest)
  {
    hide Utf8, Combine, Hex4Value, Hex4;
    var s := [92, 117] + h + rest;
    assert s[2..] == h + rest && s[2..][4..] == rest;
    SameHex(s[2..], h);
  }

  /** A zero in front of other digits is stepped over, two zeros are not, and a minus alone
      is zero. */
  lemma Lenient()
    ensures ParseNumber([48, 53]) == Ok(5.0, []) && ParseNumber([48, 48]) == Ok(0.0, [48])
    ensures ParseNumber([45]) == Ok(0.0, [])
  {
    assert [48, 53][1..] == [53] && [48, 48][1..] == [48] && [45][1..] == [];
    assert DigitRun([53], 0) == (5, []) by {
      assert [53][1..] == [];
    }
  }

  // ----- Texts that are refused -----

  /** A value begins with a quote, a minus, a digit, a bracket, a brace or one of n, t and f. */
  lemma NoValue(s: bytes)
    requires At(s) !in {34, 45, 91, 102, 110, 116, 123} && !(48 <= At(s) <= 57)
    ensures ParseValue(s) == Fail
  {
    assert s != [] ==> s[0] == At(s);
  }

  /** After an element comes a comma or the end of the array. */
  lemma NoComma(d: Doc, ws: bytes, b: byte, rest: bytes)
    requires Legal(d) && White(ws) && ws != [] && b > 32 && b !in {44, 93}
    ensures ParseValue([91] + (DocText(d) + (ws + ([b] + rest)))) == Fail
  {
    hide ParseValue, Skip, DocText, Meaning, Legal;
    var after := ws + ([b] + rest);
    var t := DocText(d) + after;
    assert ([91] + t)[1..] == t && after[0] == ws[0];
    DocStart(d, after);
    DocRead(d, after);
    SkipTo(ws, [b] + rest);
    SkipTo([], t);
    assert [] + t == t;
    assert ParseElements(t) == Fail;
    BracketFails([91] + t);
  }

  lemma BracketFails(s: bytes)
    requires At(s) == 91 && At(Skip(s[1..])) != 93 && ParseElements(Skip(s[1..])) == Fail
    ensures ParseValue(s) == Fail
  {
    hide ParseElements, Skip;
    assert s[0] == 91;
  }

  /** After a name comes a colon. */
  lemma NoColon(us: seq<Unit>, ws: bytes, b: byte, rest: bytes)
    requires LegalUnits(us) && White(ws) && b > 32 && b != 58
    ensures ParseValue([123] + (StringText(us) + (ws + ([b] + rest)))) == Fail
  {
    hide ParseValue, Skip, StringText, ParseString, UnitsMeaning;
    var t := StringText(us) + (ws + ([b] + rest));
    assert ([123] + t)[1..] == t && [] + t == t;
    StringRead(us, ws + ([b] + rest));
    SkipTo(ws, [b] + rest);
    SkipTo([], t);
    assert ParseMember(t) == Fail && ParseMembers(t) == Fail;
    BraceFails([123] + t);
  }

  lemma BraceFails(s: bytes)
    requires At(s) == 123 && At(Skip(s[1..])) != 125 && ParseMembers(Skip(s[1..])) == Fail
    ensures ParseValue(s) == Fail
  {
    hide ParseMembers, Skip;
    assert s[0] == 123;
  }
}
