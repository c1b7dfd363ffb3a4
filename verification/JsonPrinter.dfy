/** Printing a tree of items into buffers sized by a first pass. */
module JsonPrinter {
  import opened Bytes
  import opened Decimal
  import opened JsonText
  import opened JsonItem

  // ----- Strings -----

  lemma EscapeNext(s: bytes, i: nat)
    requires i < |s|
    ensures Escape(s[i..]) == EscapeByte(s[i]) + Escape(s[i + 1..])
  {
    hide EscapeByte;
    assert s[i..][0] == s[i] && s[i..][1..] == s[i + 1..];
  }

  /** `strcpy`: the text and a zero byte. */
  method StrCpy(buf: array<byte>, p: nat, s: bytes) returns (q: nat)
    requires p + |s| < buf.Length
    modifies buf
    ensures q == p + |s| && buf[..q] == old(buf[..p]) + s
  {
    q := Store(buf, p, s);
    buf[q] := NUL;
  }

  /** How many bytes the string needs between its quotes. */
  method EscapedLength(str: bytes) returns (len: nat)
    ensures len == |Escape(str)|
  {
    hide Escape;
    len := 0;
    assert str[0..] == str;
    for i := 0 to |str|
      invariant len + |Escape(str[i..])| == |Escape(str)|
    {
      EscapeNext(str, i);
      var token := str[i];
      len := len + 1;
      if token in {QUOTE, BACKSLASH, 8, 12, LF, CR, TAB} {
        len := len + 1;
      } else if token < 32 {
        len := len + 5;
      }
    }
    NothingToEscape(str[|str|..]);
  }

  method PrintStringPtr(str: Option<bytes>) returns (text: bytes)
    requires str.Some? ==> NUL !in str.value
    ensures text == if str.None? then [] else PrintString(str.value)
  {
    hide Escape, EscapeByte;
    if str.None? {
      return [];
    }
    var s := str.value;
    var len := EscapedLength(s);
    var out := new byte[len + 3];
    out[0] := QUOTE;
    var p := 1;
    assert s[0..] == s;
    for i := 0 to |s|
      invariant 1 <= p && p + |Escape(s[i..])| == 1 + len
      invariant out[..p] + Escape(s[i..]) == [QUOTE] + Escape(s)
    {
      EscapeNext(s, i);
      ghost var before := out[..p];
      p := StoreEscaped(out, p, s[i]);
      assert before + (EscapeByte(s[i]) + Escape(s[i + 1..])) == before + EscapeByte(s[i]) + Escape(s[i + 1..]);
    }
    NothingToEscape(s[|s|..]);
    out[p] := QUOTE;
    out[p + 1] := NUL;
    text := out[..p + 1];
    assert out[..p + 1] == out[..p] + [QUOTE];
  }

  lemma NothingToEscape(s: bytes)
    requires s == []
    ensures Escape(s) == []
  {
  }

  /** One byte of the string; `sprintf` also stores a zero byte after its output. */
  method StoreEscaped(out: array<byte>, p: nat, b: byte) returns (q: nat)
    requires b != NUL && p + |EscapeByte(b)| + 1 < out.Length
    modifies out
    ensures q == p + |EscapeByte(b)| && out[..q] == old(out[..p]) + EscapeByte(b)
  {
    if b > 31 && b != QUOTE && b != BACKSLASH {
      q := Store(out, p, [b]);
    } else if ShortEscape(b).Some? {
      q := Store(out, p, [BACKSLASH, ShortEscape(b).value]);
    } else {
      q := StrCpy(out, p, [BACKSLASH, 117, ZERO, ZERO, HexDigit(b / 16), HexDigit(b % 16)]);
    }
  }

  // ----- Values -----

  method RenderValue(item: Item, depth: nat, fmt: bool, ghost v: Value, ghost r: set<Item>) returns (text: bytes)
    requires Printable(v) && Denotes(item, v, r)
    ensures text == PrintValue(v, depth, fmt)
    decreases v, 0
  {
    match item.kind
    case NULL => text := NULL_TEXT;
    case FALSE => text := FALSE_TEXT;
    case TRUE => text := TRUE_TEXT;
    case NUMBER => text := RenderNumber(item, v.number);
    case STRING => text := PrintStringPtr(item.valuestring);
    case ARRAY => text := RenderArray(item, depth, fmt, v.elements, r);
    case OBJECT => text := RenderObject(item, depth, fmt, v.members, r);
  }

  /** The branch for numbers that fit an `int`. */
  method RenderNumber(item: Item, ghost x: real) returns (text: bytes)
    requires IsInt(x) && item.valuedouble == x && (Converts(x) ==> item.valueint == Trunc(x))
    ensures text == PrintInt(x.Floor)
  {
    text := PrintInt(item.valueint);
  }

  // ----- Arrays -----

  /** What the first pass of array printing reserves for elements. */
  ghost function Room(es: seq<Value>, depth: nat, fmt: bool): nat
    requires forall e :: e in es ==> Printable(e)
  {
    if es == [] then 0
    else |PrintValue(es[0], depth, fmt)| + 2 + (if fmt then 1 else 0) + Room(es[1..], depth, fmt)
  }

  lemma RoomNext(es: seq<Value>, i: nat, depth: nat, fmt: bool)
    requires i < |es| && forall e :: e in es ==> Printable(e)
    ensures Room(es[i..], depth, fmt) ==
            |PrintValue(es[i], depth, fmt)| + 2 + (if fmt then 1 else 0) + Room(es[i + 1..], depth, fmt)
    ensures PrintElements(es[i..], depth, fmt) ==
            PrintValue(es[i], depth, fmt) + ElementEnd(i == |es| - 1, fmt) + PrintElements(es[i + 1..], depth, fmt)
  {
    hide PrintValue;
    assert es[i..][0] == es[i] && es[i..][1..] == es[i + 1..];
  }

  lemma RoomEnd(es: seq<Value>, depth: nat, fmt: bool)
    requires es == []
    ensures Room(es, depth, fmt) == 0 && PrintElements(es, depth, fmt) == []
  {
  }

  method RenderArray(item: Item, depth: nat, fmt: bool, ghost es: seq<Value>, ghost r: set<Item>) returns (text: bytes)
    requires (forall e :: e in es ==> Printable(e)) && Elements(null, item.child, es, r)
    ensures text == [LBRACKET] + PrintElements(es, depth + 1, fmt) + [RBRACKET]
    decreases es, 2
  {
    hide PrintElements, Room;
    var numentries := CountElements(item.child, es, r);
    var entries := new bytes[numentries];
    var len := RenderElements(item.child, entries, depth + 1, fmt, es, r);
    var out := new byte[len];
    text := ComposeArray(entries, out, fmt, es, depth + 1);
  }

  method CountElements(first: Item?, ghost es: seq<Value>, ghost r: set<Item>) returns (n: nat)
    requires Elements(null, first, es, r)
    ensures n == |es|
  {
    hide Denotes;
    n := 0;
    var child := first;
    ghost var before: Item? := null;
    assert es[0..] == es;
    while child != null
      invariant n <= |es| && Elements(before, child, es[n..], r)
      decreases |es| - n
    {
      assert es[n..][1..] == es[n + 1..];
      before := child;
      n := n + 1;
      child := child.next;
    }
  }

  /** The text of each element, and the length to reserve. */
  method RenderElements(first: Item?, entries: array<bytes>, depth: nat, fmt: bool, ghost es: seq<Value>,
      ghost r: set<Item>)
    returns (len: nat)
    requires entries.Length == |es| && (forall e :: e in es ==> Printable(e)) && Elements(null, first, es, r)
    modifies entries
    ensures len == 5 + Room(es, depth, fmt)
    ensures forall j :: 0 <= j < |es| ==> entries[j] == PrintValue(es[j], depth, fmt)
    decreases es, 1
  {
    hide Denotes, PrintValue, Room, Printable;
    len := 5;
    var child, i := first, 0;
    ghost var before: Item? := null;
    assert es[0..] == es;
    while child != null
      invariant 0 <= i <= |es| && Elements(before, child, es[i..], r)
      invariant len + Room(es[i..], depth, fmt) == 5 + Room(es, depth, fmt)
      invariant forall j :: 0 <= j < i ==> entries[j] == PrintValue(es[j], depth, fmt)
      decreases |es| - i
    {
      RoomNext(es, i, depth, fmt);
      assert es[i..][0] == es[i] && es[i..][1..] == es[i + 1..];
      var ret := RenderValue(child, depth, fmt, es[i], r);
      entries[i] := ret;
      i := i + 1;
      len := len + |ret| + 2 + (if fmt then 1 else 0);
      before := child;
      child := child.next;
    }
    RoomEnd(es[i..], depth, fmt);
  }

  /** Every write of the second pass is inside what the first reserved. */
  method ComposeArray(entries: array<bytes>, out: array<byte>, fmt: bool, ghost es: seq<Value>, ghost depth: nat)
    returns (text: bytes)
    requires entries.Length == |es| && (forall e :: e in es ==> Printable(e))
    requires forall j :: 0 <= j < |es| ==> entries[j] == PrintValue(es[j], depth, fmt)
    requires out.Length == 5 + Room(es, depth, fmt)
    modifies out
    ensures text == [LBRACKET] + PrintElements(es, depth, fmt) + [RBRACKET]
  {
    hide PrintValue, Room, Printable, PrintElements, ElementEnd;
    out[0] := LBRACKET;
    var p := 1;
    out[p] := NUL;
    assert es[0..] == es;
    for i := 0 to entries.Length
      invariant 1 <= p && p + Room(es[i..], depth, fmt) + 4 <= out.Length
      invariant out[..p] + PrintElements(es[i..], depth, fmt) == [LBRACKET] + PrintElements(es, depth, fmt)
    {
      RoomNext(es, i, depth, fmt);
      ghost var done, more := out[..p], PrintElements(es[i + 1..], depth, fmt);
      p := StoreElement(out, p, entries[i], i == entries.Length - 1, fmt);
      Reassociate(done, entries[i], ElementEnd(i == |es| - 1, fmt), more, []);
    }
    RoomEnd(es[|es|..], depth, fmt);
    out[p] := RBRACKET;
    out[p + 1] := NUL;
    text := out[..p + 1];
    assert out[..p + 1] == out[..p] + [RBRACKET];
  }

  method StoreElement(out: array<byte>, p: nat, entry: bytes, last: bool, fmt: bool) returns (q: nat)
    requires p + |entry| + 3 < out.Length
    modifies out
    ensures q == p + |entry| + |ElementEnd(last, fmt)| <= p + |entry| + 1 + (if fmt then 1 else 0)
    ensures out[..q] == old(out[..p]) + entry + ElementEnd(last, fmt)
  {
    q := StrCpy(out, p, entry);
    if !last {
      q := Store(out, q, [COMMA]);
      if fmt {
        q := Store(out, q, [SPACE]);
      }
      out[q] := NUL;
    }
  }

  // ----- Objects -----

  /** What the first pass of object printing reserves for members. */
  ghost function MemberRoom(ms: seq<Member>, depth: nat, fmt: bool): nat
    requires forall m :: m in ms ==> Printable(m.value)
  {
    if ms == [] then 0
    else |PrintValue(ms[0].value, depth, fmt)| + |PrintString(ms[0].name)| + 2 + (if fmt then 2 + depth else 0)
         + MemberRoom(ms[1..], depth, fmt)
  }

  lemma MemberRoomNext(ms: seq<Member>, i: nat, depth: nat, fmt: bool)
    requires i < |ms| && forall m :: m in ms ==> Printable(m.value)
    ensures MemberRoom(ms[i..], depth, fmt) ==
            |PrintValue(ms[i].value, depth, fmt)| + |PrintString(ms[i].name)| + 2 + (if fmt then 2 + depth else 0)
            + MemberRoom(ms[i + 1..], depth, fmt)
    ensures PrintMembers(ms[i..], depth, fmt) ==
            If(fmt, Tabs(depth)) + PrintMember(ms[i], depth, fmt) + MemberEnd(i == |ms| - 1, fmt)
            + PrintMembers(ms[i + 1..], depth, fmt)
  {
    hide PrintValue, PrintMember, PrintString;
    assert ms[i..][0] == ms[i] && ms[i..][1..] == ms[i + 1..];
  }

  lemma MemberRoomEnd(ms: seq<Member>, depth: nat, fmt: bool)
    requires ms == []
    ensures MemberRoom(ms, depth, fmt) == 0 && PrintMembers(ms, depth, fmt) == []
  {
  }

  method RenderObject(item: Item, depth0: nat, fmt: bool, ghost ms: seq<Member>, ghost r: set<Item>) returns (text: bytes)
    requires (forall m :: m in ms ==> NUL !in m.name && Printable(m.value)) && Members(null, item.child, ms, r)
    ensures text == PrintValue(Object(ms), depth0, fmt)
    decreases ms, 2
  {
    hide PrintMembers, MemberRoom, Tabs;
    var numentries := CountMembers(item.child, ms, r);
    var entries, names := new bytes[numentries], new bytes[numentries];
    var depth := depth0 + 1;
    var len := RenderMembers(item.child, names, entries, depth, fmt, ms, r);
    var out := new byte[len];
    text := ComposeObject(names, entries, out, depth, fmt, ms);
  }

  method CountMembers(first: Item?, ghost ms: seq<Member>, ghost r: set<Item>) returns (n: nat)
    requires Members(null, first, ms, r)
    ensures n == |ms|
  {
    hide Denotes;
    n := 0;
    var child := first;
    ghost var before: Item? := null;
    assert ms[0..] == ms;
    while child != null
      invariant n <= |ms| && Members(before, child, ms[n..], r)
      decreases |ms| - n
    {
      assert ms[n..][1..] == ms[n + 1..];
      before := child;
      n := n + 1;
      child := child.next;
    }
  }

  /** The texts of names and values, and the length to reserve. */
  method RenderMembers(first: Item?, names: array<bytes>, entries: array<bytes>, depth: nat, fmt: bool,
                       ghost ms: seq<Member>, ghost r: set<Item>)
    returns (len: nat)
    requires names.Length == entries.Length == |ms| && names != entries
    requires (forall m :: m in ms ==> NUL !in m.name && Printable(m.value)) && Members(null, first, ms, r)
    modifies names, entries
    ensures len == 7 + (if fmt then depth else 0) + MemberRoom(ms, depth, fmt)
    ensures Rendered(names[..], entries[..], ms, |ms|, depth, fmt)
    decreases ms, 1
  {
    hide Denotes, PrintValue, MemberRoom, Printable, PrintString, Rendered;
    len := 7;
    if fmt {
      len := len + depth;
    }
    ghost var base := len;
    var child, i := first, 0;
    NothingRendered(names[..], entries[..], ms, depth, fmt);
    ghost var before: Item? := null;
    assert ms[0..] == ms;
    while child != null
      invariant 0 <= i <= |ms| && Members(before, child, ms[i..], r)
      invariant len + MemberRoom(ms[i..], depth, fmt) == base + MemberRoom(ms, depth, fmt)
      invariant Rendered(names[..], entries[..], ms, i, depth, fmt)
      decreases |ms| - i
    {
      MemberRoomNext(ms, i, depth, fmt);
      assert ms[i..][0] == ms[i] && ms[i..][1..] == ms[i + 1..];
      ghost var ns, es := names[..], entries[..];
      var size := RenderMember(child, names, entries, i, depth, fmt, ms[i], r);
      RenderedNext(ns, es, names[..], entries[..], ms, i, depth, fmt);
      i := i + 1;
      len := len + size + 2 + (if fmt then 2 + depth else 0);
      before := child;
      child := child.next;
    }
    MemberRoomEnd(ms[i..], depth, fmt);
  }

  /** The texts of one name and value, and their length. */
  method RenderMember(child: Item, names: array<bytes>, entries: array<bytes>, i: nat, depth: nat, fmt: bool,
                      ghost m: Member, ghost r: set<Item>)
    returns (size: nat)
    requires i < names.Length == entries.Length && names != entries
    requires child.name == Some(m.name) && NUL !in m.name && Printable(m.value) && Denotes(child, m.value, r)
    modifies names, entries
    ensures names[..] == old(names[..])[i := PrintString(m.name)]
    ensures entries[..] == old(entries[..])[i := PrintValue(m.value, depth, fmt)]
    ensures size == |PrintValue(m.value, depth, fmt)| + |PrintString(m.name)|
    decreases m, 1
  {
    hide PrintValue, PrintString, Printable;
    var str := PrintStringPtr(child.name);
    names[i] := str;
    var ret := RenderValue(child, depth, fmt, m.value, r);
    entries[i] := ret;
    size := |ret| + |str|;
  }

  /** The texts of the first i members. */
  ghost predicate Rendered(names: seq<bytes>, entries: seq<bytes>, ms: seq<Member>, i: nat, depth: nat, fmt: bool)
    requires |names| == |entries| == |ms| && i <= |ms| && forall m :: m in ms ==> Printable(m.value)
  {
    forall j :: 0 <= j < i ==> names[j] == PrintString(ms[j].name) && entries[j] == PrintValue(ms[j].value, depth, fmt)
  }

  lemma NothingRendered(names: seq<bytes>, entries: seq<bytes>, ms: seq<Member>, depth: nat, fmt: bool)
    requires |names| == |entries| == |ms| && forall m :: m in ms ==> Printable(m.value)
    ensures Rendered(names, entries, ms, 0, depth, fmt)
  {
  }

  lemma RenderedNext(names: seq<bytes>, entries: seq<bytes>, names': seq<bytes>, entries': seq<bytes>, ms: seq<Member>,
                     i: nat, depth: nat, fmt: bool)
    requires |names| == |entries| == |ms| && i < |ms| && forall m :: m in ms ==> Printable(m.value)
    requires Rendered(names, entries, ms, i, depth, fmt)
    requires names' == names[i := PrintString(ms[i].name)]
    requires entries' == entries[i := PrintValue(ms[i].value, depth, fmt)]
    ensures Rendered(names', entries', ms, i + 1, depth, fmt)
  {
    hide PrintString, PrintValue, Printable;
  }

  method ComposeObject(names: array<bytes>, entries: array<bytes>, out: array<byte>, depth: nat, fmt: bool,
      ghost ms: seq<Member>)
    returns (text: bytes)
    requires names.Length == entries.Length == |ms| && depth > 0
    requires (forall m :: m in ms ==> Printable(m.value)) && Rendered(names[..], entries[..], ms, |ms|, depth, fmt)
    requires out.Length == 7 + (if fmt then depth else 0) + MemberRoom(ms, depth, fmt)
    modifies out
    ensures text == [LBRACE] + If(fmt, [LF]) + PrintMembers(ms, depth, fmt) + If(fmt, Tabs(depth - 1)) + [RBRACE]
  {
    hide PrintValue, MemberRoom, Printable, PrintMembers, PrintMember, MemberEnd, Tabs;
    var p := StoreIf(out, 0, true, [LBRACE]);
    p := StoreIf(out, p, fmt, [LF]);
    out[p] := NUL;
    ghost var start := out[..p];
    assert start == [LBRACE] + If(fmt, [LF]);
    assert ms[0..] == ms;
    for i := 0 to entries.Length
      invariant 0 <= p && p + MemberRoom(ms[i..], depth, fmt) + 6 + (if fmt then depth - 1 else 0) <= out.Length
      invariant out[..p] + PrintMembers(ms[i..], depth, fmt) == start + PrintMembers(ms, depth, fmt)
    {
      MemberRoomNext(ms, i, depth, fmt);
      ghost var done, more := out[..p], PrintMembers(ms[i + 1..], depth, fmt);
      p := StoreMember(out, p, names[i], entries[i], i == entries.Length - 1, depth, fmt, ms[i]);
      Reassociate(done, If(fmt, Tabs(depth)), PrintMember(ms[i], depth, fmt), MemberEnd(i == |ms| - 1, fmt), more);
    }
    MemberRoomEnd(ms[|ms|..], depth, fmt);
    assert out[..p] == start + PrintMembers(ms, depth, fmt);
    p := StoreTabsIf(out, p, fmt, depth - 1);
    p := StoreIf(out, p, true, [RBRACE]);
    out[p] := NUL;
    text := out[..p];
  }

  lemma Reassociate(a: bytes, b: bytes, c: bytes, d: bytes, e: bytes)
    ensures a + (b + c + d) == a + b + c + d && a + (b + c + d + e) == a + b + c + d + e
  {
  }

  method StoreMember(out: array<byte>, p: nat, name: bytes, entry: bytes, last: bool, depth: nat, fmt: bool,
      ghost m: Member)
    returns (q: nat)
    requires Printable(m.value) && name == PrintString(m.name) && entry == PrintValue(m.value, depth, fmt)
    requires p + |name| + |entry| + 2 + (if fmt then 2 + depth else 0) < out.Length
    modifies out
    ensures q <= p + |name| + |entry| + 2 + (if fmt then 2 + depth else 0)
    ensures out[..q] == old(out[..p]) + If(fmt, Tabs(depth)) + PrintMember(m, depth, fmt) + MemberEnd(last, fmt)
  {
    hide PrintValue, PrintString, Tabs;
    MemberText(old(out[..p]), name, entry, last, depth, fmt, m);
    q := StoreTabsIf(out, p, fmt, depth);
    q := StrCpy(out, q, name);
    q := StoreIf(out, q, true, [COLON]);
    q := StoreIf(out, q, fmt, [TAB]);
    q := StrCpy(out, q, entry);
    q := StoreIf(out, q, !last, [COMMA]);
    q := StoreIf(out, q, fmt, [LF]);
    out[q] := NUL;
  }

  lemma MemberText(start: bytes, name: bytes, entry: bytes, last: bool, depth: nat, fmt: bool, m: Member)
    requires Printable(m.value) && name == PrintString(m.name) && entry == PrintValue(m.value, depth, fmt)
    ensures start + If(fmt, Tabs(depth)) + name + [COLON] + If(fmt, [TAB]) + entry + If(!last, [COMMA]) + If(fmt, [LF])
            == start + If(fmt, Tabs(depth)) + PrintMember(m, depth, fmt) + MemberEnd(last, fmt)
  {
    hide PrintValue, PrintString, Tabs;
    assert MemberEnd(last, fmt) == If(!last, [COMMA]) + If(fmt, [LF]);
    Group(start + If(fmt, Tabs(depth)), name, [COLON], If(fmt, [TAB]), entry, If(!last, [COMMA]), If(fmt, [LF]));
  }

  lemma Group(a: bytes, b: bytes, c: bytes, d: bytes, e: bytes, f: bytes, g: bytes)
    ensures a + b + c + d + e + f + g == a + (b + c + d + e) + (f + g)
  {
  }

  method StoreIf(out: array<byte>, p: nat, cond: bool, s: bytes) returns (q: nat)
    requires p + |If(cond, s)| <= out.Length
    modifies out
    ensures q == p + |If(cond, s)| && out[..q] == old(out[..p]) + If(cond, s)
  {
    q := p;
    if cond {
      q := Store(out, p, s);
    }
  }

  method StoreTabsIf(out: array<byte>, p: nat, cond: bool, n: nat) returns (q: nat)
    requires p + |If(cond, Tabs(n))| <= out.Length
    modifies out
    ensures q == p + |If(cond, Tabs(n))| && out[..q] == old(out[..p]) + If(cond, Tabs(n))
  {
    q := p;
    if cond {
      for j := 0 to n
        invariant q == p + j && out[..q] == old(out[..p]) + Tabs(j)
      {
        TabsEnd(j);
        q := Store(out, q, [TAB]);
      }
    }
  }

  lemma {:induction false} TabsEnd(n: nat)
    ensures Tabs(n + 1) == Tabs(n) + [TAB]
  {
    if n > 0 {
      TabsEnd(n - 1);
    }
  }
}
