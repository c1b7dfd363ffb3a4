/** Splitting strings, and quoting arguments for a line that is split again. */
module SdsText {
  import opened Bytes

  // ----- sdssplitlen -----

  predicate MatchAt(s: bytes, sep: bytes, j: nat) {
    j + |sep| <= |s| && s[j..j + |sep|] == sep
  }

  /** The leftmost split: tokens from `start` on, looking for the separator from j. */
  function Split(s: bytes, sep: bytes, start: nat, j: nat): seq<bytes>
    requires |sep| > 0 && start <= j <= |s|
    decreases |s| - j
  {
    if j + |sep| > |s| then [s[start..]]
    else if MatchAt(s, sep, j) then [s[start..j]] + Split(s, sep, j + |sep|, j + |sep|)
    else Split(s, sep, start, j + 1)
  }

  function Join(tokens: seq<bytes>, sep: bytes): bytes {
    if tokens == [] then []
    else if |tokens| == 1 then tokens[0]
    else tokens[0] + sep + Join(tokens[1..], sep)
  }

  predicate Contains(s: bytes, sep: bytes) {
    exists j :: 0 <= j <= |s| && MatchAt(s, sep, j)
  }

  /** Tokens and separators make up the input, and no token contains the separator. */
  lemma {:induction false} SplitJoins(s: bytes, sep: bytes, start: nat, j: nat)
    requires |sep| > 0 && start <= j <= |s|
    requires forall k :: start <= k < j ==> !MatchAt(s, sep, k)
    ensures var tokens := Split(s, sep, start, j);
            && |tokens| > 0 && Join(tokens, sep) == s[start..]
            && forall i :: 0 <= i < |tokens| ==> !Contains(tokens[i], sep)
    decreases |s| - j
  {
    if j + |sep| > |s| {
      NoneInside(s, sep, start, |s|);
      assert s[start..|s|] == s[start..];
    } else if MatchAt(s, sep, j) {
      NoneInside(s, sep, start, j);
      SplitJoins(s, sep, j + |sep|, j + |sep|);
      var rest := Split(s, sep, j + |sep|, j + |sep|);
      assert ([s[start..j]] + rest)[1..] == rest;
      assert s[start..] == s[start..j] + s[j..j + |sep|] + s[j + |sep|..];
    } else {
      SplitJoins(s, sep, start, j + 1);
    }
  }

  /** A match inside a slice is a match in the whole. */
  lemma NoneInside(s: bytes, sep: bytes, start: nat, end: nat)
    requires start <= end <= |s|
    requires forall k :: start <= k && k + |sep| <= end ==> !MatchAt(s, sep, k)
    ensures !Contains(s[start..end], sep)
  {
    var t := s[start..end];
    forall j | 0 <= j <= |t| ensures !MatchAt(t, sep, j) {
      if j + |sep| <= |t| {
        SliceSlice(s, start, end, j, j + |sep|);
        assert !MatchAt(s, sep, start + j);
      }
    }
  }

  lemma SliceSlice(s: bytes, a: nat, b: nat, i: nat, j: nat)
    requires a <= b <= |s| && i <= j <= b - a
    ensures s[a..b][i..j] == s[a + i..a + j]
  {
    var t, u := s[a..b][i..j], s[a + i..a + j];
    assert |t| == |u| && forall k :: 0 <= k < |t| ==> t[k] == s[a + i + k] == u[k];
  }

  /** The first token ends at the first match. */
  lemma {:induction false} SplitFirst(s: bytes, sep: bytes, start: nat, j: nat, k: nat)
    requires |sep| > 0 && start <= j <= k <= |s| && MatchAt(s, sep, k)
    requires forall i :: j <= i < k ==> !MatchAt(s, sep, i)
    ensures Split(s, sep, start, j) == [s[start..k]] + Split(s, sep, k + |sep|, k + |sep|)
    decreases k - j
  {
    if j < k {
      SplitFirst(s, sep, start, j + 1, k);
    }
  }

  /** The token vector has a slot for every token it is given. */
  method SplitLen(s: bytes, sep: bytes) returns (tokens: Option<seq<bytes>>)
    ensures tokens.None? <==> sep == []
    ensures sep != [] ==> tokens.value == if s == [] then [] else Split(s, sep, 0, 0)
  {
    var slots := 5;
    if |sep| < 1 {
      return None;
    }
    if |s| == 0 {
      return Some([]);
    }
    var vector: seq<bytes> := [];
    var start, j := 0, 0;
    hide Split, MatchAt;
    while j < |s| - (|sep| - 1)
      invariant 0 <= start <= j <= |s|
      invariant |vector| + 1 <= slots
      invariant Split(s, sep, 0, 0) == vector + Split(s, sep, start, j)
    {
      SplitStep(vector, s, sep, start, j);
      if slots < |vector| + 2 {
        slots := slots * 2;
      }
      if MatchAt(s, sep, j) {
        assert |vector| < slots;
        vector := vector + [s[start..j]];
        start := j + |sep|;
        j := j + |sep| - 1;
      }
      j := j + 1;
    }
    SplitStep(vector, s, sep, start, j);
    assert |vector| < slots;
    vector := vector + [s[start..]];
    tokens := Some(vector);
  }

  lemma SplitStep(done: seq<bytes>, s: bytes, sep: bytes, start: nat, j: nat)
    requires |sep| > 0 && start <= j <= |s|
    ensures var now := done + Split(s, sep, start, j);
            if j + |sep| > |s| then now == done + [s[start..]]
            else if MatchAt(s, sep, j) then now == done + [s[start..j]] + Split(s, sep, j + |sep|, j + |sep|)
            else now == done + Split(s, sep, start, j + 1)
  {
    hide MatchAt;
    if j + |sep| <= |s| {
      Regroup(done, [s[start..j]], Split(s, sep, j + |sep|, j + |sep|));
    }
  }

  // ----- sdscatrepr -----

  const BELL: byte := 7
  const BACKSPACE: byte := 8

  /** `isprint` and `isspace` in the C locale. */
  predicate IsPrint(b: byte) {
    32 <= b < 127
  }

  predicate IsSpace(b: byte) {
    b == SPACE || 9 <= b <= 13
  }

  /** The letter that stands for b after a backslash. */
  function Letter(b: byte): Option<byte> {
    if b == BACKSLASH || b == QUOTE then Some(b)
    else if b == LF then Some(110)
    else if b == CR then Some(114)
    else if b == TAB then Some(116)
    else if b == BELL then Some(97)
    else if b == BACKSPACE then Some(98)
    else None
  }

  function ReprByte(b: byte): bytes {
    match Letter(b)
    case Some(c) => [BACKSLASH, c]
    case None => if IsPrint(b) then [b] else [BACKSLASH, 120, HexDigit(b / 16), HexDigit(b % 16)]
  }

  function ReprBytes(p: bytes): bytes {
    if p == [] then [] else ReprByte(p[0]) + ReprBytes(p[1..])
  }

  function Repr(p: bytes): bytes {
    [QUOTE] + ReprBytes(p) + [QUOTE]
  }

  /** \\ \" \n \r \t \a \b, a printable character as it is, and \x with two digits. */
  lemma ReprIs(b: byte)
    ensures b == 92 || b == 34 ==> ReprByte(b) == [92, b]
    ensures ReprByte(10) == Ascii("\\n") && ReprByte(13) == Ascii("\\r") && ReprByte(9) == Ascii("\\t")
    ensures ReprByte(7) == Ascii("\\a") && ReprByte(8) == Ascii("\\b")
    ensures 32 <= b < 127 && b != 92 && b != 34 ==> ReprByte(b) == [b]
    ensures ReprByte(0) == Ascii("\\x00") && ReprByte(31) == Ascii("\\x1f") && ReprByte(255) == Ascii("\\xff")
  {
  }

  lemma ClassesAre(b: byte)
    ensures Quotable(b) <==> 32 <= b < 127 || b in {7, 8, 9, 10, 13}
    ensures IsSpace(b) <==> b in {9, 10, 11, 12, 13, 32}
  {
  }

  method CatRepr(s0: bytes, p: bytes) returns (s: bytes)
    ensures s == s0 + Repr(p)
  {
    hide ReprByte;
    s := s0 + [QUOTE];
    assert p[0..] == p;
    for i := 0 to |p|
      invariant s + ReprBytes(p[i..]) == s0 + [QUOTE] + ReprBytes(p)
    {
      assert p[i..][0] == p[i] && p[i..][1..] == p[i + 1..];
      assert s + (ReprByte(p[i]) + ReprBytes(p[i + 1..])) == s + ReprByte(p[i]) + ReprBytes(p[i + 1..]);
      s := s + ReprByte(p[i]);
    }
    assert s == s0 + [QUOTE] + ReprBytes(p);
    s := s + [QUOTE];
  }

  // ----- sdssplitargs -----

  function SkipSpace(s: bytes): (r: bytes)
    ensures |r| <= |s|
  {
    if At(s) != NUL && IsSpace(At(s)) then SkipSpace(s[1..]) else s
  }

  /** The byte an escape letter stands for. */
  function Unletter(c: byte): byte {
    if c == 110 then LF else if c == 114 then CR else if c == 116 then TAB
    else if c == 98 then BACKSPACE else if c == 97 then BELL else c
  }

  /** A token after `cur`, inside quotes or not, and what follows it. */
  function Token(s: bytes, quoted: bool, cur: bytes): (r: Option<(bytes, bytes)>)
    ensures r.Some? ==> |r.value.1| <= |s|
    ensures r.Some? && !quoted && At(s) !in {SPACE, LF, CR, TAB, NUL} ==> |r.value.1| < |s|
    decreases |s|
  {
    if quoted then
      if At(s) == BACKSLASH && At(s[1..]) != NUL then Token(s[2..], true, cur + [Unletter(s[1])])
      else if At(s) == QUOTE then
        if At(s[1..]) != NUL && !IsSpace(At(s[1..])) then None else Some((cur, s[1..]))
      else if At(s) == NUL then None
      else Token(s[1..], true, cur + [s[0]])
    else if At(s) in {SPACE, LF, CR, TAB} then Some((cur, s[1..]))
    else if At(s) == NUL then Some((cur, s))
    else if At(s) == QUOTE then Token(s[1..], true, cur)
    else Token(s[1..], false, cur + [s[0]])
  }

  function SplitArgs(line: bytes): Option<seq<bytes>>
    decreases |line|
  {
    var t := SkipSpace(line);
    if At(t) == NUL then Some([])
    else match Token(t, false, [])
      case None => None
      case Some((arg, rest)) =>
        match SplitArgs(rest)
        case None => None
        case Some(args) => Some([arg] + args)
  }

  /** Any line: the arguments and how many. There is no vector for a line without arguments,
      nor for a line with an error, which only the count of -1 tells apart. */
  method SplitLine(line: bytes) returns (vector: Option<seq<bytes>>, argc: int)
    ensures match SplitArgs(line)
      case None => vector == None && argc == -1
      case Some(args) => argc == |args| && vector == if args == [] then None else Some(args)
  {
    hide Token, SkipSpace;
    var p := 0;
    var args: seq<bytes> := [];
    assert line[0..] == line;
    AfterNone(args, SplitArgs(line));
    while true
      invariant 0 <= p <= |line|
      invariant SplitArgs(line) == After(args, SplitArgs(line[p..]))
      decreases |line| - p
    {
      ArgsStep(args, line[p..]);
      var q := SkipBlanks(line, p);
      CharAtIs(line, q);
      if CharAt(line, q) == NUL {
        return if args == [] then None else Some(args), |args|;
      }
      var current;
      current, p := ReadToken(line, q);
      if current.None? {
        return None, -1;
      }
      args := args + [current.value];
    }
  }

  ghost function After(args: seq<bytes>, more: Option<seq<bytes>>): Option<seq<bytes>> {
    if more.Some? then Some(args + more.value) else None
  }

  lemma AfterNone(none: seq<bytes>, more: Option<seq<bytes>>)
    requires none == []
    ensures After(none, more) == more
  {
    if more.Some? {
      assert none + more.value == more.value;
    }
  }

  lemma ArgsStep(args: seq<bytes>, line: bytes)
    ensures var t := SkipSpace(line);
            if At(t) == NUL then After(args, SplitArgs(line)) == Some(args)
            else if Token(t, false, []).None? then SplitArgs(line).None?
            else After(args, SplitArgs(line)) == After(args + [Token(t, false, []).value.0], SplitArgs(Token(t, false, []).value.1))
  {
    hide Token, SkipSpace;
    var t := SkipSpace(line);
    assert args + [] == args;
    if At(t) != NUL && Token(t, false, []).Some? {
      var (arg, rest) := Token(t, false, []).value;
      var more := SplitArgs(rest);
      if more.Some? {
        assert args + ([arg] + more.value) == args + [arg] + more.value;
      }
    }
  }

  method SkipBlanks(line: bytes, p: nat) returns (q: nat)
    requires p <= |line|
    ensures p <= q <= |line| && line[q..] == SkipSpace(line[p..])
    ensures !IsSpace(CharAt(line, q))
  {
    q := p;
    while CharAt(line, q) != NUL && IsSpace(CharAt(line, q))
      invariant p <= q <= |line| && SkipSpace(line[q..]) == SkipSpace(line[p..])
      decreases |line| - q
    {
      CharAtIs(line, q);
      q := q + 1;
    }
    CharAtIs(line, q);
  }

  /** One token from p; None for a quote that is not closed, or is closed before a
      character that is not a space. */
  method ReadToken(line: bytes, p: nat) returns (token: Option<bytes>, q: nat)
    requires p < |line| && line[p] != NUL && !IsSpace(line[p])
    ensures token.None? <==> Token(line[p..], false, []).None?
    ensures token.Some? ==> p < q <= |line| && Token(line[p..], false, []) == Some((token.value, line[q..]))
  {
    var current: bytes := [];
    var inq, done := false, false;
    q := p;
    CharAtIs(line, p);
    while !done
      invariant p <= q <= |line| && (q == p ==> !done && !inq)
      invariant Token(line[p..], false, []) == if done then Some((current, line[q..])) else Token(line[q..], inq, current)
      decreases !done, |line| - q
    {
      CharAtIs(line, q);
      var c := CharAt(line, q);
      if inq {
        if c == BACKSLASH && CharAt(line, q + 1) != NUL {
          CharAtIs(line, q + 1);
          q := q + 1;
          current := current + [Unletter(line[q])];
        } else if c == QUOTE {
          CharAtIs(line, q + 1);
          if CharAt(line, q + 1) != NUL && !IsSpace(CharAt(line, q + 1)) {
            return None, q;
          }
          done := true;
        } else if c == NUL {
          return None, q;
        } else {
          current := current + [c];
        }
      } else {
        if c in {SPACE, LF, CR, TAB, NUL} {
          done := true;
        } else if c == QUOTE {
          inq := true;
        } else {
          current := current + [c];
        }
      }
      if CharAt(line, q) != NUL {
        q := q + 1;
      }
    }
    token := Some(current);
  }

  // ----- Words without quotes -----

  /** What is one argument as it stands. */
  predicate Bare(w: bytes) {
    w != [] && !IsSpace(w[0]) && forall i :: 0 <= i < |w| ==> w[i] !in {0, 9, 10, 13, 32, 34}
  }

  lemma {:induction false} BareToken(w: bytes, rest: bytes, cur: bytes)
    requires forall i :: 0 <= i < |w| ==> w[i] !in {0, 9, 10, 13, 32, 34}
    ensures Token(w + rest, false, cur) == Token(rest, false, cur + w)
    decreases |w|
  {
    if w == [] {
      assert w + rest == rest && cur + w == cur;
    } else {
      assert (w + rest)[1..] == w[1..] + rest;
      BareToken(w[1..], rest, cur + [w[0]]);
      assert cur + [w[0]] + w[1..] == cur + w;
    }
  }

  /** Words with blanks before each and after the last. */
  function Spaced(words: seq<bytes>, gaps: seq<bytes>): bytes
    requires |gaps| == |words| + 1
  {
    gaps[0] + if words == [] then [] else words[0] + Spaced(words[1..], gaps[1..])
  }

  predicate AllSpace(gap: bytes) {
    forall i :: 0 <= i < |gap| ==> gap[i] in {9, 10, 11, 12, 13, 32}
  }

  lemma {:induction false} SkipGap(gap: bytes, s: bytes)
    requires AllSpace(gap)
    ensures SkipSpace(gap + s) == SkipSpace(s)
  {
    if gap == [] {
      assert gap + s == s;
    } else {
      assert (gap + s)[1..] == gap[1..] + s;
      SkipGap(gap[1..], s);
    }
  }

  lemma SameArgs(s: bytes, t: bytes)
    requires SkipSpace(s) == SkipSpace(t)
    ensures SplitArgs(s) == SplitArgs(t)
  {
    hide Token, SkipSpace;
  }

  /** Words between blanks, the first of which is a space, tab, line feed or return, are the
      arguments. */
  lemma {:induction false} WordsSplit(words: seq<bytes>, gaps: seq<bytes>)
    requires |gaps| == |words| + 1 && (forall w :: w in words ==> Bare(w)) && forall g :: g in gaps ==> AllSpace(g)
    requires forall i :: 0 < i < |words| ==> gaps[i] != []
    requires forall i :: 0 < i < |gaps| && gaps[i] != [] ==> gaps[i][0] in {9, 10, 13, 32}
    ensures SplitArgs(Spaced(words, gaps)) == Some(words)
    decreases |words|
  {
    hide Token, SkipSpace;
    assert gaps[0] in gaps;
    if words == [] {
      SkipGap(gaps[0], []);
      SameArgs(gaps[0] + [], []);
      NoArgs();
    } else {
      var w, rest := words[0], Spaced(words[1..], gaps[1..]);
      assert w in words;
      SkipGap(gaps[0], w + rest);
      SameArgs(gaps[0] + (w + rest), w + rest);
      WordFirst(w, rest);
      var g := gaps[1];
      assert g in gaps;
      var more := gaps[1..];
      assert more[0] == g && forall i :: 0 < i < |more| ==> more[i] == gaps[i + 1];
      WordsSplit(words[1..], more);
      if g != [] {
        SkipGap(g[..1], rest[1..]);
        assert g[..1] + rest[1..] == rest;
        SameArgs(rest[1..], rest);
      } else {
        assert words[1..] == [] && rest == [];
      }
      assert [w] + words[1..] == words;
    }
  }

  lemma NoArgs()
    ensures SplitArgs([]) == Some([])
  {
  }

  /** A word is the next argument, and reading goes on behind the blank that ends it. */
  lemma WordFirst(w: bytes, rest: bytes)
    requires Bare(w) && (rest == [] || rest[0] in {9, 10, 13, 32})
    ensures var more := SplitArgs(if rest == [] then [] else rest[1..]);
            SplitArgs(w + rest) == if more.None? then None else Some([w] + more.value)
  {
    hide Token;
    assert (w + rest)[0] == w[0];
    BareToken(w, rest, []);
    assert [] + w == w;
    AfterWord(rest, w);
  }

  lemma AfterWord(rest: bytes, cur: bytes)
    requires rest == [] || rest[0] in {9, 10, 13, 32}
    ensures Token(rest, false, cur) == Some((cur, if rest == [] then [] else rest[1..]))
  {
  }

  // ----- Quotes that are errors -----

  lemma {:induction false} OpenQuote(p: bytes, cur: bytes)
    requires forall i :: 0 <= i < |p| ==> p[i] !in {0, 34, 92}
    ensures Token(p, true, cur) == None
    decreases |p|
  {
    if p != [] {
      OpenQuote(p[1..], cur + [p[0]]);
    }
  }

  /** A quote that is not closed is an error. */
  lemma Unclosed(p: bytes)
    requires forall i :: 0 <= i < |p| ==> p[i] !in {0, 34, 92}
    ensures SplitArgs([34] + p) == None
  {
    hide Token;
    OpenQuote(p, []);
    FirstQuote(p);
  }

  lemma FirstQuote(p: bytes)
    ensures var s := [34] + p; SkipSpace(s) == s && Token(s, false, []) == Token(p, true, [])
  {
    assert ([34] + p)[1..] == p;
  }

  /** So is one that is closed before anything but a space or the end. */
  lemma ClosedBefore(p: bytes, b: byte, rest: bytes)
    requires b != 0 && !IsSpace(b)
    ensures SplitArgs(Repr(p) + ([b] + rest)) == None
  {
    hide ReprBytes, Reread, Token;
    var after := [QUOTE] + ([b] + rest);
    var inside := ReprBytes(p) + after;
    assert Repr(p) + ([b] + rest) == [34] + inside;
    FirstQuote(inside);
    QuotedBytes(p, after, []);
    EndQuote(b, rest, [] + Reread(p));
  }

  lemma EndQuote(b: byte, rest: bytes, cur: bytes)
    requires b != 0 && !IsSpace(b)
    ensures Token([QUOTE] + ([b] + rest), true, cur) == None
  {
    assert ([QUOTE] + ([b] + rest))[1..] == [b] + rest;
  }

  // ----- Quoted arguments come back -----

  /** What survives quoting: printable bytes and the five control characters with a
      letter. */
  predicate Quotable(b: byte) {
    IsPrint(b) || Letter(b).Some?
  }

  /** What splitting makes of a quoted byte: the hexadecimal escape is not undone. */
  function RereadByte(b: byte): bytes {
    if Quotable(b) then [b] else [120, HexDigit(b / 16), HexDigit(b % 16)]
  }

  function Reread(p: bytes): bytes {
    if p == [] then [] else RereadByte(p[0]) + Reread(p[1..])
  }

  /** The arguments quoted, with a space between two. */
  function Line(args: seq<bytes>): bytes {
    if args == [] then []
    else if |args| == 1 then Repr(args[0])
    else Repr(args[0]) + [SPACE] + Line(args[1..])
  }

  lemma QuotedByte(b: byte, rest: bytes, cur: bytes)
    ensures Token(ReprByte(b) + rest, true, cur) == Token(rest, true, cur + RereadByte(b))
  {
    var e := ReprByte(b);
    var s := e + rest;
    assert s[|e|..] == rest;
    if |e| == 4 {
      var t := s[2..];
      assert t[1..][1..] == rest && t[0] == e[2] && t[1..][0] == e[3];
      assert Token(s, true, cur) == Token(t, true, cur + [120]);
      assert Token(t, true, cur + [120]) == Token(t[1..], true, cur + [120] + [e[2]]);
      assert cur + [120] + [e[2]] + [e[3]] == cur + RereadByte(b);
    }
  }

  lemma {:induction false} QuotedBytes(p: bytes, rest: bytes, cur: bytes)
    ensures Token(ReprBytes(p) + rest, true, cur) == Token(rest, true, cur + Reread(p))
  {
    hide Token, ReprByte, RereadByte;
    if p == [] {
      assert [] + rest == rest && cur + [] == cur;
    } else {
      var more := ReprBytes(p[1..]) + rest;
      assert ReprBytes(p) + rest == ReprByte(p[0]) + more;
      QuotedByte(p[0], more, cur);
      QuotedBytes(p[1..], rest, cur + RereadByte(p[0]));
      assert cur + RereadByte(p[0]) + Reread(p[1..]) == cur + Reread(p);
    }
  }

  /** A quoted argument is one token, if a space or the end follows. */
  lemma QuotedArg(p: bytes, rest: bytes)
    requires At(rest) == NUL || IsSpace(At(rest))
    ensures var s := Repr(p) + rest; SkipSpace(s) == s && Token(s, false, []) == Some((Reread(p), rest))
  {
    hide ReprBytes, Reread;
    var s := Repr(p) + rest;
    assert s[1..] == ReprBytes(p) + ([QUOTE] + rest);
    QuotedBytes(p, [QUOTE] + rest, []);
    assert [] + Reread(p) == Reread(p);
    assert ([QUOTE] + rest)[1..] == rest;
  }

  function RereadAll(args: seq<bytes>): seq<bytes> {
    if args == [] then [] else [Reread(args[0])] + RereadAll(args[1..])
  }

  /** Splitting a line of quoted arguments gives one token for each, whatever its bytes. */
  lemma {:induction false} LineSplits(args: seq<bytes>)
    ensures SplitArgs(Line(args)) == Some(RereadAll(args))
  {
    hide Token, Repr, Reread;
    if |args| == 1 {
      var s := Repr(args[0]);
      assert s + [] == s;
      QuotedArg(args[0], []);
      QuoteFirst(args[0], []);
      assert SplitArgs([]) == Some([]);
      assert RereadAll(args[1..]) == [];
    } else if |args| > 1 {
      var rest := [SPACE] + Line(args[1..]);
      assert Line(args) == Repr(args[0]) + rest;
      QuotedArg(args[0], rest);
      QuoteFirst(args[0], rest);
      assert rest[1..] == Line(args[1..]);
      LineSplits(args[1..]);
    }
  }

  lemma QuoteFirst(p: bytes, rest: bytes)
    ensures At(Repr(p) + rest) == QUOTE
  {
  }

  /** An argument comes back as it was exactly when every byte of it is quotable. */
  lemma {:induction false} RereadExact(p: bytes)
    ensures |Reread(p)| >= |p|
    ensures Reread(p) == p <==> forall i :: 0 <= i < |p| ==> Quotable(p[i])
  {
    if p != [] {
      RereadExact(p[1..]);
      assert p == [p[0]] + p[1..];
      if Quotable(p[0]) {
        assert Reread(p)[1..] == Reread(p[1..]);
        assert forall i :: 0 <= i < |p[1..]| ==> p[1..][i] == p[i + 1];
      }
    }
  }

  /** Quoting and splitting are inverse exactly on arguments of quotable bytes. */
  lemma {:induction false} QuoteRoundTrip(args: seq<bytes>)
    ensures SplitArgs(Line(args)) == Some(args) <==>
            forall i, j :: 0 <= i < |args| && 0 <= j < |args[i]| ==> Quotable(args[i][j])
  {
    hide Quotable, SplitArgs, Line, Reread, RereadAll;
    LineSplits(args);
    RereadAllAt(args);
    forall i | 0 <= i < |args|
      ensures Reread(args[i]) == args[i] <==> forall j :: 0 <= j < |args[i]| ==> Quotable(args[i][j])
    {
      RereadExact(args[i]);
    }
    if forall i :: 0 <= i < |args| ==> Reread(args[i]) == args[i] {
      assert RereadAll(args) == args;
    }
  }

  lemma {:induction false} RereadAllAt(args: seq<bytes>)
    ensures |RereadAll(args)| == |args|
    ensures forall i :: 0 <= i < |args| ==> RereadAll(args)[i] == Reread(args[i])
  {
    hide Reread;
    if args != [] {
      RereadAllAt(args[1..]);
    }
  }
}
