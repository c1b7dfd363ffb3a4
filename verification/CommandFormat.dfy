/** Commands given as a format with `%s`, `%b` and `%%`: the arguments are the
    space-separated words of the format, with the values substituted afterwards. */
module CommandFormat {
  import opened Bytes
  import opened Decimal
  import opened Command

  /** A value passed for a conversion: a C string (`%s`) or bytes with a length (`%b`). */
  datatype Value = CString(text: bytes) | Binary(text: bytes)

  const LOWER_S: byte := 115
  const LOWER_B: byte := 98

  /** The format uses only these conversions and each finds its value. A `%` that ends
      the format is an ordinary character. */
  predicate Fits(format: bytes, values: seq<Value>)
    decreases |format|
  {
    if format == [] then true
    else if format[0] != PERCENT || |format| == 1 then Fits(format[1..], values)
    else if format[1] == LOWER_S then values != [] && values[0].CString? && Fits(format[2..], values[1..])
    else if format[1] == LOWER_B then values != [] && values[0].Binary? && Fits(format[2..], values[1..])
    else format[1] == PERCENT && Fits(format[2..], values)
  }

  // ----- Split first, substitute afterwards -----

  datatype Token = Gap | Piece(text: bytes)

  function Tokens(format: bytes, values: seq<Value>): seq<Token>
    requires Fits(format, values)
    decreases |format|
  {
    if format == [] then []
    else if format[0] != PERCENT || |format| == 1 then
      [if format[0] == SPACE then Gap else Piece([format[0]])] + Tokens(format[1..], values)
    else if format[1] == PERCENT then [Piece([PERCENT])] + Tokens(format[2..], values)
    else [Piece(values[0].text)] + Tokens(format[2..], values[1..])
  }

  /** The token groups between gaps. */
  function Groups(ts: seq<Token>): (gs: seq<seq<Token>>)
    ensures |gs| >= 1
  {
    if ts == [] then [[]]
    else
      var gs := Groups(ts[1..]);
      if ts[0].Gap? then [[]] + gs else [[ts[0]] + gs[0]] + gs[1..]
  }

  /** The text of a group: its pieces one after the other. */
  function Substitute(g: seq<Token>): bytes {
    if g == [] then [] else (if g[0].Gap? then [] else g[0].text) + Substitute(g[1..])
  }

  /** The groups that hold anything at all, even only empty pieces, substituted. */
  function Words(gs: seq<seq<Token>>): seq<bytes> {
    if gs == [] then [] else (if gs[0] == [] then [] else [Substitute(gs[0])]) + Words(gs[1..])
  }

  function FormatArgs(format: bytes, values: seq<Value>): seq<bytes>
    requires Fits(format, values)
  {
    Words(Groups(Tokens(format, values)))
  }

  // ----- The loop -----

  /** The arguments still to come when an argument has been begun with `cur`. */
  function Resume(touched: bool, cur: bytes, ts: seq<Token>): seq<bytes> {
    var gs := Groups(ts);
    (if touched || gs[0] != [] then [cur + Substitute(gs[0])] else []) + Words(gs[1..])
  }

  lemma ResumeStart(ts: seq<Token>)
    ensures Resume(false, [], ts) == Words(Groups(ts))
  {
    assert [] + Substitute(Groups(ts)[0]) == Substitute(Groups(ts)[0]);
  }

  lemma ResumeGap(touched: bool, cur: bytes, ts: seq<Token>)
    requires ts != [] && ts[0].Gap?
    ensures Resume(touched, cur, ts) == (if touched then [cur] else []) + Resume(false, [], ts[1..])
  {
    assert Groups(ts)[1..] == Groups(ts[1..]);
    ResumeStart(ts[1..]);
    assert cur + [] == cur;
  }

  lemma ResumePiece(touched: bool, cur: bytes, ts: seq<Token>)
    requires ts != [] && ts[0].Piece?
    ensures Resume(touched, cur, ts) == Resume(true, cur + ts[0].text, ts[1..])
  {
    var gs := Groups(ts[1..]);
    assert Groups(ts)[0][1..] == gs[0] && Groups(ts)[1..] == gs[1..];
    assert cur + (ts[0].text + Substitute(gs[0])) == cur + ts[0].text + Substitute(gs[0]);
  }

  /** An ordinary character is one token. */
  lemma TokensCharacter(format: bytes, values: seq<Value>)
    requires Fits(format, values) && format != [] && (format[0] != PERCENT || |format| == 1)
    ensures Fits(format[1..], values)
    ensures Tokens(format, values) ==
            [if format[0] == SPACE then Gap else Piece([format[0]])] + Tokens(format[1..], values)
  {
  }

  /** A conversion is one piece, whatever it stands for. */
  lemma TokensConversion(format: bytes, values: seq<Value>)
    requires Fits(format, values) && |format| >= 2 && format[0] == PERCENT
    ensures if format[1] == PERCENT then
              Fits(format[2..], values) && Tokens(format, values) == [Piece([PERCENT])] + Tokens(format[2..], values)
            else
              values != [] && Fits(format[2..], values[1..]) &&
              Tokens(format, values) == [Piece(values[0].text)] + Tokens(format[2..], values[1..])
  {
  }

  method FormatCommand(format: bytes, values: seq<Value>) returns (cmd: array<byte>, totlen: nat)
    requires Fits(format, values)
    requires |CommandBytes(FormatArgs(format, values))| <= INT_MAX
    ensures fresh(cmd) && cmd.Length == totlen + 1
    ensures cmd[..totlen] == CommandBytes(FormatArgs(format, values)) && cmd[totlen] == NUL
  {
    var argv;
    argv, totlen := CollectArgs(format, values);
    var digits := IntLen(|argv|);
    totlen := totlen + 1 + digits + 2;
    cmd := Build(argv, totlen);
  }

  /** The first loop of the formatter: the arguments and the size of their bulks, as far
      as an `int` can hold it. */
  method CollectArgs(format: bytes, values: seq<Value>) returns (argv: seq<bytes>, totlen: nat)
    requires Fits(format, values)
    ensures argv == FormatArgs(format, values)
    ensures |ArgsBytes(argv)| <= INT_MAX ==> totlen == |ArgsBytes(argv)|
  {
    hide Fits, Tokens, Resume, Words, Groups, ArgsBytes, BulkBytes, Dec;
    var c, j := 0, 0;
    var curarg, touched := [], false;
    argv, totlen := [], 0;
    assert ArgsBytes([]) == [] by { ArgsBytesNone(); }
    ResumeStart(Tokens(format, values));
    assert format[0..] == format && values[0..] == values;
    while c < |format|
      invariant 0 <= c <= |format| && 0 <= j <= |values| && Fits(format[c..], values[j..])
      invariant !touched ==> curarg == []
      invariant argv + Resume(touched, curarg, Tokens(format[c..], values[j..])) == FormatArgs(format, values)
      invariant |ArgsBytes(argv)| <= INT_MAX ==> totlen == |ArgsBytes(argv)|
    {
      ghost var ts := Tokens(format[c..], values[j..]);
      assert format[c..][1..] == format[c + 1..];
      if format[c] != PERCENT || c + 1 == |format| {
        TokensCharacter(format[c..], values[j..]);
        assert ts[1..] == Tokens(format[c + 1..], values[j..]);
        if format[c] == SPACE {
          ResumeGap(touched, curarg, ts);
          if touched {
            ArgsBytesAppend(argv, curarg);
            BulkHolds(curarg);
            argv := argv + [curarg];
            var n := BulkLen(|curarg|);
            assert |curarg| <= INT_MAX ==> n == |BulkBytes(curarg)|;
            totlen := totlen + n;
            curarg := [];
            touched := false;
          } else {
            assert [] + Resume(false, [], ts[1..]) == Resume(false, [], ts[1..]);
          }
        } else {
          ResumePiece(touched, curarg, ts);
          curarg := curarg + [format[c]];
          touched := true;
        }
      } else {
        TokensConversion(format[c..], values[j..]);
        ResumePiece(touched, curarg, ts);
        assert format[c..][2..] == format[c + 2..];
        if format[c + 1] == PERCENT {
          assert ts[1..] == Tokens(format[c + 2..], values[j..]);
          curarg := curarg + [PERCENT];
        } else {
          assert values[j..][1..] == values[j + 1..];
          assert ts[1..] == Tokens(format[c + 2..], values[j + 1..]);
          var arg := values[j].text;
          j := j + 1;
          assert |arg| == 0 ==> curarg + arg == curarg;
          curarg := if |arg| > 0 then curarg + arg else curarg;
        }
        touched := true;
        c := c + 1;
      }
      c := c + 1;
    }
    ResumeEnd(touched, curarg, Tokens(format[c..], values[j..]), format[c..], values[j..]);
    if touched {
      ArgsBytesAppend(argv, curarg);
      BulkHolds(curarg);
      argv := argv + [curarg];
      var n := BulkLen(|curarg|);
      assert |curarg| <= INT_MAX ==> n == |BulkBytes(curarg)|;
      totlen := totlen + n;
    }
  }

  lemma ArgsBytesNone()
    ensures ArgsBytes([]) == []
  {
  }

  lemma ResumeEnd(touched: bool, cur: bytes, ts: seq<Token>, format: bytes, values: seq<Value>)
    requires format == [] && Fits(format, values) && ts == Tokens(format, values)
    ensures Resume(touched, cur, ts) == if touched then [cur] else []
  {
    NothingToResume(touched, cur, ts);
  }

  // ----- Substituted text never splits -----

  ghost predicate SameShape(ts: seq<Token>, us: seq<Token>) {
    |ts| == |us| && forall i :: 0 <= i < |ts| ==> (ts[i].Gap? <==> us[i].Gap?)
  }

  lemma {:induction false} GroupsShape(ts: seq<Token>, us: seq<Token>)
    requires SameShape(ts, us)
    ensures |Groups(ts)| == |Groups(us)|
    ensures forall i :: 0 <= i < |Groups(ts)| ==> |Groups(ts)[i]| == |Groups(us)[i]|
  {
    if ts != [] {
      GroupsShape(ts[1..], us[1..]);
      assert ts[0].Gap? <==> us[0].Gap?;
    }
  }

  lemma {:induction false} WordsShape(gs: seq<seq<Token>>, hs: seq<seq<Token>>)
    requires |gs| == |hs| && forall i :: 0 <= i < |gs| ==> |gs[i]| == |hs[i]|
    ensures |Words(gs)| == |Words(hs)|
  {
    if gs != [] {
      assert |gs[0]| == |hs[0]|;
      WordsShape(gs[1..], hs[1..]);
    }
  }

  lemma {:induction false} TokensShape(format: bytes, v: seq<Value>, w: seq<Value>)
    requires Fits(format, v) && Fits(format, w)
    ensures SameShape(Tokens(format, v), Tokens(format, w))
    decreases |format|
  {
    if format == [] {
    } else if format[0] != PERCENT || |format| == 1 {
      TokensShape(format[1..], v, w);
    } else if format[1] == PERCENT {
      TokensShape(format[2..], v, w);
    } else {
      TokensShape(format[2..], v[1..], w[1..]);
    }
  }

  /** How many arguments a format makes does not depend on the values: spaces in a
      value never split it and an empty value is never dropped. */
  lemma ValuesNeverSplit(format: bytes, v: seq<Value>, w: seq<Value>)
    requires Fits(format, v) && Fits(format, w)
    ensures |FormatArgs(format, v)| == |FormatArgs(format, w)|
  {
    TokensShape(format, v, w);
    GroupsShape(Tokens(format, v), Tokens(format, w));
    WordsShape(Groups(Tokens(format, v)), Groups(Tokens(format, w)));
  }

  // ----- Where no value could split, the order does not matter -----

  /** The text with the values in place. */
  function Text(ts: seq<Token>): bytes {
    if ts == [] then [] else (if ts[0].Gap? then [SPACE] else ts[0].text) + Text(ts[1..])
  }

  /** The non-empty words of a text, where `cur` has been read already. */
  function SpaceWords(s: bytes, cur: bytes): seq<bytes> {
    if s == [] then Word(cur)
    else if s[0] == SPACE then Word(cur) + SpaceWords(s[1..], [])
    else SpaceWords(s[1..], cur + [s[0]])
  }

  function Word(cur: bytes): seq<bytes> {
    if cur == [] then [] else [cur]
  }

  /** Not empty and without spaces. */
  predicate Solid(s: bytes) {
    s != [] && SPACE !in s
  }

  lemma {:induction false} ReadSolid(t: bytes, rest: bytes, cur: bytes)
    requires SPACE !in t
    ensures SpaceWords(t + rest, cur) == SpaceWords(rest, cur + t)
  {
    if t == [] {
      assert [] + rest == rest && cur + [] == cur;
    } else {
      assert (t + rest)[1..] == t[1..] + rest;
      ReadSolid(t[1..], rest, cur + [t[0]]);
      assert cur + [t[0]] + t[1..] == cur + t;
    }
  }

  lemma {:induction false} ResumeIsSplit(cur: bytes, ts: seq<Token>)
    requires forall i :: 0 <= i < |ts| && ts[i].Piece? ==> Solid(ts[i].text)
    ensures Resume(cur != [], cur, ts) == SpaceWords(Text(ts), cur)
    decreases |ts|
  {
    hide Resume;
    if ts == [] {
      NothingToResume(cur != [], cur, ts);
    } else if ts[0].Gap? {
      ResumeGap(cur != [], cur, ts);
      ResumeIsSplit([], ts[1..]);
      assert Text(ts)[1..] == Text(ts[1..]);
    } else {
      ResumePiece(cur != [], cur, ts);
      ResumeIsSplit(cur + ts[0].text, ts[1..]);
      ReadSolid(ts[0].text, Text(ts[1..]), cur);
    }
  }

  lemma NothingToResume(touched: bool, cur: bytes, ts: seq<Token>)
    requires ts == []
    ensures Resume(touched, cur, ts) == if touched then [cur] else []
  {
    assert Groups(ts)[1..] == [] && cur + [] == cur;
  }

  lemma {:induction false} SolidTokens(format: bytes, values: seq<Value>)
    requires Fits(format, values) && forall i :: 0 <= i < |values| ==> Solid(values[i].text)
    ensures forall t :: t in Tokens(format, values) && t.Piece? ==> Solid(t.text)
    decreases |format|
  {
    if format == [] {
    } else if format[0] != PERCENT || |format| == 1 {
      SolidTokens(format[1..], values);
    } else if format[1] == PERCENT {
      SolidTokens(format[2..], values);
    } else {
      SolidTokens(format[2..], values[1..]);
    }
  }

  /** For values that could not split, substituting first and splitting afterwards gives
      the same arguments. */
  lemma SplittingCommutes(format: bytes, values: seq<Value>)
    requires Fits(format, values) && forall i :: 0 <= i < |values| ==> Solid(values[i].text)
    ensures FormatArgs(format, values) == SpaceWords(Text(Tokens(format, values)), [])
  {
    hide Tokens, Fits, Resume, Words, Groups;
    SolidTokens(format, values);
    ResumeStart(Tokens(format, values));
    ResumeIsSplit([], Tokens(format, values));
  }

  // ----- Formats written out -----

  /** What a format is made of besides spaces. */
  datatype Part = Plain(b: byte) | Str(text: bytes) | Bin(text: bytes) | Percent

  datatype Phrase = Phrase(before: nat, parts: seq<Part>)

  predicate Ordinary(parts: seq<Part>) {
    forall i :: 0 <= i < |parts| && parts[i].Plain? ==> parts[i].b != 32 && parts[i].b != 37
  }

  /** `%s`, `%b`, `%%`, or the character itself. */
  function Spelled(p: Part): bytes {
    match p
    case Plain(b) => [b]
    case Str(_) => [37, 115]
    case Bin(_) => [37, 98]
    case Percent => [37, 37]
  }

  function Passed(p: Part): seq<Value> {
    match p
    case Str(t) => [CString(t)]
    case Bin(t) => [Binary(t)]
    case _ => []
  }

  function Meant(p: Part): bytes {
    match p
    case Plain(b) => [b]
    case Percent => [37]
    case Str(t) => t
    case Bin(t) => t
  }

  function AllSpelled(parts: seq<Part>): bytes {
    if parts == [] then [] else Spelled(parts[0]) + AllSpelled(parts[1..])
  }

  function AllPassed(parts: seq<Part>): seq<Value> {
    if parts == [] then [] else Passed(parts[0]) + AllPassed(parts[1..])
  }

  function AllMeant(parts: seq<Part>): bytes {
    if parts == [] then [] else Meant(parts[0]) + AllMeant(parts[1..])
  }

  function Blanks(n: nat): bytes {
    if n == 0 then [] else [32] + Blanks(n - 1)
  }

  /** Phrases with blanks before each and after the last. */
  function Spelling(phrases: seq<Phrase>, after: nat): bytes {
    if phrases == [] then Blanks(after)
    else Blanks(phrases[0].before) + (AllSpelled(phrases[0].parts) + Spelling(phrases[1..], after))
  }

  function Passing(phrases: seq<Phrase>): seq<Value> {
    if phrases == [] then [] else AllPassed(phrases[0].parts) + Passing(phrases[1..])
  }

  function Meaning(phrases: seq<Phrase>): seq<bytes> {
    if phrases == [] then [] else [AllMeant(phrases[0].parts)] + Meaning(phrases[1..])
  }

  lemma {:induction false} PartsRead(parts: seq<Part>, rest: bytes, more: seq<Value>, touched: bool, cur: bytes)
    requires Ordinary(parts) && Fits(rest, more)
    ensures var (format, values) := (AllSpelled(parts) + rest, AllPassed(parts) + more);
            && Fits(format, values)
            && Resume(touched, cur, Tokens(format, values)) ==
               Resume(touched || parts != [], cur + AllMeant(parts), Tokens(rest, more))
    decreases |parts|
  {
    hide Resume, Fits, Tokens, Spelled, Passed, Meant;
    if parts == [] {
      assert [] + rest == rest && AllPassed(parts) + more == more && cur + [] == cur;
    } else {
      var p := parts[0];
      var (format, values) := (AllSpelled(parts[1..]) + rest, AllPassed(parts[1..]) + more);
      PartsRead(parts[1..], rest, more, true, cur + Meant(p));
      PartRead(p, format, values, touched, cur);
      assert AllSpelled(parts) + rest == Spelled(p) + format;
      assert AllPassed(parts) + more == Passed(p) + values;
      Regroup(cur, Meant(p), AllMeant(parts[1..]));
    }
  }

  lemma PartRead(p: Part, rest: bytes, more: seq<Value>, touched: bool, cur: bytes)
    requires Ordinary([p]) && Fits(rest, more)
    ensures var (format, values) := (Spelled(p) + rest, Passed(p) + more);
            && Fits(format, values)
            && Resume(touched, cur, Tokens(format, values)) == Resume(true, cur + Meant(p), Tokens(rest, more))
  {
    hide Resume;
    var (format, values) := (Spelled(p) + rest, Passed(p) + more);
    assert [p][0] == p;
    assert format[|Spelled(p)|..] == rest && values[|Passed(p)|..] == more;
    assert p.Plain? || p.Percent? ==> values == more;
    assert Fits(format, values);
    var ts := Tokens(format, values);
    assert ts == [Piece(Meant(p))] + Tokens(rest, more);
    assert ts[1..] == Tokens(rest, more);
    ResumePiece(touched, cur, ts);
  }

  lemma {:induction false} BlanksRead(n: nat, rest: bytes, more: seq<Value>, touched: bool, cur: bytes)
    requires Fits(rest, more)
    ensures Fits(Blanks(n) + rest, more)
    ensures Resume(touched, cur, Tokens(Blanks(n) + rest, more)) ==
            if n == 0 then Resume(touched, cur, Tokens(rest, more))
            else (if touched then [cur] else []) + Resume(false, [], Tokens(rest, more))
    decreases n
  {
    hide Resume;
    if n == 0 {
      assert [] + rest == rest;
    } else {
      var format := Blanks(n) + rest;
      assert format[1..] == Blanks(n - 1) + rest;
      BlanksRead(n - 1, rest, more, false, []);
      var ts := Tokens(format, more);
      assert ts[1..] == Tokens(format[1..], more);
      ResumeGap(touched, cur, ts);
      assert [] + Resume(false, [], Tokens(rest, more)) == Resume(false, [], Tokens(rest, more));
    }
  }

  /** The arguments are the phrases between blanks, with each conversion standing for its
      value. */
  lemma {:induction false} FormatExact(phrases: seq<Phrase>, after: nat)
    requires forall i :: 0 <= i < |phrases| ==> phrases[i].parts != [] && Ordinary(phrases[i].parts)
    requires forall i :: 0 < i < |phrases| ==> phrases[i].before > 0
    ensures Fits(Spelling(phrases, after), Passing(phrases))
    ensures FormatArgs(Spelling(phrases, after), Passing(phrases)) == Meaning(phrases)
  {
    hide Resume, Tokens, Words, Groups;
    SpellingRead(phrases, after, false, []);
    ResumeStart(Tokens(Spelling(phrases, after), Passing(phrases)));
  }

  lemma {:induction false} SpellingRead(phrases: seq<Phrase>, after: nat, touched: bool, cur: bytes)
    requires forall i :: 0 <= i < |phrases| ==> phrases[i].parts != [] && Ordinary(phrases[i].parts)
    requires forall i :: 0 < i < |phrases| ==> phrases[i].before > 0
    requires if touched then phrases == [] || phrases[0].before > 0 else cur == []
    ensures Fits(Spelling(phrases, after), Passing(phrases))
    ensures Resume(touched, cur, Tokens(Spelling(phrases, after), Passing(phrases))) ==
            (if touched then [cur] else []) + Meaning(phrases)
    decreases |phrases|
  {
    hide Resume, Ordinary, Fits, Tokens;
    if phrases == [] {
      assert Fits([], []) && Tokens([], []) == [] by { NoTokens(); }
      BlanksRead(after, [], [], touched, cur);
      assert Blanks(after) + [] == Blanks(after);
      NothingToResume(touched, cur, []);
      NothingToResume(false, [], []);
    } else {
      var p, rest, more := phrases[0], Spelling(phrases[1..], after), Passing(phrases[1..]);
      SpellingRead(phrases[1..], after, true, AllMeant(p.parts));
      PartsRead(p.parts, rest, more, false, []);
      assert [] + AllMeant(p.parts) == AllMeant(p.parts);
      BlanksRead(p.before, AllSpelled(p.parts) + rest, AllPassed(p.parts) + more, touched, cur);
    }
  }

  lemma NoTokens()
    ensures Fits([], []) && Tokens([], []) == []
  {
  }

  // ----- Finding the arguments again -----

  /** strchr on a buffer that ends in a NUL. */
  function Find(s: bytes, from: nat, b: byte): (r: Option<nat>)
    requires from <= |s|
    ensures r.Some? ==> from <= r.value < |s| && s[r.value] == b
    decreases |s| - from
  {
    if from == |s| || s[from] == NUL then None
    else if s[from] == b then Some(from)
    else Find(s, from + 1, b)
  }

  lemma {:induction false} FindIs(s: bytes, from: nat, b: byte, i: nat)
    requires from <= i < |s| && s[i] == b && b != NUL
    requires forall k :: from <= k < i ==> s[k] != b && s[k] != NUL
    ensures Find(s, from, b) == Some(i)
    decreases i - from
  {
    if from < i { FindIs(s, from + 1, b, i); }
  }

  /** strtol on the digits at s[from..]. */
  function StrToL(s: bytes, from: nat, acc: nat): nat
    requires from <= |s|
    decreases |s| - from
  {
    if from < |s| && IsDigit(s[from]) then StrToL(s, from + 1, acc * 10 + (s[from] - ZERO)) else acc
  }

  lemma {:induction false} StrToLDec(pre: bytes, n: nat, post: bytes)
    requires post == [] || !IsDigit(post[0])
    ensures StrToL(pre + Dec(n) + post, |pre|, 0) == n
  {
    StrToLDigits(pre, n, [], post);
    assert pre + Dec(n) + ([] + post) == pre + Dec(n) + post;
    assert StrToL(pre + Dec(n) + post, |pre| + |Dec(n)|, n) == n;
  }

  lemma {:induction false} StrToLDigits(pre: bytes, n: nat, more: bytes, post: bytes)
    ensures var s := pre + Dec(n) + (more + post);
            StrToL(s, |pre|, 0) == StrToL(s, |pre| + |Dec(n)|, n)
  {
    var s := pre + Dec(n) + (more + post);
    DecDigits(n);
    assert s[|pre| + |Dec(n)| - 1] == Dec(n)[|Dec(n)| - 1] == ZERO + n % 10;
    if n >= 10 {
      var last := [ZERO + n % 10];
      assert s == pre + Dec(n / 10) + ((last + more) + post);
      StrToLDigits(pre, n / 10, last + more, post);
    }
  }

  /** The argument at or after `start` and where the next one may begin. */
  datatype Found = Found(arg: bytes, next: nat)

  function NextArgument(s: bytes, start: nat): (r: Option<Found>)
    requires start <= |s|
    ensures r.Some? ==> start < r.value.next <= |s|
  {
    var p := if start < |s| && s[start] == DOLLAR then Some(start) else Find(s, start, DOLLAR);
    if p.None? then None
    else
      var len := Wrap32(StrToL(s, p.value + 1, 0));
      var q := Find(s, p.value, CR);
      if q.None? || len < 0 || q.value + 2 + len + 2 > |s| then None
      else Some(Found(s[q.value + 2..q.value + 2 + len], q.value + 2 + len + 2))
  }

  function Arguments(s: bytes, start: nat): seq<bytes>
    requires start <= |s|
    decreases |s| - start
  {
    match NextArgument(s, start)
    case None => []
    case Some(f) => [f.arg] + Arguments(s, f.next)
  }

  lemma NextArgumentBulk(pre: bytes, arg: bytes, post: bytes)
    requires |arg| <= INT_MAX
    ensures NextArgument(pre + BulkBytes(arg) + post, |pre|) == Some(Found(arg, |pre| + |BulkBytes(arg)|))
  {
    hide Dec, StrToL, Find;
    var s := pre + BulkBytes(arg) + post;
    var n := Dec(|arg|);
    DecDigits(|arg|);
    assert s == (pre + [DOLLAR]) + n + (CRLF + arg + CRLF + post);
    StrToLDec(pre + [DOLLAR], |arg|, CRLF + arg + CRLF + post);
    var q := |pre| + 1 + |n|;
    assert s[q] == CR;
    assert forall k :: |pre| + 1 <= k < q ==> s[k] == n[k - |pre| - 1];
    FindIs(s, |pre|, CR, q);
    assert s[q + 2..q + 2 + |arg|] == arg;
  }

  lemma {:induction false} ArgumentsFrom(pre: bytes, args: seq<bytes>)
    requires forall j :: 0 <= j < |args| ==> |args[j]| <= INT_MAX
    ensures Arguments(pre + ArgsBytes(args), |pre|) == args
    decreases |args|
  {
    hide BulkBytes, NextArgument;
    var s := pre + ArgsBytes(args);
    if args == [] {
      assert NextArgument(s, |pre|) == None by { NextArgumentNone(s, |pre|); }
    } else {
      var b, rest := BulkBytes(args[0]), ArgsBytes(args[1..]);
      assert s == pre + b + rest;
      NextArgumentBulk(pre, args[0], rest);
      ArgumentsFrom(pre + b, args[1..]);
    }
  }

  /** The scan starts at the count line, which holds no `$`. */
  lemma NextArgumentSkip(s: bytes, start: nat, p: nat)
    requires start < p < |s| && s[p] == DOLLAR
    requires forall k :: start <= k < p ==> s[k] != DOLLAR && s[k] != NUL
    ensures NextArgument(s, start) == NextArgument(s, p)
  {
    FindIs(s, start, DOLLAR, p);
  }

  lemma NextArgumentNone(s: bytes, start: nat)
    requires start <= |s| && forall k :: start <= k < |s| ==> s[k] != DOLLAR
    ensures NextArgument(s, start) == None
  {
    FindNone(s, start, DOLLAR);
  }

  /** Scanning a formatted command from its start recovers the argument vector. */
  lemma ArgumentsOfCommand(args: seq<bytes>)
    requires forall j :: 0 <= j < |args| ==> |args[j]| <= INT_MAX
    ensures Arguments(CommandBytes(args), 0) == args
  {
    hide NextArgument;
    var h := Header(|args|);
    var s := CommandBytes(args);
    DecDigits(|args|);
    assert forall k :: 0 <= k < |h| ==> s[k] == h[k] && h[k] != DOLLAR && h[k] != NUL;
    ArgumentsFrom(h, args);
    if args == [] {
      NextArgumentNone(s, 0);
    } else {
      assert s[|h|] == DOLLAR;
      NextArgumentSkip(s, 0, |h|);
    }
  }

  lemma {:induction false} FindNone(s: bytes, from: nat, b: byte)
    requires from <= |s| && forall k :: from <= k < |s| ==> s[k] != b
    ensures Find(s, from, b) == None
    decreases |s| - from
  {
    if from < |s| { FindNone(s, from + 1, b); }
  }
}
