/** Base64 as packages/base64 encodes and decodes it. */
module Base64 {
  import opened Bytes

  const PAD: byte := 61
  const SKIP: nat := 0x80

  /** The symbol for a 6-bit value, section 4 of RFC 4648. */
  function Symbol(v: nat): byte
    requires v < 64
  {
    if v < 26 then 65 + v else if v < 52 then 71 + v else if v < 62 then v - 4 else if v == 62 then 43 else 47
  }

  /** The decoding table: '=' counts as zero, and 0x80 marks bytes to pass over. */
  function ValueOf(c: byte): nat {
    if 65 <= c < 91 then c - 65
    else if 97 <= c < 123 then c - 71
    else if 48 <= c < 58 then c + 4
    else if c == 43 then 62
    else if c == 47 then 63
    else if c == PAD then 0
    else SKIP
  }

  /** The alphabet is A to Z, a to z, 0 to 9, + and /. */
  lemma SymbolIs(v: nat)
    requires v < 64
    ensures Symbol(v) as char == if v < 26 then 'A' + v as char else if v < 52 then 'a' + (v - 26) as char
                                 else if v < 62 then '0' + (v - 52) as char else if v == 62 then '+' else '/'
  {
  }

  /** Every other byte but = is passed over. */
  lemma SkippedIs(c: byte)
    ensures ValueOf(c) == SKIP <==>
            !('A' <= c as char <= 'Z' || 'a' <= c as char <= 'z' || '0' <= c as char <= '9' || c as char in {'+', '/', '='})
  {
  }

  lemma SymbolBack(v: nat)
    requires v < 64
    ensures ValueOf(Symbol(v)) == v && Symbol(v) != PAD
  {
  }

  // ----- Encoding -----

  function Quad(a: byte, b: byte, c: byte): bytes {
    [Symbol(a / 4), Symbol(a % 4 * 16 + b / 16), Symbol(b % 16 * 4 + c / 64), Symbol(c % 64)]
  }

  function Encode(s: bytes): bytes {
    if |s| >= 3 then Quad(s[0], s[1], s[2]) + Encode(s[3..])
    else Last(s)
  }

  /** The padded block for what is left at the end. */
  function Last(s: bytes): bytes
    requires |s| < 3
  {
    if |s| == 2 then [Symbol(s[0] / 4), Symbol(s[0] % 4 * 16 + s[1] / 16), Symbol(s[1] % 16 * 4), PAD]
    else if |s| == 1 then [Symbol(s[0] / 4), Symbol(s[0] % 4 * 16), PAD, PAD]
    else []
  }

  /** Section 4 of RFC 4648: three bytes are 24 bits, which are four times 6 bits. */
  lemma QuadIs(a: byte, b: byte, c: byte)
    ensures var n := a * 0x1_0000 + b * 0x100 + c;
            Quad(a, b, c) == [Symbol(n / 0x4_0000), Symbol(n / 0x1000 % 64), Symbol(n / 64 % 64), Symbol(n % 64)]
  {
    hide Symbol;
    var n, m, k := a * 0x1_0000 + b * 0x100 + c, a / 4 * 64 + (a % 4 * 16 + b / 16), b % 16 * 4 + c / 64;
    assert m == a * 16 + b / 16;
    assert m * 64 + k == a * 0x400 + b * 4 + c / 64;
    Digit(m * 64 + k, c % 64, n);
    Digit(m, k, m * 64 + k);
    Digit(a / 4, a % 4 * 16 + b / 16, m);
    assert n / 0x1000 == n / 64 / 64 && n / 0x4_0000 == n / 64 / 64 / 64;
  }

  lemma Digit(q: nat, r: nat, n: nat)
    requires n == q * 64 + r && r < 64
    ensures n / 64 == q && n % 64 == r
  {
  }

  /** At the end bytes of zeros are supplied, and a = stands for 6 bits of them. */
  lemma LastIs(s: bytes)
    requires 0 < |s| < 3
    ensures var q := Quad(s[0], if |s| == 2 then s[1] else 0, 0);
            Last(s) == if |s| == 2 then [q[0], q[1], q[2], 61] else [q[0], q[1], 61, 61]
  {
  }

  /** Section 10 of RFC 4648. */
  lemma Examples()
    ensures Encode(Ascii("f")) == Ascii("Zg==")
    ensures Encode(Ascii("fo")) == Ascii("Zm8=")
  {
  }

  lemma LongerExample()
    ensures Encode(Ascii("foo")) == Ascii("Zm9v")
  {
    assert Ascii("foo")[3..] == [];
    assert Encode([]) == [];
  }

  /** What `base64_encode` allocates for n bytes. */
  function Allocated(n: nat): nat {
    var olen := n * 4 / 3 + 4;
    olen + olen / 72 + 1
  }

  lemma {:induction false} EncodedLength(s: bytes)
    ensures |Encode(s)| == (|s| + 2) / 3 * 4
    decreases |s|
  {
    hide Symbol;
    if |s| >= 3 {
      EncodedLength(s[3..]);
      assert (|s| + 2) / 3 == (|s| - 3 + 2) / 3 + 1;
    }
  }

  lemma Sizes(n: nat, k: nat, m: nat)
    requires n == 3 * k + m && m < 3
    ensures (n + 2) / 3 == if m == 0 then k else k + 1
    ensures n * 4 / 3 == 4 * k + (if m == 0 then 0 else m)
  {
  }

  /** The text, a line feed and a zero byte fit; they fill the buffer exactly for short
      inputs of length 1 modulo 3. */
  lemma AllocationSuffices(s: bytes)
    ensures |Encode(s)| + 2 <= Allocated(|s|)
    ensures |Encode(s)| + 2 == Allocated(|s|) <==> |s| % 3 == 1 && |s| <= 49
  {
    hide Encode;
    EncodedLength(s);
    Sizes(|s|, |s| / 3, |s| % 3);
  }

  /** The line feed is overwritten with a zero byte, which the length still counts. The last
      store of all is inside the buffer exactly for input that is not empty. */
  method EncodeBuffer(src: bytes) returns (out: array<byte>, outLen: nat, inside: bool)
    ensures inside == (src != [])
    ensures outLen == (if inside then |Encode(src)| + 1 else 0) < out.Length
    ensures out[..outLen + 1] == if inside then Encode(src) + [NUL, NUL] else [NUL]
  {
    hide Encode, Quad, Last;
    AllocationSuffices(src);
    var olen := |src| * 4 / 3 + 4;
    olen := olen + olen / 72;
    olen := olen + 1;
    out := new byte[olen];
    var pos, lineLen := EncodeBlocks(src, out);
    if lineLen != 0 {
      out[pos] := LF;
      pos := pos + 1;
    }
    out[pos] := NUL;
    outLen := pos;
    inside := outLen > 0;
    if inside {
      out[outLen - 1] := NUL;
    }
  }

  /** All blocks, the padded one at the end included. */
  method EncodeBlocks(src: bytes, out: array<byte>) returns (pos: nat, lineLen: nat)
    requires |Encode(src)| <= out.Length
    modifies out
    ensures pos == lineLen == |Encode(src)| && out[..pos] == Encode(src)
    ensures src != [] <==> pos > 0
  {
    hide Encode, Quad, Last;
    var i := 0;
    pos, lineLen := 0, 0;
    assert src[0..] == src;
    while |src| - i >= 3
      invariant 0 <= i <= |src| && (i > 0 ==> pos > 0) && lineLen == pos
      invariant pos + |Encode(src[i..])| == |Encode(src)|
      invariant out[..pos] + Encode(src[i..]) == Encode(src)
    {
      EncodeNext(src, i);
      ghost var done := out[..pos];
      StoreQuad(out, pos, src[i], src[i + 1], src[i + 2]);
      Regroup(done, Quad(src[i], src[i + 1], src[i + 2]), Encode(src[i + 3..]));
      pos := pos + 4;
      i := i + 3;
      lineLen := lineLen + 4;
    }
    EncodeEnd(src[i..]);
    if |src| - i > 0 {
      StoreLast(out, pos, src[i..]);
      pos := pos + 4;
      lineLen := lineLen + 4;
    }
  }

  method StoreQuad(out: array<byte>, pos: nat, a: byte, b: byte, c: byte)
    requires pos + 4 <= out.Length
    modifies out
    ensures out[..pos + 4] == old(out[..pos]) + Quad(a, b, c)
  {
    hide Symbol;
    out[pos] := Symbol(a / 4);
    out[pos + 1] := Symbol(a % 4 * 16 + b / 16);
    out[pos + 2] := Symbol(b % 16 * 4 + c / 64);
    out[pos + 3] := Symbol(c % 64);
  }

  lemma EncodeNext(s: bytes, i: nat)
    requires i + 3 <= |s|
    ensures Encode(s[i..]) == Quad(s[i], s[i + 1], s[i + 2]) + Encode(s[i + 3..])
    ensures |Quad(s[i], s[i + 1], s[i + 2])| == 4
  {
    assert s[i..][3..] == s[i + 3..];
  }

  lemma EncodeEnd(s: bytes)
    requires |s| < 3
    ensures Encode(s) == Last(s) && |Last(s)| == if s == [] then 0 else 4
  {
    hide Symbol;
  }

  method StoreLast(out: array<byte>, pos: nat, left: bytes)
    requires 0 < |left| < 3 && pos + 4 <= out.Length
    modifies out
    ensures out[..pos + 4] == old(out[..pos]) + Last(left)
  {
    hide Symbol;
    out[pos] := Symbol(left[0] / 4);
    if |left| == 1 {
      out[pos + 1] := Symbol(left[0] % 4 * 16);
      out[pos + 2] := PAD;
    } else {
      out[pos + 1] := Symbol(left[0] % 4 * 16 + left[1] / 16);
      out[pos + 2] := Symbol(left[1] % 16 * 4);
    }
    out[pos + 3] := PAD;
  }

  // ----- Decoding -----

  /** The bytes that count. */
  function Kept(s: bytes): bytes {
    if s == [] then []
    else Kept(s[..|s| - 1]) + if ValueOf(s[|s| - 1]) == SKIP then [] else [s[|s| - 1]]
  }

  /** Three bytes from four 6-bit values. */
  function Triple(a: byte, b: byte, c: byte, d: byte): bytes
    requires ValueOf(a) != SKIP && ValueOf(b) != SKIP && ValueOf(c) != SKIP && ValueOf(d) != SKIP
  {
    [ValueOf(a) * 4 + ValueOf(b) / 16, ValueOf(b) % 16 * 16 + ValueOf(c) / 4, ValueOf(c) % 4 * 64 + ValueOf(d)]
  }

  predicate AllKept(f: bytes) {
    forall i :: 0 <= i < |f| ==> ValueOf(f[i]) != SKIP
  }

  /** The whole blocks of f decoded. */
  function Blocks(f: bytes): (r: bytes)
    requires AllKept(f)
    ensures |r| == |f| / 4 * 3
  {
    if |f| < 4 then [] else Triple(f[0], f[1], f[2], f[3]) + Blocks(f[4..])
  }

  /** Padding in the last block takes bytes off the end. */
  function Trim(f: bytes, r: bytes): bytes
    requires |f| % 4 == 0 && |r| == |f| / 4 * 3
  {
    if f == [] then r
    else if f[|f| - 2] == PAD then r[..|r| - 2]
    else if f[|f| - 1] == PAD then r[..|r| - 1]
    else r
  }

  function Decode(s: bytes): Option<bytes> {
    KeptAll(s);
    var f := Kept(s);
    if |f| % 4 != 0 then None else Some(Trim(f, Blocks(f)))
  }

  lemma {:induction false} KeptAll(s: bytes)
    ensures AllKept(Kept(s))
  {
    if s != [] {
      KeptAll(s[..|s| - 1]);
    }
  }

  /** A byte that does not count changes nothing, wherever it stands. */
  lemma {:induction false} JunkIgnored(a: bytes, junk: byte, b: bytes)
    requires ValueOf(junk) == SKIP
    ensures Decode(a + [junk] + b) == Decode(a + b)
  {
    KeptJunk(a, junk, b);
  }

  lemma {:induction false} KeptJunk(a: bytes, junk: byte, b: bytes)
    requires ValueOf(junk) == SKIP
    ensures Kept(a + [junk] + b) == Kept(a + b)
    decreases |b|
  {
    hide ValueOf;
    if b == [] {
      assert (a + [junk] + b)[..|a|] == a && a + b == a;
    } else {
      var init := b[..|b| - 1];
      KeptJunk(a, junk, init);
      assert (a + [junk] + b)[..|a| + |b|] == a + [junk] + init && (a + b)[..|a| + |init|] == a + init;
    }
  }

  // ----- Decoding undoes encoding -----

  lemma TripleOfQuad(a: byte, b: byte, c: byte)
    ensures AllKept(Quad(a, b, c))
    ensures var q := Quad(a, b, c); Triple(q[0], q[1], q[2], q[3]) == [a, b, c]
    ensures Quad(a, b, c)[2] != PAD && Quad(a, b, c)[3] != PAD
  {
    hide Symbol, ValueOf;
    var v0, v1, v2, v3 := a / 4, a % 4 * 16 + b / 16, b % 16 * 4 + c / 64, c % 64;
    SymbolBack(v0);
    SymbolBack(v1);
    SymbolBack(v2);
    SymbolBack(v3);
    Sextets(a, b, c);
  }

  /** Six bits from each of four values are three bytes again. */
  lemma Sextets(a: byte, b: byte, c: byte)
    ensures var (v0, v1, v2, v3) := (a / 4, a % 4 * 16 + b / 16, b % 16 * 4 + c / 64, c % 64);
            v0 * 4 + v1 / 16 == a && v1 % 16 * 16 + v2 / 4 == b && v2 % 4 * 64 + v3 == c
  {
    assert (a % 4 * 16 + b / 16) / 16 == a % 4 && (a % 4 * 16 + b / 16) % 16 == b / 16;
    assert (b % 16 * 4 + c / 64) / 4 == b % 16 && (b % 16 * 4 + c / 64) % 4 == c / 64;
  }

  lemma LastBack(s: bytes)
    requires 0 < |s| < 3
    ensures var f := Last(s); AllKept(f) && |f| == 4 && Trim(f, Triple(f[0], f[1], f[2], f[3])) == s
  {
    hide Symbol, ValueOf;
    PadValue();
    SymbolBack(s[0] / 4);
    if |s| == 1 {
      SymbolBack(s[0] % 4 * 16);
    } else {
      SymbolBack(s[0] % 4 * 16 + s[1] / 16);
      SymbolBack(s[1] % 16 * 4);
    }
  }

  lemma PadValue()
    ensures ValueOf(PAD) == 0
  {
  }

  lemma {:induction false} BlocksBack(s: bytes)
    ensures var f := Encode(s); AllKept(f) && |f| % 4 == 0 && Trim(f, Blocks(f)) == s
    decreases |s|
  {
    hide Symbol, ValueOf, Triple, Quad, Last, AllKept;
    if |s| >= 3 {
      BlocksBack(s[3..]);
      FirstBlock(s[0], s[1], s[2], Encode(s[3..]), s[3..]);
      assert [s[0], s[1], s[2]] + s[3..] == s;
    } else if s != [] {
      LastBack(s);
      OneBlock(Last(s));
    } else {
      EncodeEnd(s);
      NoBlock(Last(s));
    }
  }

  lemma NoBlock(f: bytes)
    requires f == []
    ensures AllKept(f) && Trim(f, Blocks(f)) == []
  {
  }

  lemma OneBlock(f: bytes)
    requires AllKept(f) && |f| == 4
    ensures Blocks(f) == Triple(f[0], f[1], f[2], f[3])
  {
    hide ValueOf, Triple;
    assert f[4..] == [];
  }

  lemma FirstBlock(a: byte, b: byte, c: byte, g: bytes, rest: bytes)
    requires AllKept(g) && |g| % 4 == 0 && Trim(g, Blocks(g)) == rest
    ensures var f := Quad(a, b, c) + g; AllKept(f) && |f| % 4 == 0 && Trim(f, Blocks(f)) == [a, b, c] + rest
  {
    hide Symbol, ValueOf, Triple;
    var q := Quad(a, b, c);
    var f := q + g;
    TripleOfQuad(a, b, c);
    assert f[4..] == g;
    assert Blocks(f) == [a, b, c] + Blocks(g);
  }

  lemma {:induction false} KeptWhole(f: bytes)
    requires AllKept(f)
    ensures Kept(f) == f
  {
    hide ValueOf;
    if f != [] {
      var g := f[..|f| - 1];
      assert AllKept(g);
      KeptWhole(g);
      assert g + [f[|f| - 1]] == f;
    }
  }

  /** Whatever was encoded is decoded, with the zero byte counted or not. */
  lemma RoundTrip(s: bytes)
    ensures Decode(Encode(s)) == Some(s) && Decode(Encode(s) + [NUL]) == Some(s)
  {
    hide Encode, Blocks, Trim, ValueOf;
    BlocksBack(s);
    var f := Encode(s);
    KeptWhole(f);
    NulSkipped();
    var g := f + [NUL];
    assert g[..|g| - 1] == f && g[|g| - 1] == NUL;
    assert Kept(g) == Kept(f);
  }

  lemma NulSkipped()
    ensures ValueOf(NUL) == SKIP
  {
  }

  // ----- The decoding loops -----

  method BuildTable() returns (dtable: array<nat>)
    ensures fresh(dtable) && dtable.Length == 256 && forall c :: 0 <= c < 256 ==> dtable[c] == ValueOf(c)
  {
    dtable := new nat[256](_ => SKIP);
    for i := 0 to 64
      invariant forall c :: 0 <= c < 256 ==> dtable[c] == if ValueOf(c) < i && c != PAD then ValueOf(c) else SKIP
    {
      SymbolOnly(i);
      dtable[Symbol(i)] := i;
    }
    dtable[PAD] := 0;
  }

  lemma SymbolOnly(i: nat)
    requires i < 64
    ensures forall c: byte :: ValueOf(c) == i && c != PAD <==> c == Symbol(i)
  {
  }

  /** None when the bytes that count do not make whole blocks. */
  method DecodeBuffer(src: bytes) returns (out: Option<bytes>)
    ensures out == Decode(src)
  {
    hide Kept, Blocks, ValueOf;
    var dtable := BuildTable();
    var count := CountKept(src, dtable);
    KeptAll(src);
    if count % 4 != 0 {
      return None;
    }
    var buf := new byte[count];
    var last, pos := FillBlocks(src, dtable, buf);
    ghost var f := Kept(src);
    assert f != [] ==> last[2] == f[|f| - 2] && last[3] == f[|f| - 1] by {
      assert f != [] ==> last[..][2] == f[|f| - 4..][2] && last[..][3] == f[|f| - 4..][3];
    }
    assert forall n :: 0 <= n <= pos ==> buf[..n] == Blocks(f)[..n];
    if pos > 0 {
      if last[2] == PAD {
        pos := pos - 2;
      } else if last[3] == PAD {
        pos := pos - 1;
      }
    }
    out := Some(buf[..pos]);
  }

  method CountKept(src: bytes, dtable: array<nat>) returns (count: nat)
    requires dtable.Length == 256 && forall c :: 0 <= c < 256 ==> dtable[c] == ValueOf(c)
    ensures count == |Kept(src)|
  {
    hide ValueOf;
    count := 0;
    for i := 0 to |src|
      invariant count == |Kept(src[..i])|
    {
      assert src[..i + 1][..i] == src[..i];
      if dtable[src[i]] != SKIP {
        count := count + 1;
      }
    }
    assert src[..|src|] == src;
  }

  lemma {:induction false} BlocksNext(f: bytes, c: byte)
    requires AllKept(f) && ValueOf(c) != SKIP
    ensures AllKept(f + [c])
    ensures Blocks(f + [c]) == Blocks(f) + if |f| % 4 == 3 then Triple(f[|f| - 3], f[|f| - 2], f[|f| - 1], c) else []
    decreases |f|
  {
    hide ValueOf, Triple;
    if |f| >= 4 {
      assert (f + [c])[4..] == f[4..] + [c];
      BlocksNext(f[4..], c);
    }
  }

  lemma {:induction false} KeptPrefix(s: bytes, i: nat)
    requires i <= |s|
    ensures |Kept(s[..i])| <= |Kept(s)|
    decreases |s| - i
  {
    hide ValueOf;
    if i == |s| {
      assert s[..i] == s;
    } else {
      KeptPrefix(s, i + 1);
      assert s[..i + 1][..i] == s[..i];
    }
  }

  lemma KeptNext(s: bytes, i: nat)
    requires i < |s|
    ensures Kept(s[..i + 1]) == Kept(s[..i]) + if ValueOf(s[i]) == SKIP then [] else [s[i]]
    ensures AllKept(Kept(s[..i]))
  {
    hide ValueOf;
    assert s[..i + 1][..i] == s[..i];
    KeptAll(s[..i]);
  }

  /** The block being filled holds what is kept of f since the last whole block, and
      its other places still hold that block. */
  ghost predicate Filled(ins: seq<byte>, block: seq<nat>, f: bytes)
    requires |ins| == |block| == 4
  {
    var count := |f| % 4;
    && (forall k :: 0 <= k < count ==> ins[k] == f[|f| - count + k] && block[k] == ValueOf(f[|f| - count + k]))
    && (forall k :: count <= k < 4 && |f| >= 4 ==> ins[k] == f[|f| - count - 4 + k])
  }

  lemma FilledNext(ins: seq<byte>, block: seq<nat>, f: bytes, c: byte)
    requires |ins| == |block| == 4 && Filled(ins, block, f)
    ensures var k := |f| % 4; Filled(ins[k := c], block[k := ValueOf(c)], f + [c])
  {
    hide ValueOf;
  }

  /** Four values at a time go into the buffer. */
  method FillBlocks(src: bytes, dtable: array<nat>, buf: array<byte>) returns (ins: array<byte>, pos: nat)
    requires dtable.Length == 256 && forall c :: 0 <= c < 256 ==> dtable[c] == ValueOf(c)
    requires |Kept(src)| % 4 == 0 && AllKept(Kept(src)) && buf.Length == |Kept(src)|
    modifies buf
    ensures pos == |Kept(src)| / 4 * 3 && buf[..pos] == Blocks(Kept(src))
    ensures ins.Length == 4 && (Kept(src) != [] ==> ins[..] == Kept(src)[|Kept(src)| - 4..])
  {
    hide ValueOf, Kept, Blocks, Filled, AllKept;
    ins := new byte[4];
    var block := new nat[4];
    var count := 0;
    pos := 0;
    ghost var f: bytes := [];
    NothingKept(src[..0], ins[..], block[..]);
    for i := 0 to |src|
      invariant f == Kept(src[..i]) && AllKept(f) && |f| <= buf.Length
      invariant count == |f| % 4 && pos == |f| / 4 * 3
      invariant buf[..pos] == Blocks(f) && Filled(ins[..], block[..], f)
    {
      KeptNext(src, i);
      var tmp := dtable[src[i]];
      if tmp != SKIP {
        KeptPrefix(src, i + 1);
        FilledNext(ins[..], block[..], f, src[i]);
        BlocksNext(f, src[i]);
        if count == 3 {
          BlockIs(ins[..], block[..], f);
          LastThree(f);
        }
        ghost var ins', block' := ins[..][count := src[i]], block[..][count := tmp];
        ins[count] := src[i];
        block[count] := tmp;
        assert ins[..] == ins' && block[..] == block';
        count := count + 1;
        if count == 4 {
          pos := StoreTriple(buf, pos, block, f[|f| - 3], f[|f| - 2], f[|f| - 1], src[i]);
          count := 0;
        }
        f := f + [src[i]];
      }
    }
    assert src[..|src|] == src;
    LastFilled(ins[..], block[..], f);
  }

  lemma NothingKept(s: bytes, ins: seq<byte>, block: seq<nat>)
    requires s == [] && |ins| == |block| == 4
    ensures Kept(s) == [] && AllKept([]) && Blocks([]) == [] && Filled(ins, block, [])
  {
  }

  lemma BlockIs(ins: seq<byte>, block: seq<nat>, f: bytes)
    requires |ins| == |block| == 4 && Filled(ins, block, f) && |f| % 4 == 3
    ensures block[0] == ValueOf(f[|f| - 3]) && block[1] == ValueOf(f[|f| - 2]) && block[2] == ValueOf(f[|f| - 1])
  {
    hide ValueOf;
  }

  lemma LastThree(f: bytes)
    requires AllKept(f) && |f| >= 3
    ensures ValueOf(f[|f| - 3]) != SKIP && ValueOf(f[|f| - 2]) != SKIP && ValueOf(f[|f| - 1]) != SKIP
  {
    hide ValueOf;
  }

  lemma LastFilled(ins: seq<byte>, block: seq<nat>, f: bytes)
    requires |ins| == |block| == 4 && Filled(ins, block, f) && |f| % 4 == 0
    ensures f != [] ==> ins == f[|f| - 4..]
  {
    hide ValueOf;
  }

  method StoreTriple(buf: array<byte>, pos: nat, block: array<nat>, ghost a: byte, ghost b: byte,
      ghost c: byte, ghost d: byte)
    returns (q: nat)
    requires pos + 3 <= buf.Length && block.Length == 4
    requires ValueOf(a) != SKIP && ValueOf(b) != SKIP && ValueOf(c) != SKIP && ValueOf(d) != SKIP
    requires block[0] == ValueOf(a) && block[1] == ValueOf(b) && block[2] == ValueOf(c) && block[3] == ValueOf(d)
    modifies buf
    ensures q == pos + 3 && buf[..q] == old(buf[..pos]) + Triple(a, b, c, d)
  {
    assert block[0] < 64 && block[1] < 64 && block[2] < 64 && block[3] < 64;
    hide ValueOf;
    buf[pos] := block[0] * 4 + block[1] / 16;
    buf[pos + 1] := block[1] % 16 * 16 + block[2] / 4;
    buf[pos + 2] := block[2] % 4 * 64 + block[3];
    q := pos + 3;
  }
}
