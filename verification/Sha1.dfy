/** The streaming hash of packages/sha1: registers are renamed instead of moved, the
    schedule lives in 16 words used in a circle, and two round functions are rewritten. */
module Sha1 {
  import Buffers = Bytes
  import opened HashCommon
  import opened Sha1Spec

  // ----- The rewritten round functions -----

  function FastCh(b: Word, c: Word, d: Word): Word { ((c ^ d) & b) ^ d }
  function FastMaj(b: Word, c: Word, d: Word): Word { (b & c) + (d & (b ^ c)) }

  lemma ChBits(b: Word, c: Word, d: Word)
    ensures ((c ^ d) & b) ^ d == (b & c) ^ (!b & d)
  {
  }

  /** The two summands have no bit in common, so the sum is their union. */
  lemma MajBits(b: Word, c: Word, d: Word)
    ensures (b & c) + (d & (b ^ c)) == (b & c) ^ (b & d) ^ (c & d)
  {
  }

  lemma FastChIs(b: Word, c: Word, d: Word)
    ensures FastCh(b, c, d) == Ch(b, c, d)
  {
    ChBits(b, c, d);
  }

  lemma FastMajIs(b: Word, c: Word, d: Word)
    ensures FastMaj(b, c, d) == Maj(b, c, d)
  {
    MajBits(b, c, d);
  }

  function FastF(t: nat, b: Word, c: Word, d: Word): (f: Word)
  {
    if t < 20 then FastCh(b, c, d) else if 40 <= t < 60 then FastMaj(b, c, d) else b ^ c ^ d
  }

  lemma FastFIs(t: nat, b: Word, c: Word, d: Word)
    ensures FastF(t, b, c, d) == F(t, b, c, d)
  {
    hide FastCh, FastMaj, Ch, Maj;
    FastChIs(b, c, d);
    FastMajIs(b, c, d);
  }

  /** What a round adds to its last register. */
  function Added(v: seq<Word>, t: nat, w: Word): Word
    requires |v| == 5
  {
    Sum(Sum(Sum(w, Rotl5(v[0])), FastF(t, v[1], v[2], v[3])), K(t))
  }

  lemma AddedIs(v: seq<Word>, t: nat, w: Word)
    requires |v| == 5
    ensures Sum(v[4], Added(v, t, w)) == Temp(v, t, w)
  {
    hide Sum, FastF, F, K, Rotl5;
    FastFIs(t, v[1], v[2], v[3]);
    Reorder(v[4], w, Rotl5(v[0]), FastF(t, v[1], v[2], v[3]), K(t));
  }

  lemma Reorder(e: Word, w: Word, a: Word, f: Word, k: Word)
    ensures Sum(e, Sum(Sum(Sum(w, a), f), k)) == Sum(Sum(Sum(Sum(a, f), e), k), w)
  {
    hide Sum;
    calc {
      Sum(e, Sum(Sum(Sum(w, a), f), k));
      { SumAssoc(w, a, f); SumAssoc(w, Sum(a, f), k); }
      Sum(e, Sum(w, Sum(Sum(a, f), k)));
      { SumComm(w, Sum(Sum(a, f), k)); SumAssoc(e, Sum(Sum(a, f), k), w); }
      Sum(Sum(e, Sum(Sum(a, f), k)), w);
      { SumAssoc(e, Sum(a, f), k); SumComm(e, Sum(a, f)); }
      Sum(Sum(Sum(Sum(a, f), e), k), w);
    }
  }

  lemma SumComm(x: Word, y: Word)
    ensures Sum(x, y) == Sum(y, x)
  {
  }

  lemma SumAssoc(x: Word, y: Word, z: Word)
    ensures Sum(Sum(x, y), z) == Sum(x, Sum(y, z))
  {
    hide Sum;
    SumIs(x, y);
    SumIs(y, z);
    SumBits(x, y, z);
  }

  lemma SumIs(x: Word, y: Word)
    ensures Sum(x, y) == x + y
  {
  }

  lemma SumBits(x: Word, y: Word, z: Word)
    ensures Sum(x + y, z) == Sum(x, y + z)
  {
  }

  // ----- One block -----

  /** The register that plays variable j in round t. */
  function Reg(j: nat, t: nat): (r: nat)
    requires j < 5
    ensures r < 5
  {
    if j >= t % 5 then j - t % 5 else 5 + j - t % 5
  }

  function View(v: seq<Word>, t: nat): (r: seq<Word>)
    requires |v| == 5
    ensures |r| == 5
  {
    [v[Reg(0, t)], v[Reg(1, t)], v[Reg(2, t)], v[Reg(3, t)], v[Reg(4, t)]]
  }

  lemma Next5(t: nat)
    ensures (t + 1) % 5 == if t % 5 == 4 then 0 else t % 5 + 1
  {
  }

  lemma RegShift(t: nat)
    ensures Reg(1, t + 1) == Reg(0, t) && Reg(2, t + 1) == Reg(1, t) && Reg(3, t + 1) == Reg(2, t)
    ensures Reg(4, t + 1) == Reg(3, t) && Reg(0, t + 1) == Reg(4, t)
    ensures forall i :: 0 <= i < 5 ==> (i == 4 || Reg(i, t) != Reg(4, t)) && (i == 1 || Reg(i, t) != Reg(1, t))
  {
    Next5(t);
  }

  /** A round writes two registers; renaming shifts them all. */
  lemma RoundView(v: seq<Word>, t: nat, w: Word)
    requires |v| == 5
    ensures var r := View(v, t);
            View(v[Reg(4, t) := Sum(r[4], Added(r, t, w))][Reg(1, t) := Rotl30(r[1])], t + 1) == Round(r, t, w)
  {
    hide Reg, Sum, Added, Temp, Rotl30;
    RegShift(t);
    AddedIs(View(v, t), t, w);
  }

  /** The last 16 schedule words before t are in the circle. */
  ghost predicate Circle(w: seq<Word>, block: Bytes, t: nat)
    requires |w| == 16 && |block| == 64
  {
    forall j :: 0 <= j < t && t - 16 <= j ==> w[j % 16] == Schedule(block, j)
  }

  lemma CircleNext(w: seq<Word>, block: Bytes, t: nat)
    requires |w| == 16 && |block| == 64 && Circle(w, block, t)
    ensures Circle(w[t % 16 := Schedule(block, t)], block, t + 1)
  {
    hide Schedule;
    forall j | 0 <= j < t && t - 15 <= j ensures j % 16 != t % 16 {
    }
  }

  /** The input word of round t. */
  function Source(w: seq<Word>, block: Bytes, t: nat): Word
    requires |w| == 16 && |block| == 64
  {
    if t < 16 then WordOf(block[4 * t], block[4 * t + 1], block[4 * t + 2], block[4 * t + 3])
    else Rotl1(w[(t + 13) % 16] ^ w[(t + 8) % 16] ^ w[(t + 2) % 16] ^ w[t % 16])
  }

  lemma SourceIs(w: seq<Word>, block: Bytes, t: nat)
    requires |w| == 16 && |block| == 64 && Circle(w, block, t)
    ensures Source(w, block, t) == Schedule(block, t)
  {
    hide Rotl1, WordOf;
    if t >= 16 {
      assert (t + 13) % 16 == (t - 3) % 16 && (t + 8) % 16 == (t - 8) % 16;
      assert (t + 2) % 16 == (t - 14) % 16 && t % 16 == (t - 16) % 16;
    }
  }

  /** Mix one block into the state. */
  method Block(h: array<Word>, data: Bytes)
    requires h.Length == 5 && |data| == 64
    modifies h
    ensures h[..] == Compress(old(h[..]), data)
  {
    hide Reg, View, Sum, Added, Rotl30, Round, Schedule, Circle, Source;
    var v := new Word[5](i requires 0 <= i < 5 reads h => h[i]);
    var w := new Word[16](_ => 0);
    ghost var start := h[..];
    ViewStart(v[..], start);
    CircleStart(w[..], data);
    for t := 0 to 80
      invariant h[..] == start
      invariant View(v[..], t) == Rounds(start, data, t)
      invariant Circle(w[..], data, t)
    {
      ghost var before, circle := v[..], w[..];
      SourceIs(circle, data, t);
      CircleNext(circle, data, t);
      var temp := Source(w[..], data, t);
      w[t % 16] := temp;
      assert w[..] == circle[t % 16 := temp];
      RoundView(before, t, temp);
      var r := View(v[..], t);
      v[Reg(4, t)] := Sum(r[4], Added(r, t, temp));
      v[Reg(1, t)] := Rotl30(r[1]);
      assert v[..] == before[Reg(4, t) := Sum(r[4], Added(r, t, temp))][Reg(1, t) := Rotl30(r[1])];
    }
    ViewEnd(v[..]);
    h[0], h[1], h[2], h[3], h[4] := Sum(h[0], v[0]), Sum(h[1], v[1]), Sum(h[2], v[2]), Sum(h[3], v[3]), Sum(h[4], v[4]);
    assert h[..] == [h[0], h[1], h[2], h[3], h[4]];
  }

  lemma ViewStart(v: seq<Word>, h: seq<Word>)
    requires |v| == |h| == 5 && forall i :: 0 <= i < 5 ==> v[i] == h[i]
    ensures View(v, 0) == h
  {
  }

  lemma ViewEnd(v: seq<Word>)
    requires |v| == 5
    ensures View(v, 80) == v
  {
    assert Reg(0, 80) == 0 && Reg(1, 80) == 1 && Reg(2, 80) == 2 && Reg(3, 80) == 3 && Reg(4, 80) == 4;
  }

  lemma CircleStart(w: seq<Word>, block: Bytes)
    requires |w| == 16 && |block| == 64
    ensures Circle(w, block, 0)
  {
  }

  // ----- Streaming -----

  lemma FoldNext(all: Bytes, p: nat)
    requires p % 64 == 0 && p + 64 <= |all|
    ensures Fold(all[..p + 64]) == Compress(Fold(all[..p]), all[p..p + 64])
  {
    hide Compress;
    var b := all[..p + 64];
    assert b[..|b| - 64] == all[..p] && b[|b| - 64..] == all[p..p + 64];
  }

  const TWO64: nat := 0x1_0000_0000_0000_0000

  class Context {
    /** The byte count, an `unsigned long long`. */
    var size: nat
    const h: array<Word>
    /** The block buffer, as bytes. */
    const w: array<bv8>
    ghost var absorbed: Bytes

    ghost predicate Valid()
      reads this, h, w
    {
      && h.Length == 5 && w.Length == 64
      && size == |absorbed| % TWO64
      && Holds(absorbed, |absorbed| - |absorbed| % 64)
    }

    /** The first p bytes of `all` are in the state, what follows in the buffer. */
    ghost predicate Holds(all: Bytes, p: nat)
      requires h.Length == 5 && w.Length == 64
      reads h, w
    {
      && p % 64 == 0 && p <= |all| <= p + 64
      && h[..] == Fold(all[..p]) && w[..|all| - p] == all[p..]
    }

    constructor ()
      ensures Valid() && absorbed == [] && fresh(h) && fresh(w)
    {
      size := 0;
      h := new Word[5](i requires 0 <= i < 5 => INITIAL[i]);
      w := new bv8[64];
      absorbed := [];
      new;
      assert h[..] == INITIAL;
    }

    method Update(data: Bytes)
      requires Valid()
      modifies this, h, w
      ensures Valid() && absorbed == old(absorbed) + data
    {
      hide Context.Holds;
      var lenW := size % 64;
      assert lenW == |absorbed| % 64;
      SizeNext(|absorbed|, |data|);
      size := (size + |data|) % TWO64;
      Absorb(lenW, data);
      absorbed := absorbed + data;
    }

    /** Complete the buffer if it is in use; with a whole block, go on from the data. */
    method Absorb(lenW: nat, data: Bytes)
      requires h.Length == 5 && w.Length == 64 && lenW == |absorbed| % 64
      requires Holds(absorbed, |absorbed| - lenW)
      modifies h, w
      ensures var all := absorbed + data; Holds(all, |all| - |all| % 64)
    {
      hide Fold;
      ghost var all := absorbed + data;
      ghost var p := |absorbed| - lenW;
      assert all[..p] == absorbed[..p] && absorbed[p..] == all[p..p + lenW];
      if lenW == 0 {
        assert all[p..] == data[0..];
        Rest(data, 0, all, p);
      } else {
        var left := if |data| < 64 - lenW then |data| else 64 - lenW;
        assert all[p..p + lenW + left] == all[p..p + lenW] + data[..left];
        FillBuffer(lenW, data[..left]);
        if (lenW + left) % 64 != 0 {
          assert all[p..p + lenW + left] == all[p..];
          ModUnique(|all|, p);
        } else {
          assert all[p + 64..] == data[left..];
          Flush(all, p);
          Rest(data, left, all, p + 64);
        }
      }
    }

    method FillBuffer(lenW: nat, first: Bytes)
      requires w.Length == 64 && lenW + |first| <= 64
      modifies w
      ensures w[..lenW + |first|] == old(w[..lenW]) + first
    {
      var _ := Buffers.Store(w, lenW, first);
    }

    method Flush(ghost all: Bytes, ghost p: nat)
      requires h.Length == 5 && w.Length == 64 && p % 64 == 0 && p + 64 <= |all|
      requires h[..] == Fold(all[..p]) && w[..64] == all[p..p + 64]
      modifies h
      ensures h[..] == Fold(all[..p + 64])
    {
      hide Fold, Compress;
      assert w[..] == w[..64];
      FoldNext(all, p);
      Block(h, w[..]);
    }

    /** Whole blocks from the data, and the rest into the buffer. */
    method Rest(data: Bytes, off0: nat, ghost all: Bytes, ghost p0: nat)
      requires h.Length == 5 && w.Length == 64 && off0 <= |data| && p0 % 64 == 0 && p0 <= |all|
      requires all[p0..] == data[off0..] && h[..] == Fold(all[..p0])
      modifies h, w
      ensures Holds(all, |all| - |all| % 64)
    {
      hide Fold;
      var off, p := HashBlocks(data, off0, all, p0);
      if off < |data| {
        var _ := Buffers.Store(w, 0, data[off..]);
      }
      ModUnique(|all|, p);
    }

    method HashBlocks(data: Bytes, off0: nat, ghost all: Bytes, ghost p0: nat) returns (off: nat, ghost p: nat)
      requires h.Length == 5 && off0 <= |data| && p0 % 64 == 0 && p0 <= |all|
      requires all[p0..] == data[off0..] && h[..] == Fold(all[..p0])
      modifies h
      ensures off0 <= off <= |data| && |data| - off < 64 && p % 64 == 0 && p <= |all|
      ensures all[p..] == data[off..] && h[..] == Fold(all[..p])
    {
      hide Fold, Compress;
      off, p := off0, p0;
      while |data| - off >= 64
        invariant off0 <= off <= |data| && p <= |all| && p % 64 == 0
        invariant all[p..] == data[off..] && h[..] == Fold(all[..p])
      {
        assert |all[p..]| == |data[off..]|;
        SameSlice(all, p, data, off, 0);
        assert all[p + 64..] == all[p..][64..] == data[off..][64..] == data[off + 64..];
        FoldNext(all, p);
        Block(h, data[off..off + 64]);
        off := off + 64;
        p := p + 64;
      }
    }

    lemma NothingBuffered()
      requires Valid() && |absorbed| % 64 == 0
      ensures h[..] == Fold(absorbed)
    {
      hide Fold;
      assert absorbed[..|absorbed|] == absorbed;
    }

    /** Pad, append the length in bits, and write out the state. */
    method Final() returns (digest: Bytes)
      requires Valid()
      modifies this, h, w
      ensures digest == Digest(old(absorbed))
    {
      hide Fold, Serialize, Pad, Context.Valid;
      AppendPadding();
      NothingBuffered();
      digest := WriteOut();
    }

    method AppendPadding()
      requires Valid()
      modifies this, h, w
      ensures Valid() && h.Length == 5 && absorbed == Pad(old(absorbed))
    {
      hide BigEndian, Zeros, PutInt, PadAs, Context.Holds;
      ghost var msg := absorbed;
      var padlen := PutInt(size / 0x2000_0000) + PutInt(size * 8);
      LengthIs(size, |msg|);
      var i := size % 64;
      PaddingIs(|msg|, i);
      var n := 1 + (55 - i) % 64;
      Update([0x80] + seq(n - 1, _ => 0));
      Update(padlen);
      PadIs(msg, |msg|, n, padlen);
    }

    /** The state as bytes. */
    method WriteOut() returns (digest: Bytes)
      requires h.Length == 5
      ensures digest == Serialize(h[..])
    {
      hide BytesOf;
      digest := [];
      ghost var s := h[..];
      for i := 0 to 5
        invariant digest + Serialize(s[i..]) == Serialize(s)
      {
        assert s[i..][0] == s[i] && s[i..][1..] == s[i + 1..];
        assert digest + (BytesOf(s[i]) + Serialize(s[i + 1..])) == digest + BytesOf(s[i]) + Serialize(s[i + 1..]);
        digest := digest + BytesOf(h[i]);
      }
    }
  }

  /** However the message is split into updates, the result is its one-shot digest. */
  method Hash(chunks: seq<Bytes>) returns (digest: Bytes)
    ensures digest == Digest(Join(chunks))
  {
    hide Digest, Context.Valid;
    var ctx := new Context();
    for i := 0 to |chunks|
      invariant ctx.Valid() && ctx.absorbed == Join(chunks[..i])
      invariant fresh(ctx) && fresh(ctx.h) && fresh(ctx.w)
    {
      assert chunks[..i + 1][..i] == chunks[..i];
      ctx.Update(chunks[i]);
    }
    assert chunks[..|chunks|] == chunks;
    digest := ctx.Final();
  }

  // ----- The counter and the length field -----

  lemma SizeNext(len: nat, n: nat)
    ensures (len % TWO64 + n) % TWO64 == (len + n) % TWO64
  {
    var q := len / TWO64;
    assert len + n == len % TWO64 + n + q * TWO64;
  }

  /** The counter wraps at 2^64, which the length field does not see. */
  lemma LengthIs(size: nat, len: nat)
    requires size == len % TWO64
    ensures PutInt(size / 0x2000_0000) + PutInt(size * 8) == BigEndian(8 * len, 8)
  {
    hide BigEndian, PutInt;
    var q := len / TWO64;
    var bits := 8 * len;
    assert bits == size * 8 + (8 * q * TWO32) * TWO32;
    assert bits / TWO32 == size / 0x2000_0000 + 8 * q * TWO32;
    BigEndianSplit(bits);
    PutIntIs(size / 0x2000_0000);
    PutIntIs(size * 8);
    SameLow(bits, size * 8, 8 * q * TWO32);
    SameLow(bits / TWO32, size / 0x2000_0000, 8 * q);
  }

  lemma PaddingIs(len: nat, i: nat)
    requires i == len % TWO64 % 64
    ensures (55 - i) % 64 == Zeros(len)
  {
    assert i == len % 64;
  }
}
