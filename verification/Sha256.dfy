/** The streaming hash of packages/sha256: a context with a byte counter in two words,
    eight unmasked state words and a block buffer. */
module Sha256 {
  import Buffers = Bytes
  import opened HashCommon
  import opened Sha256Words
  import opened Sha256Spec

  function Lows(s: seq<Long>): seq<Word> {
    seq(|s|, i requires 0 <= i < |s| => Low(s[i]))
  }

  // ----- One block -----

  /** Where working variable j is kept in round t: the source renames the registers
      instead of moving them. */
  function Reg(j: nat, t: nat): (r: nat)
    requires j < 8
    ensures r < 8
  {
    if j >= t % 8 then j - t % 8 else 8 + j - t % 8
  }

  /** The working variables in order. */
  function View(v: seq<Long>, t: nat): (r: seq<Long>)
    requires |v| == 8
    ensures |r| == 8
  {
    seq(8, j requires 0 <= j < 8 => v[Reg(j, t)])
  }

  function T1(v: seq<Long>, k: Long, x: Long): Long
    requires |v| == 8
  {
    Plus(Plus(Plus(Plus(v[7], S3(v[4])), F1(v[4], v[5], v[6])), k), x)
  }

  function T2(v: seq<Long>): Long
    requires |v| == 8
  {
    Plus(S2(v[0]), F0(v[0], v[1], v[2]))
  }

  lemma LowT1(v: seq<Long>, k: Long, x: Long)
    requires |v| == 8
    ensures Low(T1(v, k, x)) == Temp1(Lows(v), Low(k), Low(x))
  {
    hide Low, Plus, Sum, S3, F1, BigSigma1, Ch;
    var a := Plus(v[7], S3(v[4]));
    var b := Plus(a, F1(v[4], v[5], v[6]));
    LowPlus(v[7], S3(v[4]));
    LowPlus(a, F1(v[4], v[5], v[6]));
    LowPlus(b, k);
    LowPlus(Plus(b, k), x);
    LowS3(v[4]);
    LowF1(v[4], v[5], v[6]);
  }

  lemma LowT2(v: seq<Long>)
    requires |v| == 8
    ensures Low(T2(v)) == Temp2(Lows(v))
  {
    hide Low, Plus, Sum, S2, F0, BigSigma0, Maj;
    LowPlus(S2(v[0]), F0(v[0], v[1], v[2]));
    LowS2(v[0]);
    LowF0(v[0], v[1], v[2]);
  }

  lemma Next8(t: nat)
    ensures (t + 1) % 8 == if t % 8 == 7 then 0 else t % 8 + 1
  {
  }

  lemma RegShift(t: nat)
    ensures forall j :: 0 <= j < 7 ==> Reg(j + 1, t + 1) == Reg(j, t)
    ensures Reg(0, t + 1) == Reg(7, t)
    ensures forall i :: 0 <= i < 8 ==> (i == 7 || Reg(i, t) != Reg(7, t)) && (i == 3 || Reg(i, t) != Reg(3, t))
  {
    Next8(t);
  }

  /** A round writes two registers; renaming shifts the others. */
  lemma ShiftView(v: seq<Long>, t: nat, a: Long, e: Long)
    requires |v| == 8
    ensures var r := View(v, t);
            View(v[Reg(3, t) := e][Reg(7, t) := a], t + 1) == [a, r[0], r[1], r[2], e, r[4], r[5], r[6]]
  {
    hide Reg;
    RegShift(t);
    var v' := v[Reg(3, t) := e][Reg(7, t) := a];
    assert forall j :: 0 <= j < 7 ==> v'[Reg(j + 1, t + 1)] == v'[Reg(j, t)];
  }

  lemma RoundView(v: seq<Long>, t: nat, k: Long, x: Long)
    requires |v| == 8
    ensures var r := View(v, t);
            var v' := v[Reg(3, t) := Plus(r[3], T1(r, k, x))][Reg(7, t) := Plus(T1(r, k, x), T2(r))];
            Lows(View(v', t + 1)) == Round(Lows(r), Low(k), Low(x))
  {
    hide Low, Plus, Sum, T1, T2, Temp1, Temp2, View;
    var r := View(v, t);
    var t1, t2 := T1(r, k, x), T2(r);
    LowT1(r, k, x);
    LowT2(r);
    LowPlus(r[3], t1);
    LowPlus(t1, t2);
    ShiftView(v, t, Plus(t1, t2), Plus(r[3], t1));
  }

  /** Mix one block into the state. */
  method Process(state: array<Long>, data: Bytes)
    requires state.Length == 8 && |data| == 64
    modifies state
    ensures Lows(state[..]) == Compress(old(Lows(state[..])), data)
  {
    hide Low, Plus, T1, T2, Reg, View, Round, Schedule;
    var w := FillSchedule(data);
    var v := new Long[8](i requires 0 <= i < 8 reads state => state[i]);
    ghost var h := Lows(state[..]);
    assert v[..] == state[..];
    ViewStart(v[..]);
    for t := 0 to 64
      invariant state[..] == old(state[..])
      invariant forall j :: 0 <= j < 64 ==> Low(w[j]) == Schedule(data, j)
      invariant Lows(View(v[..], t)) == Rounds(h, data, t)
    {
      var k := Up(K[t]);
      assert Low(k) == K[t] by { LowUp(K[t]); }
      ghost var before := v[..];
      RoundView(before, t, k, w[t]);
      var r := View(v[..], t);
      var temp1, temp2 := T1(r, k, w[t]), T2(r);
      v[Reg(3, t)] := Plus(r[3], temp1);
      v[Reg(7, t)] := Plus(temp1, temp2);
      assert v[..] == before[Reg(3, t) := Plus(r[3], temp1)][Reg(7, t) := Plus(temp1, temp2)];
    }
    ViewEnd(v[..]);
    AddState(state, v[..]);
  }

  lemma ViewStart(v: seq<Long>)
    requires |v| == 8
    ensures View(v, 0) == v
  {
  }

  lemma ViewEnd(v: seq<Long>)
    requires |v| == 8
    ensures View(v, 64) == v
  {
    assert forall j :: 0 <= j < 8 ==> Reg(j, 64) == j;
  }

  /** Add the working variables to the state. */
  method AddState(state: array<Long>, v: seq<Long>)
    requires state.Length == 8 && |v| == 8
    modifies state
    ensures forall i :: 0 <= i < 8 ==> Low(state[i]) == Sum(old(Low(state[i])), Low(v[i]))
  {
    hide Low, Plus, Sum;
    for i := 0 to 8
      invariant forall j :: i <= j < 8 ==> state[j] == old(state[j])
      invariant forall j :: 0 <= j < i ==> Low(state[j]) == Sum(old(Low(state[j])), Low(v[j]))
    {
      LowPlus(state[i], v[i]);
      state[i] := Plus(state[i], v[i]);
    }
  }

  /** The 64 schedule words. */
  method FillSchedule(data: Bytes) returns (w: array<Long>)
    requires |data| == 64
    ensures fresh(w) && w.Length == 64 && forall t :: 0 <= t < 64 ==> Low(w[t]) == Schedule(data, t)
  {
    hide Low, Get, WordOf, Mix, Plus;
    w := new Long[64](_ => 0);
    for t := 0 to 64
      invariant forall j :: 0 <= j < t ==> Low(w[j]) == Schedule(data, j)
    {
      if t < 16 {
        w[t] := Get(data[4 * t], data[4 * t + 1], data[4 * t + 2], data[4 * t + 3]);
        LowGet(data[4 * t], data[4 * t + 1], data[4 * t + 2], data[4 * t + 3]);
      } else {
        LowMix(w[t - 2], w[t - 7], w[t - 15], w[t - 16]);
        w[t] := Plus(Plus(Plus(S1(w[t - 2]), w[t - 7]), S0(w[t - 15])), w[t - 16]);
      }
    }
  }

  lemma LowMix(a: Long, b: Long, c: Long, d: Long)
    ensures Low(Plus(Plus(Plus(S1(a), b), S0(c)), d)) == Mix(Low(a), Low(b), Low(c), Low(d))
  {
    hide Low, Plus, Sum, S0, S1, SmallSigma0, SmallSigma1;
    LowS1(a);
    LowS0(c);
    LowPlus(S1(a), b);
    LowPlus(Plus(S1(a), b), S0(c));
    LowPlus(Plus(Plus(S1(a), b), S0(c)), d);
  }

  // ----- Streaming -----

  /** One more block. */
  lemma FoldNext(all: Bytes, p: nat)
    requires p % 64 == 0 && p + 64 <= |all|
    ensures Fold(all[..p + 64]) == Compress(Fold(all[..p]), all[p..p + 64])
  {
    hide Compress;
    var b := all[..p + 64];
    assert b[..|b| - 64] == all[..p] && b[|b| - 64..] == all[p..p + 64];
  }

  class Context {
    var total0: nat
    var total1: nat
    const state: array<Long>
    const buffer: array<bv8>
    /** All bytes hashed so far. */
    ghost var absorbed: Bytes

    /** The low counter word counts, the state is the hash of the whole blocks, and the
        buffer holds the rest. */
    ghost predicate Valid()
      reads this, state, buffer
    {
      && state.Length == 8 && buffer.Length == 64
      && total0 == |absorbed| % TWO32
      && Holds(absorbed, |absorbed| - |absorbed| % 64)
    }

    /** What the two counter words say together. */
    ghost function Total(): nat
      reads this
    {
      total1 * TWO32 + total0
    }

    /** The first p bytes of `all` are in the state, what follows in the buffer. */
    ghost predicate Holds(all: Bytes, p: nat)
      requires state.Length == 8 && buffer.Length == 64
      reads state, buffer
    {
      && p % 64 == 0 && p <= |all| <= p + 64
      && Lows(state[..]) == Fold(all[..p]) && buffer[..|all| - p] == all[p..]
    }

    /** The starting values. */
    constructor ()
      ensures Valid() && Total() == 0 && absorbed == [] && fresh(state) && fresh(buffer)
    {
      hide Up, Low;
      total0, total1 := 0, 0;
      state := new Long[8](i requires 0 <= i < 8 => Up(INITIAL[i]));
      buffer := new bv8[64];
      absorbed := [];
      new;
      forall i | 0 <= i < 8 ensures Low(state[i]) == INITIAL[i] {
        LowUp(INITIAL[i]);
      }
      assert Lows(state[..]) == INITIAL;
    }

    /** State and buffer are right for input of any length. The carry into the second
        counter word is right exactly when it is at most one. */
    method Update(input: Bytes)
      requires Valid()
      modifies this, state, buffer
      ensures Valid() && absorbed == old(absorbed) + input
      ensures Total() <= old(Total()) + |input|
      ensures Total() == old(Total()) + |input| <==> |old(absorbed)| % TWO32 + |input| < 2 * TWO32
    {
      hide Context.Holds;
      if |input| == 0 {
        assert absorbed + input == absorbed;
        return;
      }
      var left := total0 % 64;
      LowMod(|absorbed|);
      Count(|input|, |absorbed|);
      AbsorbBytes(left, input);
      absorbed := absorbed + input;
    }

    /** Add n to the counter of `len` bytes. */
    method Count(n: nat, ghost len: nat)
      requires n > 0 && total0 == len % TWO32
      modifies this`total0, this`total1
      ensures total0 == (len + n) % TWO32
      ensures Total() <= old(Total()) + n
      ensures Total() == old(Total()) + n <==> old(total0) + n < 2 * TWO32
    {
      CarryExact(total0, total1, n);
      LowCount(len, n);
      total0 := (total0 + n) % TWO32;
      if total0 < n {
        total1 := total1 + 1;
      }
    }

    /** Fill the buffer and empty it, hash whole blocks from the input, keep the rest. */
    method AbsorbBytes(left0: nat, input: Bytes)
      requires state.Length == 8 && buffer.Length == 64 && left0 == |absorbed| % 64
      requires Holds(absorbed, |absorbed| - left0)
      modifies state, buffer
      ensures var all := absorbed + input; Holds(all, |all| - |all| % 64)
    {
      hide Lows, Fold, Compress;
      ghost var all := absorbed + input;
      ghost var p := |absorbed| - left0;
      assert all[..p] == absorbed[..p] && absorbed[p..] == all[p..|absorbed|];
      var left, off, fill := left0, 0, 64 - left0;
      if left > 0 && |input| >= fill {
        assert all[p..p + 64] == all[p..p + left] + all[p + left..p + 64];
        assert all[p + left..p + 64] == input[..fill];
        FlushBuffer(left, input[..fill], all, p);
        off, left := fill, 0;
        p := p + 64;
      }
      assert all[p + left..] == input[off..];
      off := Finish64(input, off, all, p, left);
    }

    /** Whole blocks, then the rest into the buffer after the `left` bytes there. */
    method Finish64(input: Bytes, off0: nat, ghost all: Bytes, ghost p0: nat, left: nat) returns (off: nat)
      requires state.Length == 8 && buffer.Length == 64 && off0 <= |input| && p0 % 64 == 0 && left < 64
      requires |all| == p0 + left + |input| - off0 && all[p0 + left..] == input[off0..]
      requires left > 0 ==> left + |input| - off0 < 64
      requires Lows(state[..]) == Fold(all[..p0]) && buffer[..left] == all[p0..p0 + left]
      modifies state, buffer
      ensures Holds(all, |all| - |all| % 64)
    {
      hide Lows, Fold, Compress, Context.Holds;
      ghost var p;
      off, p := HashBlocks(input, off0, all, p0, left);
      SameTail(all, p0 + left, input, off0, off - off0);
      KeepRest(left, input[off..]);
      assert all[p..] == all[p..p + left] + all[p + left..];
      Conclude(all, p);
    }

    lemma Conclude(all: Bytes, p: nat)
      requires state.Length == 8 && buffer.Length == 64 && p % 64 == 0 && p <= |all| < p + 64
      requires Lows(state[..]) == Fold(all[..p]) && buffer[..|all| - p] == all[p..]
      ensures Holds(all, |all| - |all| % 64)
    {
      hide Lows, Fold;
      ModUnique(|all|, p);
    }

    /** What is left of the input goes behind the `left` bytes in the buffer. */
    method KeepRest(left: nat, rest: Bytes)
      requires buffer.Length == 64 && left + |rest| < 64
      modifies buffer
      ensures buffer[..left + |rest|] == old(buffer[..left]) + rest
    {
      if |rest| > 0 {
        var _ := Buffers.Store(buffer, left, rest);
      }
    }

    /** The buffer, completed with the first bytes of the input, is a block. */
    method FlushBuffer(left: nat, first: Bytes, ghost all: Bytes, ghost p: nat)
      requires state.Length == 8 && buffer.Length == 64 && left + |first| == 64
      requires p % 64 == 0 && p + 64 <= |all| && Lows(state[..]) == Fold(all[..p])
      requires buffer[..left] + first == all[p..p + 64]
      modifies state, buffer
      ensures Lows(state[..]) == Fold(all[..p + 64])
    {
      hide Lows, Fold, Compress;
      var _ := Buffers.Store(buffer, left, first);
      assert buffer[..] == buffer[..64];
      FoldNext(all, p);
      Process(state, buffer[..]);
    }

    /** Whole blocks straight from the input. */
    method HashBlocks(input: Bytes, off0: nat, ghost all: Bytes, ghost p0: nat, ghost left: nat)
      returns (off: nat, ghost p: nat)
      requires state.Length == 8 && off0 <= |input| && p0 % 64 == 0 && left <= 64
      requires |all| == p0 + left + |input| - off0 && all[p0 + left..] == input[off0..]
      requires left > 0 ==> |input| - off0 < 64
      requires Lows(state[..]) == Fold(all[..p0])
      modifies state
      ensures off0 <= off <= |input| && |input| - off < 64 && p == p0 + off - off0 && p % 64 == 0
      ensures Lows(state[..]) == Fold(all[..p])
    {
      hide Lows, Fold, Compress;
      off, p := off0, p0;
      while |input| - off >= 64
        invariant off0 <= off <= |input| && p == p0 + off - off0 && p % 64 == 0
        invariant Lows(state[..]) == Fold(all[..p])
      {
        assert left == 0 && p + 64 <= |all|;
        SameSlice(all, p0, input, off0, off - off0);
        FoldNext(all, p);
        Process(state, input[off..off + 64]);
        off := off + 64;
        p := p + 64;
      }
    }

    lemma NothingBuffered()
      requires Valid() && |absorbed| % 64 == 0
      ensures Lows(state[..]) == Fold(absorbed)
    {
      hide Fold, Lows;
      assert absorbed[..|absorbed|] == absorbed;
    }

    /** Pad, append the length in bits, and write out the state. */
    method Finish() returns (digest: Bytes)
      requires Valid()
      modifies this, state, buffer
      ensures digest == Serialize(Fold(PadAs(old(absorbed), old(Total()))))
    {
      hide Lows, Fold, Serialize, PadAs, Context.Valid;
      AppendPadding();
      NothingBuffered();
      digest := WriteOut();
    }

    method AppendPadding()
      requires Valid()
      modifies this, state, buffer
      ensures Valid() && state.Length == 8
      ensures absorbed == PadAs(old(absorbed), old(Total()))
    {
      hide BigEndian, Zeros, PutInt, PadAs, Context.Holds;
      ghost var msg := absorbed;
      var msglen := LengthField();
      var last := total0 % 64;
      LowMod(|msg|);
      var padn := if last < 56 then 56 - last else 120 - last;
      PaddingIs(|msg|, last, padn);
      hide Context.Valid, Context.Total;
      Update([0x80] + seq(padn - 1, _ => 0));
      Update(msglen);
      PadIs(msg, old(Total()), padn, msglen);
    }

    /** The two length words. */
    method LengthField() returns (msglen: Bytes)
      requires Valid()
      ensures msglen == BigEndian(8 * Total(), 8)
    {
      hide BigEndian, PutInt, Context.Holds;
      var high := total0 / 0x2000_0000 + total1 * 8;
      var low := total0 * 8;
      msglen := PutInt(high) + PutInt(low);
      LengthIs(total0, total1);
    }

    /** The state as bytes. */
    method WriteOut() returns (digest: Bytes)
      requires state.Length == 8
      ensures digest == Serialize(Lows(state[..]))
    {
      hide Put, BytesOf, Low;
      digest := [];
      ghost var h := Lows(state[..]);
      for i := 0 to 8
        invariant digest + Serialize(h[i..]) == Serialize(h)
      {
        PutLow(state[i]);
        assert h[i..][0] == h[i] && h[i..][1..] == h[i + 1..];
        assert digest + (BytesOf(h[i]) + Serialize(h[i + 1..])) == digest + BytesOf(h[i]) + Serialize(h[i + 1..]);
        digest := digest + Put(state[i]);
      }
    }
  }

  /** No update needs a carry of more than one. */
  predicate Carried(chunks: seq<Bytes>) {
    chunks == [] ||
    var before := chunks[..|chunks| - 1];
    Carried(before) && |Join(before)| % TWO32 + |chunks[|chunks| - 1]| < 2 * TWO32
  }

  lemma CarriedNext(chunks: seq<Bytes>, i: nat)
    requires i < |chunks|
    ensures Join(chunks[..i + 1]) == Join(chunks[..i]) + chunks[i]
    ensures Carried(chunks[..i + 1]) <==>
              Carried(chunks[..i]) && |Join(chunks[..i])| % TWO32 + |chunks[i]| < 2 * TWO32
  {
    assert chunks[..i + 1][..i] == chunks[..i];
  }

  lemma NoneCarried(chunks: seq<Bytes>)
    ensures Join(chunks[..0]) == [] && Carried(chunks[..0])
  {
  }

  /** Any split of any message: the digest is that of the message padded with the count in
      the two words, and that count is its length exactly when every carry was at most one. */
  method Hash(chunks: seq<Bytes>) returns (digest: Bytes, ghost count: nat)
    ensures digest == Serialize(Fold(PadAs(Join(chunks), count)))
    ensures count == |Join(chunks)| <==> Carried(chunks)
    ensures Carried(chunks) ==> digest == Digest(Join(chunks))
  {
    hide Serialize, Fold, PadAs, Join, Carried, Context.Valid, Context.Total;
    var ctx := new Context();
    NoneCarried(chunks);
    for i := 0 to |chunks|
      invariant ctx.Valid() && ctx.absorbed == Join(chunks[..i]) && ctx.Total() <= |ctx.absorbed|
      invariant ctx.Total() == |ctx.absorbed| <==> Carried(chunks[..i])
      invariant fresh(ctx) && fresh(ctx.state) && fresh(ctx.buffer)
    {
      CarriedNext(chunks, i);
      ctx.Update(chunks[i]);
    }
    assert chunks[..|chunks|] == chunks;
    count := ctx.Total();
    digest := ctx.Finish();
  }

  // ----- The counter and the length field -----

  lemma LowMod(len: nat)
    ensures len % TWO32 % 64 == len % 64
  {
    var q := len / TWO32;
    assert len == 64 * (q * 0x400_0000) + len % TWO32;
  }

  lemma LowCount(len: nat, n: nat)
    ensures (len % TWO32 + n) % TWO32 == (len + n) % TWO32
  {
    var q := len / TWO32;
    assert len + n == len % TWO32 + n + q * TWO32;
  }

  lemma CarryExact(t0: nat, t1: nat, n: nat)
    requires t0 < TWO32 && n > 0
    ensures var s := (t0 + n) % TWO32; var c := if s < n then 1 else 0;
            && (t1 + c) * TWO32 + s <= t1 * TWO32 + t0 + n
            && ((t1 + c) * TWO32 + s == t1 * TWO32 + t0 + n <==> t0 + n < 2 * TWO32)
  {
    var q := (t0 + n) / TWO32;
    assert t0 + n == q * TWO32 + (t0 + n) % TWO32;
  }

  /** The two halves the source computes are the length in bits. */
  lemma LengthIs(total0: nat, total1: nat)
    requires total0 < TWO32
    ensures PutInt(total0 / 0x2000_0000 + total1 * 8) + PutInt(total0 * 8) == BigEndian(8 * (total1 * TWO32 + total0), 8)
  {
    hide BigEndian, PutInt;
    var bits := 8 * (total1 * TWO32 + total0);
    BigEndianSplit(bits);
    assert bits / TWO32 == total0 / 0x2000_0000 + total1 * 8;
    PutIntIs(bits / TWO32);
    PutIntIs(total0 * 8);
    SameLow(bits, total0 * 8, total1 * 8);
  }

  lemma PaddingIs(len: nat, last: nat, padn: nat)
    requires last == len % 64 && padn == if last < 56 then 56 - last else 120 - last
    ensures padn == 1 + Zeros(len) && 1 <= padn <= 64
  {
  }
}
