/** What the two hashes share: 32-bit words, blocks, and the padding of FIPS 180-4
    section 5.1.1. */
module HashCommon {

  type Word = bv32
  type Bytes = seq<bv8>

  function Sum(x: Word, y: Word): Word { x + y }

  // ----- Words and bytes, section 3.1 -----

  function WordOf(b0: bv8, b1: bv8, b2: bv8, b3: bv8): Word {
    ((b0 as bv32) << 24) | ((b1 as bv32) << 16) | ((b2 as bv32) << 8) | (b3 as bv32)
  }

  function BytesOf(w: Word): seq<bv8> {
    [((w >> 24) & 0xFF) as bv8, ((w >> 16) & 0xFF) as bv8, ((w >> 8) & 0xFF) as bv8, (w & 0xFF) as bv8]
  }

  function Serialize(h: seq<Word>): Bytes {
    if h == [] then [] else BytesOf(h[0]) + Serialize(h[1..])
  }

  /** Four bytes for each word, the most significant first. */
  lemma {:induction false} SerializedAt(h: seq<Word>, i: nat)
    requires i < |h|
    ensures |Serialize(h)| == 4 * |h|
    ensures Serialize(h)[4 * i..4 * i + 4] == BytesOf(h[i])
  {
    hide BytesOf;
    SerializedLength(h);
    SerializedLength(h[1..]);
    if i > 0 {
      SerializedAt(h[1..], i - 1);
      assert Serialize(h)[4..] == Serialize(h[1..]);
      assert Serialize(h)[4 * i..4 * i + 4] == Serialize(h)[4..][4 * (i - 1)..4 * (i - 1) + 4];
    }
  }

  lemma {:induction false} SerializedLength(h: seq<Word>)
    ensures |Serialize(h)| == 4 * |h|
  {
    if h != [] {
      SerializedLength(h[1..]);
    }
  }

  lemma ByteOrder()
    ensures BytesOf(0xBA7816BF) == [0xBA, 0x78, 0x16, 0xBF] && WordOf(0x61, 0x62, 0x63, 0x80) == 0x61626380
  {
  }

  /** The message that a list of updates adds up to. */
  function Join(chunks: seq<Bytes>): Bytes {
    if chunks == [] then [] else Join(chunks[..|chunks| - 1]) + chunks[|chunks| - 1]
  }

  // ----- Padding, section 5.1.1 -----

  /** Zero bytes that bring a message and its 1 bit to 8 bytes short of a block. */
  function Zeros(len: nat): (z: nat)
    ensures z < 64 && (len + 1 + z) % 64 == 56
  {
    (119 - len % 64) % 64
  }

  /** The low k bytes of n, most significant first. */
  function BigEndian(n: nat, k: nat): (b: Bytes)
    ensures |b| == k
  {
    if k == 0 then [] else BigEndian(n / 256, k - 1) + [LowByte(n)]
  }

  function LowByte(n: nat): bv8 {
    (n % 256) as bv8
  }

  function Pad(msg: Bytes): (p: Bytes)
    ensures |p| % 64 == 0
  {
    PadAs(msg, |msg|)
  }

  /** The padding with the length field of a message of `count` bytes. */
  function PadAs(msg: Bytes, count: nat): (p: Bytes)
    ensures |p| % 64 == 0
  {
    PadLength(|msg| + 1 + Zeros(|msg|));
    msg + [0x80] + seq(Zeros(|msg|), _ => 0) + BigEndian(8 * count, 8)
  }

  lemma PadLength(n: nat)
    requires n % 64 == 56
    ensures (n + 8) % 64 == 0
  {
  }

  const TWO32: nat := 0x1_0000_0000

  // ----- The length field -----

  /** PUT_UINT32 of a counter value. */
  function PutInt(n: nat): Bytes {
    [LowByte(n / 0x100_0000), LowByte(n / 0x1_0000), LowByte(n / 0x100), LowByte(n)]
  }

  lemma PutIntIs(n: nat)
    ensures PutInt(n) == BigEndian(n, 4)
  {
    hide LowByte;
    var a, b, c := n / 256, n / 256 / 256, n / 256 / 256 / 256;
    assert a == n / 0x100 && b == n / 0x1_0000 && c == n / 0x100_0000;
    BigEndianStep(n, a, 4);
    BigEndianStep(a, b, 3);
    BigEndianStep(b, c, 2);
    BigEndianStep(c, c / 256, 1);
  }

  /** Splitting off the low four bytes. */
  lemma BigEndianSplit(n: nat)
    ensures BigEndian(n, 8) == BigEndian(n / TWO32, 4) + BigEndian(n, 4)
  {
    hide BigEndian, LowByte;
    var a, b, c, d := n / 256, n / 256 / 256, n / 256 / 256 / 256, n / 256 / 256 / 256 / 256;
    assert d == n / TWO32;
    BigEndianStep(n, a, 4);
    BigEndianStep(a, b, 3);
    BigEndianStep(b, c, 2);
    BigEndianStep(c, d, 1);
    BigEndianStep(n, a, 8);
    BigEndianStep(a, b, 7);
    BigEndianStep(b, c, 6);
    BigEndianStep(c, d, 5);
  }

  lemma BigEndianStep(n: nat, q: nat, k: nat)
    requires k > 0 && q == n / 256
    ensures BigEndian(n, k) == BigEndian(q, k - 1) + [LowByte(n)]
  {
  }

  lemma {:induction false} SameLow(n: nat, m: nat, k: nat)
    requires n == m + k * TWO32
    ensures BigEndian(n, 4) == BigEndian(m, 4)
  {
    hide BigEndian, LowByte;
    CarryStep(n, m, k * 0x100_0000, 4);
    CarryStep(n / 256, m / 256, k * 0x1_0000, 3);
    CarryStep(n / 256 / 256, m / 256 / 256, k * 0x100, 2);
    CarryStep(n / 256 / 256 / 256, m / 256 / 256 / 256, k, 1);
    NoBytes(n / 256 / 256 / 256 / 256, m / 256 / 256 / 256 / 256);
  }

  /** Numbers that differ by a multiple of 256 have the same last byte. */
  lemma CarryStep(n: nat, m: nat, d: nat, k: nat)
    requires n == m + 256 * d && k > 0
    ensures n / 256 == m / 256 + d
    ensures BigEndian(n / 256, k - 1) == BigEndian(m / 256, k - 1) ==> BigEndian(n, k) == BigEndian(m, k)
  {
    assert n % 256 == m % 256;
  }

  lemma NoBytes(n: nat, m: nat)
    ensures BigEndian(n, 0) == BigEndian(m, 0)
  {
  }

  lemma PadIs(msg: Bytes, count: nat, padn: nat, msglen: Bytes)
    requires padn == 1 + Zeros(|msg|) && msglen == BigEndian(8 * count, 8)
    ensures msg + ([0x80] + seq(padn - 1, _ => 0)) + msglen == PadAs(msg, count)
  {
    hide Zeros, BigEndian;
    Reassociate(msg, [0x80], seq(padn - 1, _ => 0), msglen);
  }

  lemma Reassociate(a: Bytes, b: Bytes, c: Bytes, d: Bytes)
    ensures a + (b + c) + d == a + b + c + d
  {
  }

  // ----- Buffers -----

  lemma ModUnique(n: nat, p: nat)
    requires p % 64 == 0 && p <= n < p + 64
    ensures n - n % 64 == p
  {
  }

  lemma SameTail(a: Bytes, i: nat, b: Bytes, j: nat, d: nat)
    requires i <= |a| && j <= |b| && a[i..] == b[j..] && i + d <= |a| && j + d <= |b|
    ensures a[i + d..] == b[j + d..]
  {
    assert a[i + d..] == a[i..][d..];
    assert b[j + d..] == b[j..][d..];
  }

  lemma SameSlice(a: Bytes, i: nat, b: Bytes, j: nat, d: nat)
    requires i <= |a| && j <= |b| && a[i..] == b[j..] && i + d + 64 <= |a| && j + d + 64 <= |b|
    ensures a[i + d..i + d + 64] == b[j + d..j + d + 64]
  {
    assert a[i + d..i + d + 64] == a[i..][d..d + 64];
    assert b[j + d..j + d + 64] == b[j..][d..d + 64];
  }
}
