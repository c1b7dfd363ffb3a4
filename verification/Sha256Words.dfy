/** SHA-256 on machine words: the source works on 64-bit `unsigned long` words and masks
    them only when it shifts right. Here every operation is shown to agree, in its low 32
    bits, with the 32-bit operation of FIPS 180-4 section 4.1.2. */
module Sha256Words {
  import opened HashCommon

  type Long = bv64

  /** The low 32 bits: what a word means. */
  function Low(x: Long): Word { (x & 0xFFFF_FFFF) as bv32 }

  function Plus(x: Long, y: Long): Long { x + y }
  function Xor(x: Long, y: Long): Long { x ^ y }
  function XorW(x: Word, y: Word): Word { x ^ y }

  // ----- Section 4.1.2 -----

  function Ch(x: Word, y: Word, z: Word): Word { (x & y) ^ (!x & z) }
  function Maj(x: Word, y: Word, z: Word): Word { (x & y) ^ (x & z) ^ (y & z) }

  function BigSigma0(x: Word): Word {
    XorW(XorW(((x >> 2) | (x << 30)), ((x >> 13) | (x << 19))), ((x >> 22) | (x << 10)))
  }
  function BigSigma1(x: Word): Word {
    XorW(XorW(((x >> 6) | (x << 26)), ((x >> 11) | (x << 21))), ((x >> 25) | (x << 7)))
  }
  function SmallSigma0(x: Word): Word {
    XorW(XorW(((x >> 7) | (x << 25)), ((x >> 18) | (x << 14))), x >> 3)
  }
  function SmallSigma1(x: Word): Word {
    XorW(XorW(((x >> 17) | (x << 15)), ((x >> 19) | (x << 13))), x >> 10)
  }

  // ----- The macros: only the right part of a rotation is masked -----

  function F0(x: Long, y: Long, z: Long): Long { (x & y) | (z & (x | y)) }
  function F1(x: Long, y: Long, z: Long): Long { z ^ (x & (y ^ z)) }

  function S0(x: Long): Long {
    Xor(Xor((((x & 0xFFFF_FFFF) >> 7) | (x << 25)), (((x & 0xFFFF_FFFF) >> 18) | (x << 14))), (x & 0xFFFF_FFFF) >> 3)
  }
  function S1(x: Long): Long {
    Xor(Xor((((x & 0xFFFF_FFFF) >> 17) | (x << 15)), (((x & 0xFFFF_FFFF) >> 19) | (x << 13))), (x & 0xFFFF_FFFF) >> 10)
  }
  function S2(x: Long): Long {
    Xor(Xor((((x & 0xFFFF_FFFF) >> 2) | (x << 30)), (((x & 0xFFFF_FFFF) >> 13) | (x << 19))), (((x & 0xFFFF_FFFF) >> 22) | (x << 10)))
  }
  function S3(x: Long): Long {
    Xor(Xor((((x & 0xFFFF_FFFF) >> 6) | (x << 26)), (((x & 0xFFFF_FFFF) >> 11) | (x << 21))), (((x & 0xFFFF_FFFF) >> 25) | (x << 7)))
  }

  // ----- Agreement in the low 32 bits -----

  function Up(x: Word): Long { x as bv64 }

  lemma LowUp(x: Word) ensures Low(Up(x)) == x {}

  lemma SumBits(x: Long, y: Long)
    ensures ((x + y) & 0xFFFF_FFFF) as bv32 == ((x & 0xFFFF_FFFF) as bv32) + ((y & 0xFFFF_FFFF) as bv32)
  {
  }

  lemma SumOfLows(x: Long, y: Long)
    ensures ((x + y) & 0xFFFF_FFFF) as bv32 == Sum((x & 0xFFFF_FFFF) as bv32, (y & 0xFFFF_FFFF) as bv32)
  {
    SumBits(x, y);
  }

  lemma LowOfSum(x: Long, y: Long)
    ensures Low(x + y) == Sum(Low(x), Low(y))
  {
    hide Sum;
    SumOfLows(x, y);
  }

  /** Addition never carries downwards. */
  lemma LowPlus(x: Long, y: Long)
    ensures Low(Plus(x, y)) == Sum(Low(x), Low(y))
  {
    hide Sum, Low;
    LowOfSum(x, y);
  }

  lemma LowXor(x: Long, y: Long) ensures Low(Xor(x, y)) == XorW(Low(x), Low(y)) {}
  lemma LowF0(x: Long, y: Long, z: Long) ensures Low(F0(x, y, z)) == Maj(Low(x), Low(y), Low(z)) {}
  lemma LowF1(x: Long, y: Long, z: Long) ensures Low(F1(x, y, z)) == Ch(Low(x), Low(y), Low(z)) {}

  lemma LowXor3(x: Long, y: Long, z: Long)
    ensures Low(Xor(Xor(x, y), z)) == XorW(XorW(Low(x), Low(y)), Low(z))
  {
    hide *;
    LowXor(x, y);
    LowXor(Xor(x, y), z);
  }

  lemma LowRotr2(x: Long) ensures Low(((x & 0xFFFF_FFFF) >> 2) | (x << 30)) == (Low(x) >> 2) | (Low(x) << 30) {}
  lemma LowRotr6(x: Long) ensures Low(((x & 0xFFFF_FFFF) >> 6) | (x << 26)) == (Low(x) >> 6) | (Low(x) << 26) {}
  lemma LowRotr7(x: Long) ensures Low(((x & 0xFFFF_FFFF) >> 7) | (x << 25)) == (Low(x) >> 7) | (Low(x) << 25) {}
  lemma LowRotr11(x: Long) ensures Low(((x & 0xFFFF_FFFF) >> 11) | (x << 21)) == (Low(x) >> 11) | (Low(x) << 21) {}
  lemma LowRotr13(x: Long) ensures Low(((x & 0xFFFF_FFFF) >> 13) | (x << 19)) == (Low(x) >> 13) | (Low(x) << 19) {}
  lemma LowRotr17(x: Long) ensures Low(((x & 0xFFFF_FFFF) >> 17) | (x << 15)) == (Low(x) >> 17) | (Low(x) << 15) {}
  lemma LowRotr18(x: Long) ensures Low(((x & 0xFFFF_FFFF) >> 18) | (x << 14)) == (Low(x) >> 18) | (Low(x) << 14) {}
  lemma LowRotr19(x: Long) ensures Low(((x & 0xFFFF_FFFF) >> 19) | (x << 13)) == (Low(x) >> 19) | (Low(x) << 13) {}
  lemma LowRotr22(x: Long) ensures Low(((x & 0xFFFF_FFFF) >> 22) | (x << 10)) == (Low(x) >> 22) | (Low(x) << 10) {}
  lemma LowRotr25(x: Long) ensures Low(((x & 0xFFFF_FFFF) >> 25) | (x << 7)) == (Low(x) >> 25) | (Low(x) << 7) {}
  lemma LowShr3(x: Long) ensures Low((x & 0xFFFF_FFFF) >> 3) == Low(x) >> 3 {}
  lemma LowShr10(x: Long) ensures Low((x & 0xFFFF_FFFF) >> 10) == Low(x) >> 10 {}

  lemma LowS0(x: Long)
    ensures Low(S0(x)) == SmallSigma0(Low(x))
  {
    hide Low, Xor, XorW;
    LowRotr7(x);
    LowRotr18(x);
    LowShr3(x);
    LowXor3(((x & 0xFFFF_FFFF) >> 7) | (x << 25), ((x & 0xFFFF_FFFF) >> 18) | (x << 14), (x & 0xFFFF_FFFF) >> 3);
  }

  lemma LowS1(x: Long)
    ensures Low(S1(x)) == SmallSigma1(Low(x))
  {
    hide Low, Xor, XorW;
    LowRotr17(x);
    LowRotr19(x);
    LowShr10(x);
    LowXor3(((x & 0xFFFF_FFFF) >> 17) | (x << 15), ((x & 0xFFFF_FFFF) >> 19) | (x << 13), (x & 0xFFFF_FFFF) >> 10);
  }

  lemma LowS2(x: Long)
    ensures Low(S2(x)) == BigSigma0(Low(x))
  {
    hide Low, Xor, XorW;
    LowRotr2(x);
    LowRotr13(x);
    LowRotr22(x);
    LowXor3(((x & 0xFFFF_FFFF) >> 2) | (x << 30), ((x & 0xFFFF_FFFF) >> 13) | (x << 19), ((x & 0xFFFF_FFFF) >> 22) | (x << 10));
  }

  lemma LowS3(x: Long)
    ensures Low(S3(x)) == BigSigma1(Low(x))
  {
    hide Low, Xor, XorW;
    LowRotr6(x);
    LowRotr11(x);
    LowRotr25(x);
    LowXor3(((x & 0xFFFF_FFFF) >> 6) | (x << 26), ((x & 0xFFFF_FFFF) >> 11) | (x << 21), ((x & 0xFFFF_FFFF) >> 25) | (x << 7));
  }

  // ----- Bytes -----

  /** A word from four bytes, as GET_UINT32 builds it. */
  function Get(b0: bv8, b1: bv8, b2: bv8, b3: bv8): Long {
    ((b0 as bv64) << 24) | ((b1 as bv64) << 16) | ((b2 as bv64) << 8) | (b3 as bv64)
  }

  lemma LowGet(b0: bv8, b1: bv8, b2: bv8, b3: bv8)
    ensures Low(Get(b0, b1, b2, b3)) == WordOf(b0, b1, b2, b3)
  {
  }

  /** The four bytes of the low half, as PUT_UINT32 stores them. */
  function Put(n: Long): seq<bv8> {
    [((n >> 24) & 0xFF) as bv8, ((n >> 16) & 0xFF) as bv8, ((n >> 8) & 0xFF) as bv8, (n & 0xFF) as bv8]
  }

  lemma PutLow(n: Long)
    ensures Put(n) == BytesOf(Low(n))
  {
    assert ((n >> 24) & 0xFF) as bv8 == ((Low(n) >> 24) & 0xFF) as bv8;
    assert ((n >> 16) & 0xFF) as bv8 == ((Low(n) >> 16) & 0xFF) as bv8;
    assert ((n >> 8) & 0xFF) as bv8 == ((Low(n) >> 8) & 0xFF) as bv8;
  }
}
