/** Where the constants of SHA-256 come from: sections 4.2.2 and 5.3.3 of FIPS 180-4. */
module Sha256Constants {
  import opened HashCommon
  import opened Sha256Spec

  const PRIMES: seq<nat> :=
    [2, 3, 5, 7, 11, 13, 17, 19] +
    [23, 29, 31, 37, 41, 43, 47, 53] +
    [59, 61, 67, 71, 73, 79, 83, 89] +
    [97, 101, 103, 107, 109, 113, 127, 131] +
    [137, 139, 149, 151, 157, 163, 167, 173] +
    [179, 181, 191, 193, 197, 199, 211, 223] +
    [227, 229, 233, 239, 241, 251, 257, 263] +
    [269, 271, 277, 281, 283, 293, 307, 311]

  /** The integer part of the cube root. */
  function WholeCube(p: nat): nat {
    if p < 8 then 1 else if p < 27 then 2 else if p < 64 then 3 else if p < 125 then 4 else if p < 216 then 5 else 6
  }

  function WholeSquare(p: nat): nat {
    if p < 4 then 1 else if p < 9 then 2 else if p < 16 then 3 else 4
  }

  /** k is the first 32 bits of the fractional part of the cube root of p. */
  predicate CubeRoot(p: nat, k: Word) {
    var r := WholeCube(p) * 0x1_0000_0000 + k as nat;
    r * r * r <= p * 0x1_0000_0000_0000_0000_0000_0000 < (r + 1) * (r + 1) * (r + 1)
  }

  predicate SquareRoot(p: nat, k: Word) {
    var r := WholeSquare(p) * 0x1_0000_0000 + k as nat;
    r * r <= p * 0x1_0000_0000_0000_0000 < (r + 1) * (r + 1)
  }

  lemma Roots0()
    ensures CubeRoot(2, 0x428A2F98) && CubeRoot(3, 0x71374491) && CubeRoot(5, 0xB5C0FBCF)
    ensures CubeRoot(7, 0xE9B5DBA5) && CubeRoot(11, 0x3956C25B) && CubeRoot(13, 0x59F111F1)
    ensures CubeRoot(17, 0x923F82A4) && CubeRoot(19, 0xAB1C5ED5)
  {
  }

  lemma Row0()
    ensures forall t :: 0 <= t < 8 ==> CubeRoot(PRIMES[t], K[t])
    ensures K[0] == 0x428A2F98 && K[1] == 0x71374491 && K[2] == 0xB5C0FBCF && K[3] == 0xE9B5DBA5
    ensures K[4] == 0x3956C25B && K[5] == 0x59F111F1 && K[6] == 0x923F82A4 && K[7] == 0xAB1C5ED5
  {
    hide CubeRoot;
    assert PRIMES[0] == 2 && PRIMES[1] == 3 && PRIMES[2] == 5 && PRIMES[3] == 7;
    assert PRIMES[4] == 11 && PRIMES[5] == 13 && PRIMES[6] == 17 && PRIMES[7] == 19;
    Roots0();
  }

  lemma Roots1()
    ensures CubeRoot(23, 0xD807AA98) && CubeRoot(29, 0x12835B01) && CubeRoot(31, 0x243185BE)
    ensures CubeRoot(37, 0x550C7DC3) && CubeRoot(41, 0x72BE5D74) && CubeRoot(43, 0x80DEB1FE)
    ensures CubeRoot(47, 0x9BDC06A7) && CubeRoot(53, 0xC19BF174)
  {
  }

  lemma Row1()
    ensures forall t :: 8 <= t < 16 ==> CubeRoot(PRIMES[t], K[t])
    ensures K[8] == 0xD807AA98 && K[9] == 0x12835B01 && K[10] == 0x243185BE && K[11] == 0x550C7DC3
    ensures K[12] == 0x72BE5D74 && K[13] == 0x80DEB1FE && K[14] == 0x9BDC06A7 && K[15] == 0xC19BF174
  {
    hide CubeRoot;
    assert PRIMES[8] == 23 && PRIMES[9] == 29 && PRIMES[10] == 31 && PRIMES[11] == 37;
    assert PRIMES[12] == 41 && PRIMES[13] == 43 && PRIMES[14] == 47 && PRIMES[15] == 53;
    Roots1();
  }

  lemma Roots2()
    ensures CubeRoot(59, 0xE49B69C1) && CubeRoot(61, 0xEFBE4786) && CubeRoot(67, 0x0FC19DC6)
    ensures CubeRoot(71, 0x240CA1CC) && CubeRoot(73, 0x2DE92C6F) && CubeRoot(79, 0x4A7484AA)
    ensures CubeRoot(83, 0x5CB0A9DC) && CubeRoot(89, 0x76F988DA)
  {
  }

  lemma Row2()
    ensures forall t :: 16 <= t < 24 ==> CubeRoot(PRIMES[t], K[t])
    ensures K[16] == 0xE49B69C1 && K[17] == 0xEFBE4786 && K[18] == 0x0FC19DC6 && K[19] == 0x240CA1CC
    ensures K[20] == 0x2DE92C6F && K[21] == 0x4A7484AA && K[22] == 0x5CB0A9DC && K[23] == 0x76F988DA
  {
    hide CubeRoot;
    assert PRIMES[16] == 59 && PRIMES[17] == 61 && PRIMES[18] == 67 && PRIMES[19] == 71;
    assert PRIMES[20] == 73 && PRIMES[21] == 79 && PRIMES[22] == 83 && PRIMES[23] == 89;
    Roots2();
  }

  lemma Roots3()
    ensures CubeRoot(97, 0x983E5152) && CubeRoot(101, 0xA831C66D) && CubeRoot(103, 0xB00327C8)
    ensures CubeRoot(107, 0xBF597FC7) && CubeRoot(109, 0xC6E00BF3) && CubeRoot(113, 0xD5A79147)
    ensures CubeRoot(127, 0x06CA6351) && CubeRoot(131, 0x14292967)
  {
  }

  lemma Row3()
    ensures forall t :: 24 <= t < 32 ==> CubeRoot(PRIMES[t], K[t])
    ensures K[24] == 0x983E5152 && K[25] == 0xA831C66D && K[26] == 0xB00327C8 && K[27] == 0xBF597FC7
    ensures K[28] == 0xC6E00BF3 && K[29] == 0xD5A79147 && K[30] == 0x06CA6351 && K[31] == 0x14292967
  {
    hide CubeRoot;
    assert PRIMES[24] == 97 && PRIMES[25] == 101 && PRIMES[26] == 103 && PRIMES[27] == 107;
    assert PRIMES[28] == 109 && PRIMES[29] == 113 && PRIMES[30] == 127 && PRIMES[31] == 131;
    Roots3();
  }

  lemma Roots4()
    ensures CubeRoot(137, 0x27B70A85) && CubeRoot(139, 0x2E1B2138) && CubeRoot(149, 0x4D2C6DFC)
    ensures CubeRoot(151, 0x53380D13) && CubeRoot(157, 0x650A7354) && CubeRoot(163, 0x766A0ABB)
    ensures CubeRoot(167, 0x81C2C92E) && CubeRoot(173, 0x92722C85)
  {
  }

  lemma Row4()
    ensures forall t :: 32 <= t < 40 ==> CubeRoot(PRIMES[t], K[t])
    ensures K[32] == 0x27B70A85 && K[33] == 0x2E1B2138 && K[34] == 0x4D2C6DFC && K[35] == 0x53380D13
    ensures K[36] == 0x650A7354 && K[37] == 0x766A0ABB && K[38] == 0x81C2C92E && K[39] == 0x92722C85
  {
    hide CubeRoot;
    assert PRIMES[32] == 137 && PRIMES[33] == 139 && PRIMES[34] == 149 && PRIMES[35] == 151;
    assert PRIMES[36] == 157 && PRIMES[37] == 163 && PRIMES[38] == 167 && PRIMES[39] == 173;
    Roots4();
  }

  lemma Roots5()
    ensures CubeRoot(179, 0xA2BFE8A1) && CubeRoot(181, 0xA81A664B) && CubeRoot(191, 0xC24B8B70)
    ensures CubeRoot(193, 0xC76C51A3) && CubeRoot(197, 0xD192E819) && CubeRoot(199, 0xD6990624)
    ensures CubeRoot(211, 0xF40E3585) && CubeRoot(223, 0x106AA070)
  {
  }

  lemma Row5()
    ensures forall t :: 40 <= t < 48 ==> CubeRoot(PRIMES[t], K[t])
    ensures K[40] == 0xA2BFE8A1 && K[41] == 0xA81A664B && K[42] == 0xC24B8B70 && K[43] == 0xC76C51A3
    ensures K[44] == 0xD192E819 && K[45] == 0xD6990624 && K[46] == 0xF40E3585 && K[47] == 0x106AA070
  {
    hide CubeRoot;
    assert PRIMES[40] == 179 && PRIMES[41] == 181 && PRIMES[42] == 191 && PRIMES[43] == 193;
    assert PRIMES[44] == 197 && PRIMES[45] == 199 && PRIMES[46] == 211 && PRIMES[47] == 223;
    Roots5();
  }

  lemma Roots6()
    ensures CubeRoot(227, 0x19A4C116) && CubeRoot(229, 0x1E376C08) && CubeRoot(233, 0x2748774C)
    ensures CubeRoot(239, 0x34B0BCB5) && CubeRoot(241, 0x391C0CB3) && CubeRoot(251, 0x4ED8AA4A)
    ensures CubeRoot(257, 0x5B9CCA4F) && CubeRoot(263, 0x682E6FF3)
  {
  }

  lemma Row6()
    ensures forall t :: 48 <= t < 56 ==> CubeRoot(PRIMES[t], K[t])
    ensures K[48] == 0x19A4C116 && K[49] == 0x1E376C08 && K[50] == 0x2748774C && K[51] == 0x34B0BCB5
    ensures K[52] == 0x391C0CB3 && K[53] == 0x4ED8AA4A && K[54] == 0x5B9CCA4F && K[55] == 0x682E6FF3
  {
    hide CubeRoot;
    assert PRIMES[48] == 227 && PRIMES[49] == 229 && PRIMES[50] == 233 && PRIMES[51] == 239;
    assert PRIMES[52] == 241 && PRIMES[53] == 251 && PRIMES[54] == 257 && PRIMES[55] == 263;
    Roots6();
  }

  lemma Roots7()
    ensures CubeRoot(269, 0x748F82EE) && CubeRoot(271, 0x78A5636F) && CubeRoot(277, 0x84C87814)
    ensures CubeRoot(281, 0x8CC70208) && CubeRoot(283, 0x90BEFFFA) && CubeRoot(293, 0xA4506CEB)
    ensures CubeRoot(307, 0xBEF9A3F7) && CubeRoot(311, 0xC67178F2)
  {
  }

  lemma Row7()
    ensures forall t :: 56 <= t < 64 ==> CubeRoot(PRIMES[t], K[t])
    ensures K[56] == 0x748F82EE && K[57] == 0x78A5636F && K[58] == 0x84C87814 && K[59] == 0x8CC70208
    ensures K[60] == 0x90BEFFFA && K[61] == 0xA4506CEB && K[62] == 0xBEF9A3F7 && K[63] == 0xC67178F2
  {
    hide CubeRoot;
    assert PRIMES[56] == 269 && PRIMES[57] == 271 && PRIMES[58] == 277 && PRIMES[59] == 281;
    assert PRIMES[60] == 283 && PRIMES[61] == 293 && PRIMES[62] == 307 && PRIMES[63] == 311;
    Roots7();
  }

  /** The round constants are those of the first 64 primes. */
  lemma RoundConstants(t: nat)
    requires t < 64
    ensures CubeRoot(PRIMES[t], K[t])
  {
    hide CubeRoot;
    Row0();
    Row1();
    Row2();
    Row3();
    Row4();
    Row5();
    Row6();
    Row7();
  }

  /** The initial value is that of the first 8 primes. */
  lemma InitialValue(i: nat)
    requires i < 8
    ensures SquareRoot(PRIMES[i], INITIAL[i])
  {
  }
}
