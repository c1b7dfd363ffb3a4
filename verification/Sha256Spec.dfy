/** The hash of FIPS 180-4 section 6.2 on 32-bit words. */
module Sha256Spec {
  import opened HashCommon
  import opened Sha256Words

  const K: seq<Word> :=
    [0x428A2F98, 0x71374491, 0xB5C0FBCF, 0xE9B5DBA5, 0x3956C25B, 0x59F111F1, 0x923F82A4, 0xAB1C5ED5] +
    [0xD807AA98, 0x12835B01, 0x243185BE, 0x550C7DC3, 0x72BE5D74, 0x80DEB1FE, 0x9BDC06A7, 0xC19BF174] +
    [0xE49B69C1, 0xEFBE4786, 0x0FC19DC6, 0x240CA1CC, 0x2DE92C6F, 0x4A7484AA, 0x5CB0A9DC, 0x76F988DA] +
    [0x983E5152, 0xA831C66D, 0xB00327C8, 0xBF597FC7, 0xC6E00BF3, 0xD5A79147, 0x06CA6351, 0x14292967] +
    [0x27B70A85, 0x2E1B2138, 0x4D2C6DFC, 0x53380D13, 0x650A7354, 0x766A0ABB, 0x81C2C92E, 0x92722C85] +
    [0xA2BFE8A1, 0xA81A664B, 0xC24B8B70, 0xC76C51A3, 0xD192E819, 0xD6990624, 0xF40E3585, 0x106AA070] +
    [0x19A4C116, 0x1E376C08, 0x2748774C, 0x34B0BCB5, 0x391C0CB3, 0x4ED8AA4A, 0x5B9CCA4F, 0x682E6FF3] +
    [0x748F82EE, 0x78A5636F, 0x84C87814, 0x8CC70208, 0x90BEFFFA, 0xA4506CEB, 0xBEF9A3F7, 0xC67178F2]

  const INITIAL: seq<Word> := [
    0x6A09E667, 0xBB67AE85, 0x3C6EF372, 0xA54FF53A, 0x510E527F, 0x9B05688C, 0x1F83D9AB, 0x5BE0CD19]

  /** The message schedule of a 64-byte block. */
  function Schedule(block: Bytes, t: nat): Word
    requires |block| == 64
  {
    if t < 16 then WordOf(block[4 * t], block[4 * t + 1], block[4 * t + 2], block[4 * t + 3])
    else Mix(Schedule(block, t - 2), Schedule(block, t - 7), Schedule(block, t - 15), Schedule(block, t - 16))
  }

  function Mix(w2: Word, w7: Word, w15: Word, w16: Word): Word {
    Sum(Sum(Sum(SmallSigma1(w2), w7), SmallSigma0(w15)), w16)
  }

  function Temp1(v: seq<Word>, k: Word, w: Word): Word
    requires |v| == 8
  {
    Sum(Sum(Sum(Sum(v[7], BigSigma1(v[4])), Ch(v[4], v[5], v[6])), k), w)
  }

  function Temp2(v: seq<Word>): Word
    requires |v| == 8
  {
    Sum(BigSigma0(v[0]), Maj(v[0], v[1], v[2]))
  }

  /** One round: the eight working variables shift by one place. */
  function Round(v: seq<Word>, k: Word, w: Word): (r: seq<Word>)
    requires |v| == 8
    ensures |r| == 8
  {
    var t1 := Temp1(v, k, w);
    [Sum(t1, Temp2(v)), v[0], v[1], v[2], Sum(v[3], t1), v[4], v[5], v[6]]
  }

  function Rounds(v: seq<Word>, block: Bytes, t: nat): (r: seq<Word>)
    requires |v| == 8 && |block| == 64 && t <= 64
    ensures |r| == 8
  {
    if t == 0 then v else Round(Rounds(v, block, t - 1), K[t - 1], Schedule(block, t - 1))
  }

  function Compress(h: seq<Word>, block: Bytes): (r: seq<Word>)
    requires |h| == 8 && |block| == 64
    ensures |r| == 8
  {
    var v := Rounds(h, block, 64);
    seq(8, i requires 0 <= i < 8 => Sum(h[i], v[i]))
  }

  /** The hash of whole blocks. */
  function Fold(blocks: Bytes): (h: seq<Word>)
    requires |blocks| % 64 == 0
    ensures |h| == 8
    decreases |blocks|
  {
    if blocks == [] then INITIAL
    else Compress(Fold(blocks[..|blocks| - 64]), blocks[|blocks| - 64..])
  }

  function Digest(msg: Bytes): Bytes {
    Serialize(Fold(Pad(msg)))
  }
}
