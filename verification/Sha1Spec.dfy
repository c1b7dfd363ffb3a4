/** The hash of FIPS 180-4 section 6.1.2: an 80-word schedule and five shifting variables. */
module Sha1Spec {
  import opened HashCommon

  const INITIAL: seq<Word> := [0x67452301, 0xEFCDAB89, 0x98BADCFE, 0x10325476, 0xC3D2E1F0]

  function Rotl1(x: Word): Word { (x << 1) | (x >> 31) }
  function Rotl5(x: Word): Word { (x << 5) | (x >> 27) }
  function Rotl30(x: Word): Word { (x << 30) | (x >> 2) }

  // ----- Section 4.1.1 -----

  function Ch(x: Word, y: Word, z: Word): Word { (x & y) ^ (!x & z) }
  function Parity(x: Word, y: Word, z: Word): Word { x ^ y ^ z }
  function Maj(x: Word, y: Word, z: Word): Word { (x & y) ^ (x & z) ^ (y & z) }

  function F(t: nat, x: Word, y: Word, z: Word): Word {
    if t < 20 then Ch(x, y, z) else if 40 <= t < 60 then Maj(x, y, z) else Parity(x, y, z)
  }

  /** Section 4.2.1. */
  function K(t: nat): Word {
    if t < 20 then 0x5A827999 else if t < 40 then 0x6ED9EBA1 else if t < 60 then 0x8F1BBCDC else 0xCA62C1D6
  }

  function Schedule(block: Bytes, t: nat): Word
    requires |block| == 64
  {
    if t < 16 then WordOf(block[4 * t], block[4 * t + 1], block[4 * t + 2], block[4 * t + 3])
    else Mix(Schedule(block, t - 3), Schedule(block, t - 8), Schedule(block, t - 14), Schedule(block, t - 16))
  }

  function Mix(w3: Word, w8: Word, w14: Word, w16: Word): Word {
    Rotl1(w3 ^ w8 ^ w14 ^ w16)
  }

  /** One round: the five working variables shift by one place. */
  function Round(v: seq<Word>, t: nat, w: Word): (r: seq<Word>)
    requires |v| == 5
    ensures |r| == 5
  {
    [Temp(v, t, w), v[0], Rotl30(v[1]), v[2], v[3]]
  }

  function Temp(v: seq<Word>, t: nat, w: Word): Word
    requires |v| == 5
  {
    Sum(Sum(Sum(Sum(Rotl5(v[0]), F(t, v[1], v[2], v[3])), v[4]), K(t)), w)
  }

  function Rounds(v: seq<Word>, block: Bytes, t: nat): (r: seq<Word>)
    requires |v| == 5 && |block| == 64
    ensures |r| == 5
  {
    if t == 0 then v else Round(Rounds(v, block, t - 1), t - 1, Schedule(block, t - 1))
  }

  function Compress(h: seq<Word>, block: Bytes): (r: seq<Word>)
    requires |h| == 5 && |block| == 64
    ensures |r| == 5
  {
    var v := Rounds(h, block, 80);
    [Sum(h[0], v[0]), Sum(h[1], v[1]), Sum(h[2], v[2]), Sum(h[3], v[3]), Sum(h[4], v[4])]
  }

  /** The hash of whole blocks. */
  function Fold(blocks: Bytes): (h: seq<Word>)
    requires |blocks| % 64 == 0
    ensures |h| == 5
    decreases |blocks|
  {
    if blocks == [] then INITIAL
    else Compress(Fold(blocks[..|blocks| - 64]), blocks[|blocks| - 64..])
  }

  function Digest(msg: Bytes): Bytes {
    Serialize(Fold(Pad(msg)))
  }
}
