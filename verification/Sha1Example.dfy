/** Where the constants of SHA-1 come from, and SHA-1 of "abc", the first example that NIST
    gives for FIPS 180-4, computed by the definitions of the standard round by round. */
module Sha1Example {
  import opened HashCommon
  import opened Sha1Spec
  import opened HashExample

  // ----- Section 4.2.1 -----

  /** The integer part of 2^30 times the square root of p. */
  predicate Root(p: nat, k: Word) {
    var r := k as nat;
    r * r <= p * 0x1000_0000_0000_0000 < (r + 1) * (r + 1)
  }

  lemma RoundConstants(t: nat)
    requires t < 80
    ensures Root(if t < 20 then 2 else if t < 40 then 3 else if t < 60 then 5 else 10, K(t))
  {
  }

  // ----- The schedule -----

  ghost predicate Scheduled(b: Bytes, t: nat, w: Word)
    requires |b| == 64
  {
    Schedule(b, t) == w
  }

  lemma Words0(b: Bytes)
    requires b == Block()
    ensures Scheduled(b, 0, 0x61626380) && Scheduled(b, 15, 0x00000018) && forall t :: 0 < t < 15 ==> Scheduled(b, t, 0)
  {
    hide WordOf;
    BlockWords(b);
  }

  lemma Word(b: Bytes, t: nat, w3: Word, w8: Word, w14: Word, w16: Word, w: Word)
    requires |b| == 64 && 16 <= t && Scheduled(b, t - 3, w3) && Scheduled(b, t - 8, w8)
    requires Scheduled(b, t - 14, w14) && Scheduled(b, t - 16, w16) && Mix(w3, w8, w14, w16) == w
    ensures Scheduled(b, t, w)
  {
    hide Mix, WordOf;
  }

  lemma Words2(b: Bytes)
    requires b == Block()
    ensures Scheduled(b, 16, 0xC2C4C700) && Scheduled(b, 17, 0x00000000) && Scheduled(b, 18, 0x00000030) && Scheduled(b, 19, 0x85898E01)
    ensures Scheduled(b, 20, 0x00000000) && Scheduled(b, 21, 0x00000060) && Scheduled(b, 22, 0x0B131C03) && Scheduled(b, 23, 0x00000030)
  {
    hide Scheduled, Block;
    Words0(b);
    Word(b, 16, 0x00000000, 0x00000000, 0x00000000, 0x61626380, 0xC2C4C700);
    Word(b, 17, 0x00000000, 0x00000000, 0x00000000, 0x00000000, 0x00000000);
    Word(b, 18, 0x00000018, 0x00000000, 0x00000000, 0x00000000, 0x00000030);
    Word(b, 19, 0xC2C4C700, 0x00000000, 0x00000000, 0x00000000, 0x85898E01);
    Word(b, 20, 0x00000000, 0x00000000, 0x00000000, 0x00000000, 0x00000000);
    Word(b, 21, 0x00000030, 0x00000000, 0x00000000, 0x00000000, 0x00000060);
    Word(b, 22, 0x85898E01, 0x00000000, 0x00000000, 0x00000000, 0x0B131C03);
    Word(b, 23, 0x00000000, 0x00000018, 0x00000000, 0x00000000, 0x00000030);
  }

  lemma Words3(b: Bytes)
    requires b == Block()
    ensures Scheduled(b, 24, 0x85898EC1) && Scheduled(b, 25, 0x16263806) && Scheduled(b, 26, 0x00000000) && Scheduled(b, 27, 0x00000180)
    ensures Scheduled(b, 28, 0x2C4C700C) && Scheduled(b, 29, 0x000000F0) && Scheduled(b, 30, 0x93AFB507) && Scheduled(b, 31, 0x5898E048)
  {
    hide Scheduled, Block;
    Words0(b);
    Words2(b);
    Word(b, 24, 0x00000060, 0xC2C4C700, 0x00000000, 0x00000000, 0x85898EC1);
    Word(b, 25, 0x0B131C03, 0x00000000, 0x00000000, 0x00000000, 0x16263806);
    Word(b, 26, 0x00000030, 0x00000030, 0x00000000, 0x00000000, 0x00000000);
    Word(b, 27, 0x85898EC1, 0x85898E01, 0x00000000, 0x00000000, 0x00000180);
    Word(b, 28, 0x16263806, 0x00000000, 0x00000000, 0x00000000, 0x2C4C700C);
    Word(b, 29, 0x00000000, 0x00000060, 0x00000018, 0x00000000, 0x000000F0);
    Word(b, 30, 0x00000180, 0x0B131C03, 0xC2C4C700, 0x00000000, 0x93AFB507);
    Word(b, 31, 0x2C4C700C, 0x00000030, 0x00000000, 0x00000018, 0x5898E048);
  }

  lemma Words4(b: Bytes)
    requires b == Block()
    ensures Scheduled(b, 32, 0x8E9A9202) && Scheduled(b, 33, 0x00000600) && Scheduled(b, 34, 0xB131C0F0) && Scheduled(b, 35, 0x16263BC6)
    ensures Scheduled(b, 36, 0x4EBED41E) && Scheduled(b, 37, 0x626380A1) && Scheduled(b, 38, 0x16263806) && Scheduled(b, 39, 0x000018C0)
  {
    hide Scheduled, Block;
    Words2(b);
    Words3(b);
    Word(b, 32, 0x000000F0, 0x85898EC1, 0x00000030, 0xC2C4C700, 0x8E9A9202);
    Word(b, 33, 0x93AFB507, 0x16263806, 0x85898E01, 0x00000000, 0x00000600);
    Word(b, 34, 0x5898E048, 0x00000000, 0x00000000, 0x00000030, 0xB131C0F0);
    Word(b, 35, 0x8E9A9202, 0x00000180, 0x00000060, 0x85898E01, 0x16263BC6);
    Word(b, 36, 0x00000600, 0x2C4C700C, 0x0B131C03, 0x00000000, 0x4EBED41E);
    Word(b, 37, 0xB131C0F0, 0x000000F0, 0x00000030, 0x00000060, 0x626380A1);
    Word(b, 38, 0x16263BC6, 0x93AFB507, 0x85898EC1, 0x0B131C03, 0x16263806);
    Word(b, 39, 0x4EBED41E, 0x5898E048, 0x16263806, 0x00000030, 0x000018C0);
  }

  lemma Words5(b: Bytes)
    requires b == Block()
    ensures Scheduled(b, 40, 0xD2E138C4) && Scheduled(b, 41, 0x00000F00) && Scheduled(b, 42, 0x3AFB5079) && Scheduled(b, 43, 0x898E04E5)
    ensures Scheduled(b, 44, 0xE2BA3C2B) && Scheduled(b, 45, 0x000060C0) && Scheduled(b, 46, 0x053A37CD) && Scheduled(b, 47, 0x74458547)
  {
    hide Scheduled, Block;
    Words3(b);
    Words4(b);
    Word(b, 40, 0x626380A1, 0x8E9A9202, 0x00000000, 0x85898EC1, 0xD2E138C4);
    Word(b, 41, 0x16263806, 0x00000600, 0x00000180, 0x16263806, 0x00000F00);
    Word(b, 42, 0x000018C0, 0xB131C0F0, 0x2C4C700C, 0x00000000, 0x3AFB5079);
    Word(b, 43, 0xD2E138C4, 0x16263BC6, 0x000000F0, 0x00000180, 0x898E04E5);
    Word(b, 44, 0x00000F00, 0x4EBED41E, 0x93AFB507, 0x2C4C700C, 0xE2BA3C2B);
    Word(b, 45, 0x3AFB5079, 0x626380A1, 0x5898E048, 0x000000F0, 0x000060C0);
    Word(b, 46, 0x898E04E5, 0x16263806, 0x8E9A9202, 0x93AFB507, 0x053A37CD);
    Word(b, 47, 0xE2BA3C2B, 0x000018C0, 0x00000600, 0x5898E048, 0x74458547);
  }

  lemma Words6(b: Bytes)
    requires b == Block()
    ensures Scheduled(b, 48, 0xDA9415ED) && Scheduled(b, 49, 0x26380A16) && Scheduled(b, 50, 0x626383A1) && Scheduled(b, 51, 0x4EBF54DE)
    ensures Scheduled(b, 52, 0x3835B44B) && Scheduled(b, 53, 0x0000F600) && Scheduled(b, 54, 0x1E84C7A3) && Scheduled(b, 55, 0x98E04D98)
  {
    hide Scheduled, Block;
    Words4(b);
    Words5(b);
    Word(b, 48, 0x000060C0, 0xD2E138C4, 0xB131C0F0, 0x8E9A9202, 0xDA9415ED);
    Word(b, 49, 0x053A37CD, 0x00000F00, 0x16263BC6, 0x00000600, 0x26380A16);
    Word(b, 50, 0x74458547, 0x3AFB5079, 0x4EBED41E, 0xB131C0F0, 0x626383A1);
    Word(b, 51, 0xDA9415ED, 0x898E04E5, 0x626380A1, 0x16263BC6, 0x4EBF54DE);
    Word(b, 52, 0x26380A16, 0xE2BA3C2B, 0x16263806, 0x4EBED41E, 0x3835B44B);
    Word(b, 53, 0x626383A1, 0x000060C0, 0x000018C0, 0x626380A1, 0x0000F600);
    Word(b, 54, 0x4EBF54DE, 0x053A37CD, 0xD2E138C4, 0x16263806, 0x1E84C7A3);
    Word(b, 55, 0x3835B44B, 0x74458547, 0x00000F00, 0x000018C0, 0x98E04D98);
  }

  lemma Words7(b: Bytes)
    requires b == Block()
    ensures Scheduled(b, 56, 0x651D16A0) && Scheduled(b, 57, 0x62658CA1) && Scheduled(b, 58, 0x458544D6) && Scheduled(b, 59, 0x44584CB7)
    ensures Scheduled(b, 60, 0x7BA06619) && Scheduled(b, 61, 0x6380AEA2) && Scheduled(b, 62, 0x0AE55269) && Scheduled(b, 63, 0x627B49A1)
  {
    hide Scheduled, Block;
    Words5(b);
    Words6(b);
    Word(b, 56, 0x0000F600, 0xDA9415ED, 0x3AFB5079, 0xD2E138C4, 0x651D16A0);
    Word(b, 57, 0x1E84C7A3, 0x26380A16, 0x898E04E5, 0x00000F00, 0x62658CA1);
    Word(b, 58, 0x98E04D98, 0x626383A1, 0xE2BA3C2B, 0x3AFB5079, 0x458544D6);
    Word(b, 59, 0x651D16A0, 0x4EBF54DE, 0x000060C0, 0x898E04E5, 0x44584CB7);
    Word(b, 60, 0x62658CA1, 0x3835B44B, 0x053A37CD, 0xE2BA3C2B, 0x7BA06619);
    Word(b, 61, 0x458544D6, 0x0000F600, 0x74458547, 0x000060C0, 0x6380AEA2);
    Word(b, 62, 0x44584CB7, 0x1E84C7A3, 0xDA9415ED, 0x053A37CD, 0x0AE55269);
    Word(b, 63, 0x7BA06619, 0x98E04D98, 0x26380A16, 0x74458547, 0x627B49A1);
  }

  lemma Words8(b: Bytes)
    requires b == Block()
    ensures Scheduled(b, 64, 0x7CD45C9D) && Scheduled(b, 65, 0x000F0000) && Scheduled(b, 66, 0xFB50753A) && Scheduled(b, 67, 0xEC6765E8)
    ensures Scheduled(b, 68, 0xBA3C2BE2) && Scheduled(b, 69, 0x0060C000) && Scheduled(b, 70, 0x3A37CD05) && Scheduled(b, 71, 0x458546F4)
  {
    hide Scheduled, Block;
    Words6(b);
    Words7(b);
    Word(b, 64, 0x6380AEA2, 0x651D16A0, 0x626383A1, 0xDA9415ED, 0x7CD45C9D);
    Word(b, 65, 0x0AE55269, 0x62658CA1, 0x4EBF54DE, 0x26380A16, 0x000F0000);
    Word(b, 66, 0x627B49A1, 0x458544D6, 0x3835B44B, 0x626383A1, 0xFB50753A);
    Word(b, 67, 0x7CD45C9D, 0x44584CB7, 0x0000F600, 0x4EBF54DE, 0xEC6765E8);
    Word(b, 68, 0x000F0000, 0x7BA06619, 0x1E84C7A3, 0x3835B44B, 0xBA3C2BE2);
    Word(b, 69, 0xFB50753A, 0x6380AEA2, 0x98E04D98, 0x0000F600, 0x0060C000);
    Word(b, 70, 0xEC6765E8, 0x0AE55269, 0x651D16A0, 0x1E84C7A3, 0x3A37CD05);
    Word(b, 71, 0xBA3C2BE2, 0x627B49A1, 0x62658CA1, 0x98E04D98, 0x458546F4);
  }

  lemma Words9(b: Bytes)
    requires b == Block()
    ensures Scheduled(b, 72, 0xB8599DD6) && Scheduled(b, 73, 0x380A1A26) && Scheduled(b, 74, 0x01E02203) && Scheduled(b, 75, 0xE7CC3456)
    ensures Scheduled(b, 76, 0xE6E60B69) && Scheduled(b, 77, 0x00F60A00) && Scheduled(b, 78, 0x5795EF4F) && Scheduled(b, 79, 0x822E0879)
  {
    hide Scheduled, Block;
    Words7(b);
    Words8(b);
    Word(b, 72, 0x0060C000, 0x7CD45C9D, 0x458544D6, 0x651D16A0, 0xB8599DD6);
    Word(b, 73, 0x3A37CD05, 0x000F0000, 0x44584CB7, 0x62658CA1, 0x380A1A26);
    Word(b, 74, 0x458546F4, 0xFB50753A, 0x7BA06619, 0x458544D6, 0x01E02203);
    Word(b, 75, 0xB8599DD6, 0xEC6765E8, 0x6380AEA2, 0x44584CB7, 0xE7CC3456);
    Word(b, 76, 0x380A1A26, 0xBA3C2BE2, 0x0AE55269, 0x7BA06619, 0xE6E60B69);
    Word(b, 77, 0x01E02203, 0x0060C000, 0x627B49A1, 0x6380AEA2, 0x00F60A00);
    Word(b, 78, 0xE7CC3456, 0x3A37CD05, 0x7CD45C9D, 0x0AE55269, 0x5795EF4F);
    Word(b, 79, 0xE6E60B69, 0x458546F4, 0x000F0000, 0x627B49A1, 0x822E0879);
  }

  // ----- The rounds -----

  function First(t: nat, a: Word, b: Word, c: Word, d: Word, e: Word, w: Word): Word {
    Sum(Sum(Sum(Sum(Rotl5(a), F(t, b, c, d)), e), K(t)), w)
  }

  /** One round computes one new variable and rotates another. */
  lemma Turn(b: Bytes, t: nat, v: seq<Word>, w: Word, a: Word, c: Word) returns (v': seq<Word>)
    requires |b| == 64 && |v| == 5 && Rounds(INITIAL, b, t) == v && Scheduled(b, t, w)
    requires First(t, v[0], v[1], v[2], v[3], v[4], w) == a && Rotl30(v[1]) == c
    ensures v' == [a, v[0], c, v[2], v[3]] && Rounds(INITIAL, b, t + 1) == v'
  {
    hide Sum, Rotl5, Rotl30, F, K, Schedule;
    v' := [a, v[0], c, v[2], v[3]];
  }

  lemma Rounds0(b: Bytes)
    requires b == Block()
    ensures Rounds(INITIAL, b, 8) == [0x9E8C07D4, 0x993E30C1, 0x0FF1F290, 0xB3F52677, 0xF3763846]
  {
    hide Scheduled, Block;
    Words0(b);
    var v := [0x67452301, 0xEFCDAB89, 0x98BADCFE, 0x10325476, 0xC3D2E1F0];
    v := Turn(b, 0, v, 0x61626380, 0x0116FC33, 0x7BF36AE2);
    v := Turn(b, 1, v, 0x00000000, 0x8990536D, 0x59D148C0);
    v := Turn(b, 2, v, 0x00000000, 0xA1390F08, 0xC045BF0C);
    v := Turn(b, 3, v, 0x00000000, 0xCDD8E11B, 0x626414DB);
    v := Turn(b, 4, v, 0x00000000, 0xCFD499DE, 0x284E43C2);
    v := Turn(b, 5, v, 0x00000000, 0x3FC7CA40, 0xF3763846);
    v := Turn(b, 6, v, 0x00000000, 0x993E30C1, 0xB3F52677);
    v := Turn(b, 7, v, 0x00000000, 0x9E8C07D4, 0x0FF1F290);
  }

  lemma Rounds1(b: Bytes)
    requires b == Block()
    ensures Rounds(INITIAL, b, 16) == [0x20BDD62F, 0x196BEE77, 0x644A3DA5, 0x1181ED99, 0x18C623F9]
  {
    hide Scheduled, Block, Rounds;
    Words0(b);
    Rounds0(b);
    var v := [0x9E8C07D4, 0x993E30C1, 0x0FF1F290, 0xB3F52677, 0xF3763846];
    v := Turn(b, 8, v, 0x00000000, 0x4B6AE328, 0x664F8C30);
    v := Turn(b, 9, v, 0x00000000, 0x8351F929, 0x27A301F5);
    v := Turn(b, 10, v, 0x00000000, 0xFBDA9E89, 0x12DAB8CA);
    v := Turn(b, 11, v, 0x00000000, 0x63188FE4, 0x60D47E4A);
    v := Turn(b, 12, v, 0x00000000, 0x4607B664, 0x7EF6A7A2);
    v := Turn(b, 13, v, 0x00000000, 0x9128F695, 0x18C623F9);
    v := Turn(b, 14, v, 0x00000000, 0x196BEE77, 0x1181ED99);
    v := Turn(b, 15, v, 0x00000018, 0x20BDD62F, 0x644A3DA5);
  }

  lemma Rounds2(b: Bytes)
    requires b == Block()
    ensures Rounds(INITIAL, b, 24) == [0xD541F12D, 0x21283486, 0x0CE88EFF, 0x868DEC32, 0x7F67875F]
  {
    hide Scheduled, Block, Rounds;
    Words2(b);
    Rounds1(b);
    var v := [0x20BDD62F, 0x196BEE77, 0x644A3DA5, 0x1181ED99, 0x18C623F9];
    v := Turn(b, 16, v, 0xC2C4C700, 0x4E925823, 0xC65AFB9D);
    v := Turn(b, 17, v, 0x00000000, 0x82AA6728, 0xC82F758B);
    v := Turn(b, 18, v, 0x00000030, 0xDC64901D, 0xD3A49608);
    v := Turn(b, 19, v, 0x85898E01, 0xFD9E1D7D, 0x20AA99CA);
    v := Turn(b, 20, v, 0x00000000, 0x1A37B0CA, 0x77192407);
    v := Turn(b, 21, v, 0x00000060, 0x33A23BFC, 0x7F67875F);
    v := Turn(b, 22, v, 0x0B131C03, 0x21283486, 0x868DEC32);
    v := Turn(b, 23, v, 0x00000030, 0xD541F12D, 0x0CE88EFF);
  }

  lemma Rounds3(b: Bytes)
    requires b == Block()
    ensures Rounds(INITIAL, b, 32) == [0x3B845D33, 0x1267B407, 0x717EEBD7, 0xA0DC2D4B, 0xD2AA1365]
  {
    hide Scheduled, Block, Rounds;
    Words3(b);
    Rounds2(b);
    var v := [0xD541F12D, 0x21283486, 0x0CE88EFF, 0x868DEC32, 0x7F67875F];
    v := Turn(b, 24, v, 0x85898EC1, 0xC7567DC6, 0x884A0D21);
    v := Turn(b, 25, v, 0x16263806, 0x48413BA4, 0x75507C4B);
    v := Turn(b, 26, v, 0x00000000, 0xBE35FBD5, 0xB1D59F71);
    v := Turn(b, 27, v, 0x00000180, 0x4AA84D97, 0x12104EE9);
    v := Turn(b, 28, v, 0x2C4C700C, 0x8370B52E, 0x6F8D7EF5);
    v := Turn(b, 29, v, 0x000000F0, 0xC5FBAF5D, 0xD2AA1365);
    v := Turn(b, 30, v, 0x93AFB507, 0x1267B407, 0xA0DC2D4B);
    v := Turn(b, 31, v, 0x5898E048, 0x3B845D33, 0x717EEBD7);
  }

  lemma Rounds4(b: Bytes)
    requires b == Block()
    ensures Rounds(INITIAL, b, 40) == [0x32DE1CBA, 0x4C986405, 0xF718E5CF, 0x03D447F6, 0xF72EEC32]
  {
    hide Scheduled, Block, Rounds;
    Words4(b);
    Rounds3(b);
    var v := [0x3B845D33, 0x1267B407, 0x717EEBD7, 0xA0DC2D4B, 0xD2AA1365];
    v := Turn(b, 32, v, 0x8E9A9202, 0x046FAA0A, 0xC499ED01);
    v := Turn(b, 33, v, 0x00000600, 0x2C0EBC11, 0xCEE1174C);
    v := Turn(b, 34, v, 0xB131C0F0, 0x21796AD4, 0x811BEA82);
    v := Turn(b, 35, v, 0x16263BC6, 0xDCBBB0CB, 0x4B03AF04);
    v := Turn(b, 36, v, 0x4EBED41E, 0x0F511FD8, 0x085E5AB5);
    v := Turn(b, 37, v, 0x626380A1, 0xDC63973F, 0xF72EEC32);
    v := Turn(b, 38, v, 0x16263806, 0x4C986405, 0x03D447F6);
    v := Turn(b, 39, v, 0x000018C0, 0x32DE1CBA, 0xF718E5CF);
  }

  lemma Rounds5(b: Bytes)
    requires b == Block()
    ensures Rounds(INITIAL, b, 48) == [0xBEAD02CA, 0xA01B846C, 0x8714787C, 0x503CA382, 0xFB86C6AB]
  {
    hide Scheduled, Block, Rounds;
    Words5(b);
    Rounds4(b);
    var v := [0x32DE1CBA, 0x4C986405, 0xF718E5CF, 0x03D447F6, 0xF72EEC32];
    v := Turn(b, 40, v, 0xD2E138C4, 0xFC87DEDF, 0x53261901);
    v := Turn(b, 41, v, 0x00000F00, 0x970A0D5C, 0x8CB7872E);
    v := Turn(b, 42, v, 0x3AFB5079, 0x7F193DC5, 0xFF21F7B7);
    v := Turn(b, 43, v, 0x898E04E5, 0xEE1B1AAF, 0x25C28357);
    v := Turn(b, 44, v, 0xE2BA3C2B, 0x40F28E09, 0x5FC64F71);
    v := Turn(b, 45, v, 0x000060C0, 0x1C51E1F2, 0xFB86C6AB);
    v := Turn(b, 46, v, 0x053A37CD, 0xA01B846C, 0x503CA382);
    v := Turn(b, 47, v, 0x74458547, 0xBEAD02CA, 0x8714787C);
  }

  lemma Rounds6(b: Bytes)
    requires b == Block()
    ensures Rounds(INITIAL, b, 56) == [0x5E6456AF, 0x7B71F76D, 0x09FA7C76, 0x792410DB, 0x8E11EB59]
  {
    hide Scheduled, Block, Rounds;
    Words6(b);
    Rounds5(b);
    var v := [0xBEAD02CA, 0xA01B846C, 0x8714787C, 0x503CA382, 0xFB86C6AB];
    v := Turn(b, 48, v, 0xDA9415ED, 0xBAF39337, 0x2806E11B);
    v := Turn(b, 49, v, 0x26380A16, 0x120731C5, 0xAFAB40B2);
    v := Turn(b, 50, v, 0x626383A1, 0x641DB2CE, 0xEEBCE4CD);
    v := Turn(b, 51, v, 0x4EBF54DE, 0x3847AD66, 0x4481CC71);
    v := Turn(b, 52, v, 0x3835B44B, 0xE490436D, 0x99076CB3);
    v := Turn(b, 53, v, 0x0000F600, 0x27E9F1D8, 0x8E11EB59);
    v := Turn(b, 54, v, 0x1E84C7A3, 0x7B71F76D, 0x792410DB);
    v := Turn(b, 55, v, 0x98E04D98, 0x5E6456AF, 0x09FA7C76);
  }

  lemma Rounds7(b: Bytes)
    requires b == Block()
    ensures Rounds(INITIAL, b, 64) == [0x6B61C9E1, 0xB66C020B, 0x9523272C, 0xF5D5B051, 0x8FD4B796]
  {
    hide Scheduled, Block, Rounds;
    Words7(b);
    Rounds6(b);
    var v := [0x5E6456AF, 0x7B71F76D, 0x09FA7C76, 0x792410DB, 0x8E11EB59];
    v := Turn(b, 56, v, 0x651D16A0, 0xC846093F, 0x5EDC7DDB);
    v := Turn(b, 57, v, 0x62658CA1, 0xD262FF50, 0xD79915AB);
    v := Turn(b, 58, v, 0x458544D6, 0x09D785FD, 0xF211824F);
    v := Turn(b, 59, v, 0x44584CB7, 0x3F52DE5A, 0x3498BFD4);
    v := Turn(b, 60, v, 0x7BA06619, 0xD756C147, 0x4275E17F);
    v := Turn(b, 61, v, 0x6380AEA2, 0x548C9CB2, 0x8FD4B796);
    v := Turn(b, 62, v, 0x0AE55269, 0xB66C020B, 0xF5D5B051);
    v := Turn(b, 63, v, 0x627B49A1, 0x6B61C9E1, 0x9523272C);
  }

  lemma Rounds8(b: Bytes)
    requires b == Block()
    ensures Rounds(INITIAL, b, 72) == [0x39859DE7, 0xC199F8C7, 0x8FC96230, 0x125C24F0, 0xDE37534A]
  {
    hide Scheduled, Block, Rounds;
    Words8(b);
    Rounds7(b);
    var v := [0x6B61C9E1, 0xB66C020B, 0x9523272C, 0xF5D5B051, 0x8FD4B796];
    v := Turn(b, 64, v, 0x7CD45C9D, 0x19DFA7AC, 0xED9B0082);
    v := Turn(b, 65, v, 0x000F0000, 0x101655F9, 0x5AD87278);
    v := Turn(b, 66, v, 0xFB50753A, 0x0C3DF2B4, 0x0677E9EB);
    v := Turn(b, 67, v, 0xEC6765E8, 0x78DD4D2B, 0x4405957E);
    v := Turn(b, 68, v, 0xBA3C2BE2, 0x497093C0, 0x030F7CAD);
    v := Turn(b, 69, v, 0x0060C000, 0x3F2588C2, 0xDE37534A);
    v := Turn(b, 70, v, 0x3A37CD05, 0xC199F8C7, 0x125C24F0);
    v := Turn(b, 71, v, 0x458546F4, 0x39859DE7, 0x8FC96230);
  }

  lemma Rounds9(b: Bytes)
    requires b == Block()
    ensures Rounds(INITIAL, b, 80) == [0x42541B35, 0x5738D5E1, 0x21834873, 0x681E6DF6, 0xD8FDF6AD]
  {
    hide Scheduled, Block, Rounds;
    Words9(b);
    Rounds8(b);
    var v := [0x39859DE7, 0xC199F8C7, 0x8FC96230, 0x125C24F0, 0xDE37534A];
    v := Turn(b, 72, v, 0xB8599DD6, 0xEDB42DE4, 0xF0667E31);
    v := Turn(b, 73, v, 0x380A1A26, 0x11793F6F, 0xCE616779);
    v := Turn(b, 74, v, 0x01E02203, 0x5EE76897, 0x3B6D0B79);
    v := Turn(b, 75, v, 0xE7CC3456, 0x63F7DAB7, 0xC45E4FDB);
    v := Turn(b, 76, v, 0xE6E60B69, 0xA079B7D9, 0xD7B9DA25);
    v := Turn(b, 77, v, 0x00F60A00, 0x860D21CC, 0xD8FDF6AD);
    v := Turn(b, 78, v, 0x5795EF4F, 0x5738D5E1, 0x681E6DF6);
    v := Turn(b, 79, v, 0x822E0879, 0x42541B35, 0x21834873);
  }

  lemma Hashed(b: Bytes)
    requires b == Block()
    ensures Compress(INITIAL, b) == [0xA9993E36, 0x4706816A, 0xBA3E2571, 0x7850C26C, 0x9CD0D89D]
  {
    hide Rounds, Block;
    Rounds9(b);
  }

  /** The digest of "abc" is these five words, most significant byte first. */
  lemma AbcDigest()
    ensures Digest(ABC) == Serialize([0xA9993E36, 0x4706816A, 0xBA3E2571, 0x7850C26C, 0x9CD0D89D])
  {
    hide Compress, Block, Pad, Serialize;
    var b := Block();
    Padded();
    Hashed(b);
    assert b[..0] == [] && b[0..] == b;
    assert Fold(b) == Compress(INITIAL, b);
  }
}
