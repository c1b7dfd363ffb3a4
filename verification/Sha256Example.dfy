/** SHA-256 of "abc", the first example that NIST gives for FIPS 180-4, computed by the
    definitions of the standard round by round. */
module Sha256Example {
  import opened HashCommon
  import opened Sha256Words
  import opened Sha256Spec
  import opened Sha256Constants
  import opened HashExample

  // ----- The schedule -----

  ghost predicate Scheduled(b: Bytes, t: nat, w: Word)
    requires |b| == 64
  {
    Schedule(b, t) == w
  }

  lemma Words0(b: Bytes)
    requires b == Block()
    ensures Scheduled(b, 0, 0x61626380) && Scheduled(b, 15, 0x00000018) && forall t :: 0 < t < 15 ==> Scheduled(b, t, 0)
  {
    hide WordOf;
    BlockWords(b);
  }

  lemma Words2(b: Bytes)
    requires b == Block()
    ensures Scheduled(b, 16, 0x61626380) && Scheduled(b, 17, 0x000F0000) && Scheduled(b, 18, 0x7DA86405) && Scheduled(b, 19, 0x600003C6)
    ensures Scheduled(b, 20, 0x3E9D7B78) && Scheduled(b, 21, 0x0183FC00) && Scheduled(b, 22, 0x12DCBFDB) && Scheduled(b, 23, 0xE2E2C38E)
  {
    hide Scheduled, Block;
    Words0(b);
    Word(b, 16, 0x00000000, 0x00000000, 0x00000000, 0x61626380, 0x61626380);
    Word(b, 17, 0x00000018, 0x00000000, 0x00000000, 0x00000000, 0x000F0000);
    Word(b, 18, 0x61626380, 0x00000000, 0x00000000, 0x00000000, 0x7DA86405);
    Word(b, 19, 0x000F0000, 0x00000000, 0x00000000, 0x00000000, 0x600003C6);
    Word(b, 20, 0x7DA86405, 0x00000000, 0x00000000, 0x00000000, 0x3E9D7B78);
    Word(b, 21, 0x600003C6, 0x00000000, 0x00000000, 0x00000000, 0x0183FC00);
    Word(b, 22, 0x3E9D7B78, 0x00000018, 0x00000000, 0x00000000, 0x12DCBFDB);
    Word(b, 23, 0x0183FC00, 0x61626380, 0x00000000, 0x00000000, 0xE2E2C38E);
  }

  lemma Words3(b: Bytes)
    requires b == Block()
    ensures Scheduled(b, 24, 0xC8215C1A) && Scheduled(b, 25, 0xB73679A2) && Scheduled(b, 26, 0xE5BC3909) && Scheduled(b, 27, 0x32663C5B)
    ensures Scheduled(b, 28, 0x9D209D67) && Scheduled(b, 29, 0xEC8726CB) && Scheduled(b, 30, 0x702138A4) && Scheduled(b, 31, 0xD3B7973B)
  {
    hide Scheduled, Block;
    Words0(b);
    Words2(b);
    Word(b, 24, 0x12DCBFDB, 0x000F0000, 0x00000000, 0x00000000, 0xC8215C1A);
    Word(b, 25, 0xE2E2C38E, 0x7DA86405, 0x00000000, 0x00000000, 0xB73679A2);
    Word(b, 26, 0xC8215C1A, 0x600003C6, 0x00000000, 0x00000000, 0xE5BC3909);
    Word(b, 27, 0xB73679A2, 0x3E9D7B78, 0x00000000, 0x00000000, 0x32663C5B);
    Word(b, 28, 0xE5BC3909, 0x0183FC00, 0x00000000, 0x00000000, 0x9D209D67);
    Word(b, 29, 0x32663C5B, 0x12DCBFDB, 0x00000000, 0x00000000, 0xEC8726CB);
    Word(b, 30, 0x9D209D67, 0xE2E2C38E, 0x00000018, 0x00000000, 0x702138A4);
    Word(b, 31, 0xEC8726CB, 0xC8215C1A, 0x61626380, 0x00000018, 0xD3B7973B);
  }

  lemma Words4(b: Bytes)
    requires b == Block()
    ensures Scheduled(b, 32, 0x93F5997F) && Scheduled(b, 33, 0x3B68BA73) && Scheduled(b, 34, 0xAFF4FFC1) && Scheduled(b, 35, 0xF10A5C62)
    ensures Scheduled(b, 36, 0x0A8B3996) && Scheduled(b, 37, 0x72AF830A) && Scheduled(b, 38, 0x9409E33E) && Scheduled(b, 39, 0x24641522)
  {
    hide Scheduled, Block;
    Words2(b);
    Words3(b);
    Word(b, 32, 0x702138A4, 0xB73679A2, 0x000F0000, 0x61626380, 0x93F5997F);
    Word(b, 33, 0xD3B7973B, 0xE5BC3909, 0x7DA86405, 0x000F0000, 0x3B68BA73);
    Word(b, 34, 0x93F5997F, 0x32663C5B, 0x600003C6, 0x7DA86405, 0xAFF4FFC1);
    Word(b, 35, 0x3B68BA73, 0x9D209D67, 0x3E9D7B78, 0x600003C6, 0xF10A5C62);
    Word(b, 36, 0xAFF4FFC1, 0xEC8726CB, 0x0183FC00, 0x3E9D7B78, 0x0A8B3996);
    Word(b, 37, 0xF10A5C62, 0x702138A4, 0x12DCBFDB, 0x0183FC00, 0x72AF830A);
    Word(b, 38, 0x0A8B3996, 0xD3B7973B, 0xE2E2C38E, 0x12DCBFDB, 0x9409E33E);
    Word(b, 39, 0x72AF830A, 0x93F5997F, 0xC8215C1A, 0xE2E2C38E, 0x24641522);
  }

  lemma Words5(b: Bytes)
    requires b == Block()
    ensures Scheduled(b, 40, 0x9F47BF94) && Scheduled(b, 41, 0xF0A64F5A) && Scheduled(b, 42, 0x3E246A79) && Scheduled(b, 43, 0x27333BA3)
    ensures Scheduled(b, 44, 0x0C4763F2) && Scheduled(b, 45, 0x840ABF27) && Scheduled(b, 46, 0x7A290D5D) && Scheduled(b, 47, 0x065C43DA)
  {
    hide Scheduled, Block;
    Words3(b);
    Words4(b);
    Word(b, 40, 0x9409E33E, 0x3B68BA73, 0xB73679A2, 0xC8215C1A, 0x9F47BF94);
    Word(b, 41, 0x24641522, 0xAFF4FFC1, 0xE5BC3909, 0xB73679A2, 0xF0A64F5A);
    Word(b, 42, 0x9F47BF94, 0xF10A5C62, 0x32663C5B, 0xE5BC3909, 0x3E246A79);
    Word(b, 43, 0xF0A64F5A, 0x0A8B3996, 0x9D209D67, 0x32663C5B, 0x27333BA3);
    Word(b, 44, 0x3E246A79, 0x72AF830A, 0xEC8726CB, 0x9D209D67, 0x0C4763F2);
    Word(b, 45, 0x27333BA3, 0x9409E33E, 0x702138A4, 0xEC8726CB, 0x840ABF27);
    Word(b, 46, 0x0C4763F2, 0x24641522, 0xD3B7973B, 0x702138A4, 0x7A290D5D);
    Word(b, 47, 0x840ABF27, 0x9F47BF94, 0x93F5997F, 0xD3B7973B, 0x065C43DA);
  }

  lemma Words6(b: Bytes)
    requires b == Block()
    ensures Scheduled(b, 48, 0xFB3E89CB) && Scheduled(b, 49, 0xCC7617DB) && Scheduled(b, 50, 0xB9E66C34) && Scheduled(b, 51, 0xA9993667)
    ensures Scheduled(b, 52, 0x84BADEDD) && Scheduled(b, 53, 0xC21462BC) && Scheduled(b, 54, 0x1487472C) && Scheduled(b, 55, 0xB20F7A99)
  {
    hide Scheduled, Block;
    Words4(b);
    Words5(b);
    Word(b, 48, 0x7A290D5D, 0xF0A64F5A, 0x3B68BA73, 0x93F5997F, 0xFB3E89CB);
    Word(b, 49, 0x065C43DA, 0x3E246A79, 0xAFF4FFC1, 0x3B68BA73, 0xCC7617DB);
    Word(b, 50, 0xFB3E89CB, 0x27333BA3, 0xF10A5C62, 0xAFF4FFC1, 0xB9E66C34);
    Word(b, 51, 0xCC7617DB, 0x0C4763F2, 0x0A8B3996, 0xF10A5C62, 0xA9993667);
    Word(b, 52, 0xB9E66C34, 0x840ABF27, 0x72AF830A, 0x0A8B3996, 0x84BADEDD);
    Word(b, 53, 0xA9993667, 0x7A290D5D, 0x9409E33E, 0x72AF830A, 0xC21462BC);
    Word(b, 54, 0x84BADEDD, 0x065C43DA, 0x24641522, 0x9409E33E, 0x1487472C);
    Word(b, 55, 0xC21462BC, 0xFB3E89CB, 0x9F47BF94, 0x24641522, 0xB20F7A99);
  }

  lemma Words7(b: Bytes)
    requires b == Block()
    ensures Scheduled(b, 56, 0xEF57B9CD) && Scheduled(b, 57, 0xEBE6B238) && Scheduled(b, 58, 0x9FE3095E) && Scheduled(b, 59, 0x78BC8D4B)
    ensures Scheduled(b, 60, 0xA43FCF15) && Scheduled(b, 61, 0x668B2FF8) && Scheduled(b, 62, 0xEEABA2CC) && Scheduled(b, 63, 0x12B1EDEB)
  {
    hide Scheduled, Block;
    Words5(b);
    Words6(b);
    Word(b, 56, 0x1487472C, 0xCC7617DB, 0xF0A64F5A, 0x9F47BF94, 0xEF57B9CD);
    Word(b, 57, 0xB20F7A99, 0xB9E66C34, 0x3E246A79, 0xF0A64F5A, 0xEBE6B238);
    Word(b, 58, 0xEF57B9CD, 0xA9993667, 0x27333BA3, 0x3E246A79, 0x9FE3095E);
    Word(b, 59, 0xEBE6B238, 0x84BADEDD, 0x0C4763F2, 0x27333BA3, 0x78BC8D4B);
    Word(b, 60, 0x9FE3095E, 0xC21462BC, 0x840ABF27, 0x0C4763F2, 0xA43FCF15);
    Word(b, 61, 0x78BC8D4B, 0x1487472C, 0x7A290D5D, 0x840ABF27, 0x668B2FF8);
    Word(b, 62, 0xA43FCF15, 0xB20F7A99, 0x065C43DA, 0x7A290D5D, 0xEEABA2CC);
    Word(b, 63, 0x668B2FF8, 0xEF57B9CD, 0xFB3E89CB, 0x065C43DA, 0x12B1EDEB);
  }

  lemma Word(b: Bytes, t: nat, w2: Word, w7: Word, w15: Word, w16: Word, w: Word)
    requires |b| == 64 && 16 <= t && Scheduled(b, t - 2, w2) && Scheduled(b, t - 7, w7)
    requires Scheduled(b, t - 15, w15) && Scheduled(b, t - 16, w16) && Mix(w2, w7, w15, w16) == w
    ensures Scheduled(b, t, w)
  {
    hide Mix, WordOf;
  }

  // ----- The rounds -----

  function First(e: Word, f: Word, g: Word, h: Word, k: Word, w: Word): Word {
    Sum(Sum(Sum(Sum(h, BigSigma1(e)), Ch(e, f, g)), k), w)
  }

  function Second(a: Word, b: Word, c: Word): Word {
    Sum(BigSigma0(a), Maj(a, b, c))
  }

  /** One round computes two new variables, a and e. */
  lemma Turn(b: Bytes, t: nat, v: seq<Word>, k: Word, w: Word, a: Word, e: Word) returns (v': seq<Word>)
    requires |b| == 64 && t < 64 && |v| == 8 && Rounds(INITIAL, b, t) == v && K[t] == k && Scheduled(b, t, w)
    requires Sum(First(v[4], v[5], v[6], v[7], k, w), Second(v[0], v[1], v[2])) == a
    requires Sum(v[3], First(v[4], v[5], v[6], v[7], k, w)) == e
    ensures v' == [a, v[0], v[1], v[2], e, v[4], v[5], v[6]] && Rounds(INITIAL, b, t + 1) == v'
  {
    hide Sum, BigSigma0, BigSigma1, Ch, Maj, Schedule;
    v' := [a, v[0], v[1], v[2], e, v[4], v[5], v[6]];
  }

  lemma Rounds0(b: Bytes)
    requires b == Block()
    ensures Rounds(INITIAL, b, 8) ==
            [0x85A07B5F, 0xE5030380, 0x2B4209F5, 0x04409A6A, 0x0C657A79, 0x9B27A401, 0x714260AD, 0x43ADA245]
  {
    hide Scheduled, Block, CubeRoot;
    Row0();
    Words0(b);
    var v := [0x6A09E667, 0xBB67AE85, 0x3C6EF372, 0xA54FF53A, 0x510E527F, 0x9B05688C, 0x1F83D9AB, 0x5BE0CD19];
    v := Turn(b, 0, v, 0x428A2F98, 0x61626380, 0x5D6AEBCD, 0xFA2A4622);
    v := Turn(b, 1, v, 0x71374491, 0x00000000, 0x5A6AD9AD, 0x78CE7989);
    v := Turn(b, 2, v, 0xB5C0FBCF, 0x00000000, 0xC8C347A7, 0xF92939EB);
    v := Turn(b, 3, v, 0xE9B5DBA5, 0x00000000, 0xD550F666, 0x24E00850);
    v := Turn(b, 4, v, 0x3956C25B, 0x00000000, 0x04409A6A, 0x43ADA245);
    v := Turn(b, 5, v, 0x59F111F1, 0x00000000, 0x2B4209F5, 0x714260AD);
    v := Turn(b, 6, v, 0x923F82A4, 0x00000000, 0xE5030380, 0x9B27A401);
    v := Turn(b, 7, v, 0xAB1C5ED5, 0x00000000, 0x85A07B5F, 0x0C657A79);
  }

  lemma Rounds1(b: Bytes)
    requires b == Block()
    ensures Rounds(INITIAL, b, 16) ==
            [0xB0FA238E, 0xC0645FDE, 0xD932EB16, 0x87912990, 0x07590DCD, 0x0B92F20C, 0x745A48DE, 0x1E578218]
  {
    hide Scheduled, Block, CubeRoot, Rounds;
    Row1();
    Words0(b);
    Rounds0(b);
    var v := [0x85A07B5F, 0xE5030380, 0x2B4209F5, 0x04409A6A, 0x0C657A79, 0x9B27A401, 0x714260AD, 0x43ADA245];
    v := Turn(b, 8, v, 0xD807AA98, 0x00000000, 0x8E04ECB9, 0x32CA2D8C);
    v := Turn(b, 9, v, 0x12835B01, 0x00000000, 0x8C87346B, 0x1CC92596);
    v := Turn(b, 10, v, 0x243185BE, 0x00000000, 0x4798A3F4, 0x436B23E8);
    v := Turn(b, 11, v, 0x550C7DC3, 0x00000000, 0xF71FC5A9, 0x816FD6E9);
    v := Turn(b, 12, v, 0x72BE5D74, 0x00000000, 0x87912990, 0x1E578218);
    v := Turn(b, 13, v, 0x80DEB1FE, 0x00000000, 0xD932EB16, 0x745A48DE);
    v := Turn(b, 14, v, 0x9BDC06A7, 0x00000000, 0xC0645FDE, 0x0B92F20C);
    v := Turn(b, 15, v, 0xC19BF174, 0x00000018, 0xB0FA238E, 0x07590DCD);
  }

  lemma Rounds2(b: Bytes)
    requires b == Block()
    ensures Rounds(INITIAL, b, 24) ==
            [0xC5D53D8D, 0xA7A3623F, 0xC2606D6D, 0x9DC68B63, 0xAA47C347, 0x49F5114A, 0xE1257970, 0x8ADA8930]
  {
    hide Scheduled, Block, CubeRoot, Rounds;
    Row2();
    Words2(b);
    Rounds1(b);
    var v := [0xB0FA238E, 0xC0645FDE, 0xD932EB16, 0x87912990, 0x07590DCD, 0x0B92F20C, 0x745A48DE, 0x1E578218];
    v := Turn(b, 16, v, 0xE49B69C1, 0x61626380, 0x21DA9A9B, 0x8034229C);
    v := Turn(b, 17, v, 0xEFBE4786, 0x000F0000, 0xC2FBD9D1, 0x846EE454);
    v := Turn(b, 18, v, 0x0FC19DC6, 0x7DA86405, 0xFE777BBF, 0xCC899961);
    v := Turn(b, 19, v, 0x240CA1CC, 0x600003C6, 0xE1F20C33, 0xB0638179);
    v := Turn(b, 20, v, 0x2DE92C6F, 0x3E9D7B78, 0x9DC68B63, 0x8ADA8930);
    v := Turn(b, 21, v, 0x4A7484AA, 0x0183FC00, 0xC2606D6D, 0xE1257970);
    v := Turn(b, 22, v, 0x5CB0A9DC, 0x12DCBFDB, 0xA7A3623F, 0x49F5114A);
    v := Turn(b, 23, v, 0x76F988DA, 0xE2E2C38E, 0xC5D53D8D, 0xAA47C347);
  }

  lemma Rounds3(b: Bytes)
    requires b == Block()
    ensures Rounds(INITIAL, b, 32) ==
            [0x73B33BF5, 0xEA992A22, 0xA0060B30, 0x363482C9, 0xBA591112, 0x0109AB3A, 0xADE79437, 0x6112A3B7]
  {
    hide Scheduled, Block, CubeRoot, Rounds;
    Row3();
    Words3(b);
    Rounds2(b);
    var v := [0xC5D53D8D, 0xA7A3623F, 0xC2606D6D, 0x9DC68B63, 0xAA47C347, 0x49F5114A, 0xE1257970, 0x8ADA8930];
    v := Turn(b, 24, v, 0x983E5152, 0xC8215C1A, 0x1C2C2838, 0x2823EF91);
    v := Turn(b, 25, v, 0xA831C66D, 0xB73679A2, 0xCDE8037D, 0x14383D8E);
    v := Turn(b, 26, v, 0xB00327C8, 0xE5BC3909, 0xB62EC4BC, 0xC74C6516);
    v := Turn(b, 27, v, 0xBF597FC7, 0x32663C5B, 0x77D37528, 0xEDFFBFF8);
    v := Turn(b, 28, v, 0xC6E00BF3, 0x9D209D67, 0x363482C9, 0x6112A3B7);
    v := Turn(b, 29, v, 0xD5A79147, 0xEC8726CB, 0xA0060B30, 0xADE79437);
    v := Turn(b, 30, v, 0x06CA6351, 0x702138A4, 0xEA992A22, 0x0109AB3A);
    v := Turn(b, 31, v, 0x14292967, 0xD3B7973B, 0x73B33BF5, 0xBA591112);
  }

  lemma Rounds4(b: Bytes)
    requires b == Block()
    ensures Rounds(INITIAL, b, 40) ==
            [0x79EA687A, 0x6DC57A8A, 0x34DF1604, 0x41A65CB1, 0x1EFBC0A0, 0xF0781BC8, 0xA507A53D, 0x0772A26B]
  {
    hide Scheduled, Block, CubeRoot, Rounds;
    Row4();
    Words4(b);
    Rounds3(b);
    var v := [0x73B33BF5, 0xEA992A22, 0xA0060B30, 0x363482C9, 0xBA591112, 0x0109AB3A, 0xADE79437, 0x6112A3B7];
    v := Turn(b, 32, v, 0x27B70A85, 0x93F5997F, 0x98E12507, 0x9CD9F5F6);
    v := Turn(b, 33, v, 0x2E1B2138, 0x3B68BA73, 0xFE604DF5, 0x59249DD3);
    v := Turn(b, 34, v, 0x4D2C6DFC, 0xAFF4FFC1, 0xA9A7738C, 0x085F3833);
    v := Turn(b, 35, v, 0x53380D13, 0xF10A5C62, 0x65A0CFE4, 0xF4B002D6);
    v := Turn(b, 36, v, 0x650A7354, 0x0A8B3996, 0x41A65CB1, 0x0772A26B);
    v := Turn(b, 37, v, 0x766A0ABB, 0x72AF830A, 0x34DF1604, 0xA507A53D);
    v := Turn(b, 38, v, 0x81C2C92E, 0x9409E33E, 0x6DC57A8A, 0xF0781BC8);
    v := Turn(b, 39, v, 0x92722C85, 0x24641522, 0x79EA687A, 0x1EFBC0A0);
  }

  lemma Rounds5(b: Bytes)
    requires b == Block()
    ensures Rounds(INITIAL, b, 48) ==
            [0x4172328D, 0xA14C14B0, 0x72AB4B91, 0x26628815, 0xFECF0BC6, 0xD57B94A9, 0xB7755DA1, 0xA80F11F0]
  {
    hide Scheduled, Block, CubeRoot, Rounds;
    Row5();
    Words5(b);
    Rounds4(b);
    var v := [0x79EA687A, 0x6DC57A8A, 0x34DF1604, 0x41A65CB1, 0x1EFBC0A0, 0xF0781BC8, 0xA507A53D, 0x0772A26B];
    v := Turn(b, 40, v, 0xA2BFE8A1, 0x9F47BF94, 0xD6670766, 0x26352D63);
    v := Turn(b, 41, v, 0xA81A664B, 0xF0A64F5A, 0xDF46652F, 0x838B2711);
    v := Turn(b, 42, v, 0xC24B8B70, 0x3E246A79, 0x17AA0DFE, 0xDECD4715);
    v := Turn(b, 43, v, 0xC76C51A3, 0x27333BA3, 0x9D4BAF93, 0xFDA24C2E);
    v := Turn(b, 44, v, 0xD192E819, 0x0C4763F2, 0x26628815, 0xA80F11F0);
    v := Turn(b, 45, v, 0xD6990624, 0x840ABF27, 0x72AB4B91, 0xB7755DA1);
    v := Turn(b, 46, v, 0xF40E3585, 0x7A290D5D, 0xA14C14B0, 0xD57B94A9);
    v := Turn(b, 47, v, 0x106AA070, 0x065C43DA, 0x4172328D, 0xFECF0BC6);
  }

  lemma Rounds6(b: Bytes)
    requires b == Block()
    ensures Rounds(INITIAL, b, 56) ==
            [0x38CC9913, 0x3EC45CDB, 0xF5702FDB, 0x101FD28F, 0x54CB266B, 0xE50E1B4F, 0x9F4787C3, 0x529E7D00]
  {
    hide Scheduled, Block, CubeRoot, Rounds;
    Row6();
    Words6(b);
    Rounds5(b);
    var v := [0x4172328D, 0xA14C14B0, 0x72AB4B91, 0x26628815, 0xFECF0BC6, 0xD57B94A9, 0xB7755DA1, 0xA80F11F0];
    v := Turn(b, 48, v, 0x19A4C116, 0xFB3E89CB, 0x05757CEB, 0xBD714038);
    v := Turn(b, 49, v, 0x1E376C08, 0xCC7617DB, 0xF11BFAA8, 0x6E5C390C);
    v := Turn(b, 50, v, 0x2748774C, 0xB9E66C34, 0x7A0508A1, 0x52F1CCF7);
    v := Turn(b, 51, v, 0x34B0BCB5, 0xA9993667, 0x886E7A22, 0x49231C1E);
    v := Turn(b, 52, v, 0x391C0CB3, 0x84BADEDD, 0x101FD28F, 0x529E7D00);
    v := Turn(b, 53, v, 0x4ED8AA4A, 0xC21462BC, 0xF5702FDB, 0x9F4787C3);
    v := Turn(b, 54, v, 0x5B9CCA4F, 0x1487472C, 0x3EC45CDB, 0xE50E1B4F);
    v := Turn(b, 55, v, 0x682E6FF3, 0xB20F7A99, 0x38CC9913, 0x54CB266B);
  }

  lemma Rounds7(b: Bytes)
    requires b == Block()
    ensures Rounds(INITIAL, b, 64) ==
            [0x506E3058, 0xD39A2165, 0x04D24D6C, 0xB85E2CE9, 0x5EF50F24, 0xFB121210, 0x948D25B6, 0x961F4894]
  {
    hide Scheduled, Block, CubeRoot, Rounds;
    Row7();
    Words7(b);
    Rounds6(b);
    var v := [0x38CC9913, 0x3EC45CDB, 0xF5702FDB, 0x101FD28F, 0x54CB266B, 0xE50E1B4F, 0x9F4787C3, 0x529E7D00];
    v := Turn(b, 56, v, 0x748F82EE, 0xEF57B9CD, 0xFCD1887B, 0x9B5E906C);
    v := Turn(b, 57, v, 0x78A5636F, 0xEBE6B238, 0xC062D46F, 0x7E44008E);
    v := Turn(b, 58, v, 0x84C87814, 0x9FE3095E, 0xFFB70472, 0x6D83BFC6);
    v := Turn(b, 59, v, 0x8CC70208, 0x78BC8D4B, 0xB6AE8FFF, 0xB21BAD3D);
    v := Turn(b, 60, v, 0x90BEFFFA, 0xA43FCF15, 0xB85E2CE9, 0x961F4894);
    v := Turn(b, 61, v, 0xA4506CEB, 0x668B2FF8, 0x04D24D6C, 0x948D25B6);
    v := Turn(b, 62, v, 0xBEF9A3F7, 0xEEABA2CC, 0xD39A2165, 0xFB121210);
    v := Turn(b, 63, v, 0xC67178F2, 0x12B1EDEB, 0x506E3058, 0x5EF50F24);
  }

  lemma Hashed(b: Bytes)
    requires b == Block()
    ensures Compress(INITIAL, b) ==
            [0xBA7816BF, 0x8F01CFEA, 0x414140DE, 0x5DAE2223, 0xB00361A3, 0x96177A9C, 0xB410FF61, 0xF20015AD]
  {
    hide Rounds, Block;
    Rounds7(b);
  }

  /** The digest of "abc" is these eight words, most significant byte first. */
  lemma AbcDigest()
    ensures Digest(ABC) ==
            Serialize([0xBA7816BF, 0x8F01CFEA, 0x414140DE, 0x5DAE2223, 0xB00361A3, 0x96177A9C, 0xB410FF61, 0xF20015AD])
  {
    hide Compress, Block, Pad, Serialize;
    var b := Block();
    Padded();
    Hashed(b);
    assert b[..0] == [] && b[0..] == b;
    assert Fold(b) == Compress(INITIAL, b);
  }
}
