/** A test string of appendix A.5 of RFC 1321, the lower case letters, by which every entry of the
    tables of the definition is checked. */
module Md5Vector {
  import opened Md5Definition

  const LETTERS: seq<Byte> := [
    0x61, 0x62, 0x63, 0x64, 0x65, 0x66, 0x67, 0x68, 0x69, 0x6a, 0x6b, 0x6c, 0x6d,
    0x6e, 0x6f, 0x70, 0x71, 0x72, 0x73, 0x74, 0x75, 0x76, 0x77, 0x78, 0x79, 0x7a]

  /** The padded message: one block. */
  const BLOCK: seq<Byte> := LETTERS + [0x80] + Zeros(29) + [208, 0, 0, 0, 0, 0, 0, 0]

  lemma PaddedLetters()
    ensures |BLOCK| == 64 && Padded(LETTERS) == BLOCK
  {
    assert ZeroBytes(26) == 29;
    LengthOfLetters();
    hide LengthField, Zeros, ZeroBytes;
  }

  lemma LengthOfLetters()
    ensures LengthField(26) == [208, 0, 0, 0, 0, 0, 0, 0]
  {
    BytesOf();
    NothingLeft(7);
    hide ByteOf;
    assert 8 * 26 % TWO_64 == 208;
    assert LittleEndian(208, 8) == [ByteOf(208)] + LittleEndian(0, 7);
  }

  lemma BytesOf()
    ensures ByteOf(208) == 208 && ByteOf(0) == 0
  {
  }

  lemma {:induction false} NothingLeft(n: nat)
    ensures LittleEndian(0, n) == Zeros(n)
  {
    if n > 0 {
      NothingLeft(n - 1);
      BytesOf();
      hide ByteOf;
    }
  }

  /** Its words; those not listed are zero. */
  lemma BlockWords(k: nat)
    requires k < 16
    ensures |BLOCK| == 64 && WordAt(BLOCK, k) == Word(k)
  {
    hide WordFrom;
    BlockBytes(k);
    FromBytes(k);
  }

  function Word(k: nat): bv32 {
    if k == 0 then 0x64636261
    else if k == 1 then 0x68676665
    else if k == 2 then 0x6c6b6a69
    else if k == 3 then 0x706f6e6d
    else if k == 4 then 0x74737271
    else if k == 5 then 0x78777675
    else if k == 6 then 0x00807a79
    else if k == 14 then 0x000000d0
    else 0
  }

  function ByteAt(i: nat): Byte {
    if i < 26 then LETTERS[i] else if i == 26 then 0x80 else if i == 56 then 208 else 0
  }

  lemma BlockBytes(k: nat)
    requires k < 16
    ensures |BLOCK| == 64
    ensures forall i :: 4 * k <= i < 4 * k + 4 ==> BLOCK[i] == ByteAt(i)
  {
  }

  lemma FromBytes(k: nat)
    requires k < 16
    ensures WordFrom(ByteAt(4 * k), ByteAt(4 * k + 1), ByteAt(4 * k + 2), ByteAt(4 * k + 3)) == Word(k)
  {
  }

  /** One step, from the entries of the tables, the value of the auxiliary function and the word that
      results. */
  lemma OneStep(i: nat, w: Words, k: nat, x: bv32, t: bv32, s: bv6, f: bv32, b: bv32)
    requires i < 64 && k < 16 && |BLOCK| == 64 && Steps(INITIAL, BLOCK, i) == w
    requires MessageIndex(i) == k && Word(k) == x && T(i) == Constant(t) && Shift(i) == Amount(s) && s <= 32
    requires Auxiliary(RoundOf(i), w.b, w.c, w.d) == f && Mix(w.b, w.a, f, x, t, s) == b
    ensures Steps(INITIAL, BLOCK, i + 1) == Words(w.d, b, w.b, w.c)
  {
    BlockWords(k);
    hide MessageIndex, T, Shift, Auxiliary, Mix, WordAt, Word, RoundOf, BLOCK;
  }

  lemma Steps0To3()
    requires |BLOCK| == 64 && Steps(INITIAL, BLOCK, 0) == Words(0x67452301, 0xefcdab89, 0x98badcfe, 0x10325476)
    ensures Steps(INITIAL, BLOCK, 4) == Words(0xd6d117a6, 0x4503b812, 0x227d8cf1, 0xaab1aaaa)
  {
    hide Steps, BLOCK, INITIAL;
    OneStep(0, Words(0x67452301, 0xefcdab89, 0x98badcfe, 0x10325476),
      0, 0x64636261, 0xd76aa478, 7, 0x98badcfe, 0xd6d117a6);
    OneStep(1, Words(0x10325476, 0xd6d117a6, 0xefcdab89, 0x98badcfe),
      1, 0x68676665, 0xe8c7b756, 12, 0xceebcbd8, 0xaab1aaaa);
    OneStep(2, Words(0x98badcfe, 0xaab1aaaa, 0xd6d117a6, 0xefcdab89),
      2, 0x6c6b6a69, 0x242070db, 17, 0xc7dd03a3, 0x227d8cf1);
    OneStep(3, Words(0xefcdab89, 0x227d8cf1, 0xaab1aaaa, 0xd6d117a6),
      3, 0x706f6e6d, 0xc1bdceee, 22, 0xf6b19ba6, 0x4503b812);
  }

  lemma Steps4To7()
    requires |BLOCK| == 64 && Steps(INITIAL, BLOCK, 4) == Words(0xd6d117a6, 0x4503b812, 0x227d8cf1, 0xaab1aaaa)
    ensures Steps(INITIAL, BLOCK, 8) == Words(0xfe15f787, 0xda9bbb0d, 0xb71122fc, 0xa811b278)
  {
    hide Steps, BLOCK, INITIAL;
    OneStep(4, Words(0xd6d117a6, 0x4503b812, 0x227d8cf1, 0xaab1aaaa),
      4, 0x74737271, 0xf57c0faf, 7, 0xaab18ab8, 0xfe15f787);
    OneStep(5, Words(0xaab1aaaa, 0xfe15f787, 0x4503b812, 0x227d8cf1),
      5, 0x78777675, 0x4787c62a, 12, 0x4469b872, 0xa811b278);
    OneStep(6, Words(0x227d8cf1, 0xa811b278, 0xfe15f787, 0x4503b812),
      6, 0x00807a79, 0xa8304613, 17, 0xed13ba02, 0xb71122fc);
    OneStep(7, Words(0x4503b812, 0xb71122fc, 0xa811b278, 0xfe15f787),
      7, 0x00000000, 0xfd469501, 22, 0xe815f77b, 0xda9bbb0d);
  }

  lemma Steps8To11()
    requires |BLOCK| == 64 && Steps(INITIAL, BLOCK, 8) == Words(0xfe15f787, 0xda9bbb0d, 0xb71122fc, 0xa811b278)
    ensures Steps(INITIAL, BLOCK, 12) == Words(0xae752899, 0x56cfa5cb, 0x7d4bd80b, 0x2bbe757f)
  {
    hide Steps, BLOCK, INITIAL;
    OneStep(8, Words(0xfe15f787, 0xda9bbb0d, 0xb71122fc, 0xa811b278),
      8, 0x00000000, 0x698098d8, 7, 0xb211227c, 0xae752899);
    OneStep(9, Words(0xa811b278, 0xae752899, 0xda9bbb0d, 0xb71122fc),
      9, 0x00000000, 0x8b44f7af, 12, 0x9b112a6d, 0x2bbe757f);
    OneStep(10, Words(0xb71122fc, 0x2bbe757f, 0xae752899, 0xda9bbb0d),
      10, 0x00000000, 0xffff5bb1, 17, 0xfa35aa19, 0x7d4bd80b);
    OneStep(11, Words(0xda9bbb0d, 0x7d4bd80b, 0x2bbe757f, 0xae752899),
      11, 0x00000000, 0x895cd7be, 22, 0xab3e709b, 0x56cfa5cb);
  }

  lemma Steps12To15()
    requires |BLOCK| == 64 && Steps(INITIAL, BLOCK, 12) == Words(0xae752899, 0x56cfa5cb, 0x7d4bd80b, 0x2bbe757f)
    ensures Steps(INITIAL, BLOCK, 16) == Words(0x1754a316, 0x608d6b7e, 0x00df74d5, 0x85567d90)
  {
    hide Steps, BLOCK, INITIAL;
    OneStep(12, Words(0xae752899, 0x56cfa5cb, 0x7d4bd80b, 0x2bbe757f),
      12, 0x00000000, 0x6b901122, 7, 0x7d7bd03f, 0x1754a316);
    OneStep(13, Words(0x2bbe757f, 0x1754a316, 0x56cfa5cb, 0x7d4bd80b),
      13, 0x00000000, 0xfd987193, 12, 0x7e4ff90b, 0x85567d90);
    OneStep(14, Words(0x7d4bd80b, 0x85567d90, 0x1754a316, 0x56cfa5cb),
      14, 0x000000d0, 0xa679438e, 17, 0x57dda15b, 0x00df74d5);
    OneStep(15, Words(0x56cfa5cb, 0x00df74d5, 0x85567d90, 0x1754a316),
      15, 0x00000000, 0x49b40821, 22, 0x1756f792, 0x608d6b7e);
  }

  lemma Steps16To19()
    requires |BLOCK| == 64 && Steps(INITIAL, BLOCK, 16) == Words(0x1754a316, 0x608d6b7e, 0x00df74d5, 0x85567d90)
    ensures Steps(INITIAL, BLOCK, 20) == Words(0x2d8071cc, 0x4c2145b3, 0xedfe7e4b, 0x5dcee119)
  {
    hide Steps, BLOCK, INITIAL;
    OneStep(16, Words(0x1754a316, 0x608d6b7e, 0x00df74d5, 0x85567d90),
      1, 0x68676665, 0xf61e2562, 5, 0x008d6955, 0x2d8071cc);
    OneStep(17, Words(0x85567d90, 0x2d8071cc, 0x608d6b7e, 0x00df74d5),
      6, 0x00807a79, 0xc040b340, 9, 0x60807bee, 0x5dcee119);
    OneStep(18, Words(0x00df74d5, 0x5dcee119, 0x2d8071cc, 0x608d6b7e),
      11, 0x00000000, 0x265e5a51, 14, 0x4d8c7198, 0xedfe7e4b);
    OneStep(19, Words(0x608d6b7e, 0xedfe7e4b, 0x5dcee119, 0x2d8071cc),
      0, 0x64636261, 0xe9b6c7aa, 20, 0x7dcef059, 0x4c2145b3);
  }

  lemma Steps20To23()
    requires |BLOCK| == 64 && Steps(INITIAL, BLOCK, 20) == Words(0x2d8071cc, 0x4c2145b3, 0xedfe7e4b, 0x5dcee119)
    ensures Steps(INITIAL, BLOCK, 24) == Words(0x570c43e0, 0xc9f162d4, 0xc28ab49d, 0x977efd2a)
  {
    hide Steps, BLOCK, INITIAL;
    OneStep(20, Words(0x2d8071cc, 0x4c2145b3, 0xedfe7e4b, 0x5dcee119),
      5, 0x78777675, 0xd62f105d, 5, 0xec305f53, 0x570c43e0);
    OneStep(21, Words(0x5dcee119, 0x570c43e0, 0x4c2145b3, 0xedfe7e4b),
      10, 0x00000000, 0x02441453, 9, 0x450d43f0, 0x977efd2a);
    OneStep(22, Words(0xedfe7e4b, 0x977efd2a, 0x570c43e0, 0x4c2145b3),
      15, 0x00000000, 0xd8a1e681, 14, 0x172c4762, 0xc28ab49d);
    OneStep(23, Words(0x4c2145b3, 0xc28ab49d, 0x977efd2a, 0x570c43e0),
      4, 0x74737271, 0xe7d3fbc8, 20, 0xc27abc8a, 0xc9f162d4);
  }

  lemma Steps24To27()
    requires |BLOCK| == 64 && Steps(INITIAL, BLOCK, 24) == Words(0x570c43e0, 0xc9f162d4, 0xc28ab49d, 0x977efd2a)
    ensures Steps(INITIAL, BLOCK, 28) == Words(0x25bfae3b, 0xe6d3b398, 0xf8c8365f, 0x89980104)
  {
    hide Steps, BLOCK, INITIAL;
    OneStep(24, Words(0x570c43e0, 0xc9f162d4, 0xc28ab49d, 0x977efd2a),
      9, 0x00000000, 0x21e1cde6, 5, 0xc1f06095, 0x25bfae3b);
    OneStep(25, Words(0x977efd2a, 0x25bfae3b, 0xc9f162d4, 0xc28ab49d),
      14, 0x000000d0, 0xc33707d6, 9, 0x09fbe659, 0x89980104);
    OneStep(26, Words(0xc28ab49d, 0x89980104, 0x25bfae3b, 0xc9f162d4),
      3, 0x706f6e6d, 0xf4d50d87, 14, 0xad9e8c2f, 0xf8c8365f);
    OneStep(27, Words(0xc9f162d4, 0xf8c8365f, 0x89980104, 0x25bfae3b),
      8, 0x00000000, 0x455a14ed, 20, 0xa888271f, 0xe6d3b398);
  }

  lemma Steps28To31()
    requires |BLOCK| == 64 && Steps(INITIAL, BLOCK, 28) == Words(0x25bfae3b, 0xe6d3b398, 0xf8c8365f, 0x89980104)
    ensures Steps(INITIAL, BLOCK, 32) == Words(0xf54d8710, 0xaeb35766, 0x2e69afc7, 0x927b72e2)
  {
    hide Steps, BLOCK, INITIAL;
    OneStep(28, Words(0x25bfae3b, 0xe6d3b398, 0xf8c8365f, 0x89980104),
      13, 0x00000000, 0xa9e3e905, 5, 0xf0d0375b, 0xf54d8710);
    OneStep(29, Words(0x89980104, 0xf54d8710, 0xe6d3b398, 0xf8c8365f),
      2, 0x6c6b6a69, 0xfcefa3f8, 9, 0xf65b8790, 0x927b72e2);
    OneStep(30, Words(0xf8c8365f, 0x927b72e2, 0xf54d8710, 0xe6d3b398),
      7, 0x00000000, 0x676f02d9, 14, 0x935f3680, 0x2e69afc7);
    OneStep(31, Words(0xe6d3b398, 0x2e69afc7, 0x927b72e2, 0xf54d8710),
      12, 0x00000000, 0x8d2a4c8a, 20, 0x267bf7e2, 0xaeb35766);
  }

  lemma Steps32To35()
    requires |BLOCK| == 64 && Steps(INITIAL, BLOCK, 32) == Words(0xf54d8710, 0xaeb35766, 0x2e69afc7, 0x927b72e2)
    ensures Steps(INITIAL, BLOCK, 36) == Words(0xb4bf680e, 0x06a5e211, 0x2361ed0a, 0x4c8ffa80)
  {
    hide Steps, BLOCK, INITIAL;
    OneStep(32, Words(0xf54d8710, 0xaeb35766, 0x2e69afc7, 0x927b72e2),
      5, 0x78777675, 0xfffa3942, 4, 0x12a18a43, 0xb4bf680e);
    OneStep(33, Words(0x927b72e2, 0xb4bf680e, 0xaeb35766, 0x2e69afc7),
      8, 0x00000000, 0x8771f681, 11, 0x346590af, 0x4c8ffa80);
    OneStep(34, Words(0x2e69afc7, 0x4c8ffa80, 0xb4bf680e, 0xaeb35766),
      11, 0x00000000, 0x6d9d6122, 16, 0x5683c5e8, 0x2361ed0a);
    OneStep(35, Words(0xaeb35766, 0x2361ed0a, 0x4c8ffa80, 0xb4bf680e),
      14, 0x000000d0, 0xfde5380c, 23, 0xdb517f84, 0x06a5e211);
  }

  lemma Steps36To39()
    requires |BLOCK| == 64 && Steps(INITIAL, BLOCK, 36) == Words(0xb4bf680e, 0x06a5e211, 0x2361ed0a, 0x4c8ffa80)
    ensures Steps(INITIAL, BLOCK, 40) == Words(0xb9c0c733, 0x8d41bf99, 0x23a9451b, 0xf1e6dc7a)
  {
    hide Steps, BLOCK, INITIAL;
    OneStep(36, Words(0xb4bf680e, 0x06a5e211, 0x2361ed0a, 0x4c8ffa80),
      1, 0x68676665, 0xa4beea44, 4, 0x694bf59b, 0xb9c0c733);
    OneStep(37, Words(0x4c8ffa80, 0xb9c0c733, 0x06a5e211, 0x2361ed0a),
      4, 0x74737271, 0x4bdecfa9, 11, 0x9c04c828, 0xf1e6dc7a);
    OneStep(38, Words(0x2361ed0a, 0xf1e6dc7a, 0xb9c0c733, 0x06a5e211),
      7, 0x00000000, 0xf6bb4b60, 16, 0x4e83f958, 0x23a9451b);
    OneStep(39, Words(0x06a5e211, 0x23a9451b, 0xf1e6dc7a, 0xb9c0c733),
      10, 0x00000000, 0xbebfbc70, 23, 0x6b8f5e52, 0x8d41bf99);
  }

  lemma Steps40To43()
    requires |BLOCK| == 64 && Steps(INITIAL, BLOCK, 40) == Words(0xb9c0c733, 0x8d41bf99, 0x23a9451b, 0xf1e6dc7a)
    ensures Steps(INITIAL, BLOCK, 44) == Words(0xa3e88ead, 0x90a35af5, 0x66f6468d, 0x02c0b11c)
  {
    hide Steps, BLOCK, INITIAL;
    OneStep(40, Words(0xb9c0c733, 0x8d41bf99, 0x23a9451b, 0xf1e6dc7a),
      13, 0x00000000, 0x289b7ec6, 4, 0x5f0e26f8, 0xa3e88ead);
    OneStep(41, Words(0xf1e6dc7a, 0xa3e88ead, 0x8d41bf99, 0x23a9451b),
      0, 0x64636261, 0xeaa127fa, 11, 0x0d00742f, 0x02c0b11c);
    OneStep(42, Words(0x23a9451b, 0x02c0b11c, 0xa3e88ead, 0x8d41bf99),
      3, 0x706f6e6d, 0xd4ef3085, 16, 0x2c698028, 0x66f6468d);
    OneStep(43, Words(0x8d41bf99, 0x66f6468d, 0x02c0b11c, 0xa3e88ead),
      6, 0x00807a79, 0x04881d05, 23, 0xc7de793c, 0x90a35af5);
  }

  lemma Steps44To47()
    requires |BLOCK| == 64 && Steps(INITIAL, BLOCK, 44) == Words(0xa3e88ead, 0x90a35af5, 0x66f6468d, 0x02c0b11c)
    ensures Steps(INITIAL, BLOCK, 48) == Words(0xb5d41f9c, 0x71d10367, 0x703d54d8, 0xa04b4904)
  {
    hide Steps, BLOCK, INITIAL;
    OneStep(44, Words(0xa3e88ead, 0x90a35af5, 0x66f6468d, 0x02c0b11c),
      9, 0x00000000, 0xd9d4d039, 4, 0xf495ad64, 0xb5d41f9c);
    OneStep(45, Words(0x02c0b11c, 0xb5d41f9c, 0x90a35af5, 0x66f6468d),
      12, 0x00000000, 0xe6db99e5, 11, 0x438103e4, 0xa04b4904);
    OneStep(46, Words(0x66f6468d, 0xa04b4904, 0xb5d41f9c, 0x90a35af5),
      15, 0x00000000, 0x1fa27cf8, 16, 0x853c0c6d, 0x703d54d8);
    OneStep(47, Words(0x90a35af5, 0x703d54d8, 0xa04b4904, 0xb5d41f9c),
      2, 0x6c6b6a69, 0xc4ac5665, 23, 0x65a20240, 0x71d10367);
  }

  lemma Steps48To51()
    requires |BLOCK| == 64 && Steps(INITIAL, BLOCK, 48) == Words(0xb5d41f9c, 0x71d10367, 0x703d54d8, 0xa04b4904)
    ensures Steps(INITIAL, BLOCK, 52) == Words(0xfc32dd6e, 0x33edb197, 0xb35602cb, 0x65456b34)
  {
    hide Steps, BLOCK, INITIAL;
    OneStep(48, Words(0xb5d41f9c, 0x71d10367, 0x703d54d8, 0xa04b4904),
      0, 0x64636261, 0xf4292244, 6, 0x0fc8e327, 0xfc32dd6e);
    OneStep(49, Words(0xa04b4904, 0xfc32dd6e, 0x71d10367, 0x703d54d8),
      7, 0x00000000, 0x432aff97, 10, 0x8e23fc08, 0x65456b34);
    OneStep(50, Words(0x703d54d8, 0x65456b34, 0xfc32dd6e, 0x71d10367),
      14, 0x000000d0, 0xab9423a7, 15, 0x135d22d2, 0xb35602cb);
    OneStep(51, Words(0x71d10367, 0xb35602cb, 0x65456b34, 0xfc32dd6e),
      5, 0x78777675, 0xfc93a039, 21, 0xd69a49ef, 0x33edb197);
  }

  lemma Steps52To55()
    requires |BLOCK| == 64 && Steps(INITIAL, BLOCK, 52) == Words(0xfc32dd6e, 0x33edb197, 0xb35602cb, 0x65456b34)
    ensures Steps(INITIAL, BLOCK, 56) == Words(0xc1e942f1, 0x83877d1b, 0x23a68048, 0xd9bb987c)
  {
    hide Steps, BLOCK, INITIAL;
    OneStep(52, Words(0xfc32dd6e, 0x33edb197, 0xb35602cb, 0x65456b34),
      12, 0x00000000, 0x655b59c3, 6, 0x08a9b714, 0xc1e942f1);
    OneStep(53, Words(0x65456b34, 0xc1e942f1, 0x33edb197, 0xb35602cb),
      3, 0x706f6e6d, 0x8f0ccc92, 10, 0xfe044e62, 0xd9bb987c);
    OneStep(54, Words(0xb35602cb, 0xd9bb987c, 0xc1e942f1, 0x33edb197),
      10, 0x00000000, 0xffeff47d, 15, 0x1c529c8d, 0x23a68048);
    OneStep(55, Words(0x33edb197, 0x23a68048, 0xd9bb987c, 0xc1e942f1),
      1, 0x68676665, 0x85845dd1, 21, 0xe60d2532, 0x83877d1b);
  }

  lemma Steps56To59()
    requires |BLOCK| == 64 && Steps(INITIAL, BLOCK, 56) == Words(0xc1e942f1, 0x83877d1b, 0x23a68048, 0xd9bb987c)
    ensures Steps(INITIAL, BLOCK, 60) == Words(0x0077c208, 0x5e6bc930, 0xa3e2247f, 0x847fc2e7)
  {
    hide Steps, BLOCK, INITIAL;
    OneStep(56, Words(0xc1e942f1, 0x83877d1b, 0x23a68048, 0xd9bb987c),
      8, 0x00000000, 0x6fa87e4f, 6, 0x8461ffd3, 0x0077c208);
    OneStep(57, Words(0xd9bb987c, 0x0077c208, 0x83877d1b, 0x23a68048),
      15, 0x00000000, 0xfe2ce6e0, 10, 0x5ff882a4, 0x847fc2e7);
    OneStep(58, Words(0x23a68048, 0x847fc2e7, 0x0077c208, 0x83877d1b),
      6, 0x00807a79, 0xa3014314, 15, 0xfc0800ef, 0xa3e2247f);
    OneStep(59, Words(0x83877d1b, 0xa3e2247f, 0x847fc2e7, 0x0077c208),
      13, 0x00000000, 0x4e0811a1, 21, 0x7b95ff18, 0x5e6bc930);
  }

  lemma Steps60To63()
    requires |BLOCK| == 64 && Steps(INITIAL, BLOCK, 60) == Words(0x0077c208, 0x5e6bc930, 0xa3e2247f, 0x847fc2e7)
    ensures Steps(INITIAL, BLOCK, 64) == Words(0x708ed9c2, 0x1116e6d8, 0xd38f1e7f, 0x2baf1354)
  {
    hide Steps, BLOCK, INITIAL;
    OneStep(60, Words(0x0077c208, 0x5e6bc930, 0xa3e2247f, 0x847fc2e7),
      4, 0x74737271, 0xf7537e82, 6, 0xdc09d947, 0x708ed9c2);
    OneStep(61, Words(0x847fc2e7, 0x708ed9c2, 0x5e6bc930, 0xa3e2247f),
      11, 0x00000000, 0xbd3af235, 10, 0x22f412f2, 0x2baf1354);
    OneStep(62, Words(0xa3e2247f, 0x2baf1354, 0x708ed9c2, 0x5e6bc930),
      2, 0x6c6b6a69, 0x2ad7d2bb, 15, 0xdb31ee1d, 0xd38f1e7f);
    OneStep(63, Words(0x5e6bc930, 0xd38f1e7f, 0x2baf1354, 0x708ed9c2),
      9, 0x00000000, 0xeb86d391, 21, 0xf4502d2b, 0x1116e6d8);
  }

  /** MD5 ("abcdefghijklmnopqrstuvwxyz") = c3fcd3d76192e4007dfb496cca67e13b */
  lemma DigestOfLetters()
    ensures Digest(LETTERS) == [
      0xc3, 0xfc, 0xd3, 0xd7, 0x61, 0x92, 0xe4, 0x00, 0x7d, 0xfb, 0x49, 0x6c, 0xca, 0x67, 0xe1, 0x3b]
  {
    PaddedLetters();
    assert Steps(INITIAL, BLOCK, 0) == INITIAL;
    hide Steps, Padded, BLOCK, LETTERS, Blocks;
    Steps0To3();
    Steps4To7();
    Steps8To11();
    Steps12To15();
    Steps16To19();
    Steps20To23();
    Steps24To27();
    Steps28To31();
    Steps32To35();
    Steps36To39();
    Steps40To43();
    Steps44To47();
    Steps48To51();
    Steps52To55();
    Steps56To59();
    Steps60To63();
    OneBlock(INITIAL, BLOCK);
    Final();
  }

  lemma Final()
    ensures Output(Sum(INITIAL, Words(0x708ed9c2, 0x1116e6d8, 0xd38f1e7f, 0x2baf1354))) == [
      0xc3, 0xfc, 0xd3, 0xd7, 0x61, 0x92, 0xe4, 0x00, 0x7d, 0xfb, 0x49, 0x6c, 0xca, 0x67, 0xe1, 0x3b]
  {
  }
}
