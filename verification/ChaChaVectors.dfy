/** The published test vectors of RFC 8439 for the block function and the stream, and the
    rotations and word orders stated without the functions that compute them. */
module ChaChaVectors {
  import opened Bytes
  import opened ChaCha20

  // ---------- rotations ----------

  function RotateOne(v: bv32): bv32 {
    (v << 1) | (v >> 31)
  }

  function Rotate(v: bv32, n: nat): bv32 {
    if n == 0 then v else RotateOne(Rotate(v, n - 1))
  }

  lemma {:induction false} RotateAgain(v: bv32, m: nat, n: nat)
    ensures Rotate(Rotate(v, m), n) == Rotate(v, m + n)
  {
    if n > 0 {
      RotateAgain(v, m, n - 1);
    }
  }

  function Rotl3(v: bv32): bv32 { (v << 3) | (v >> 29) }
  function Rotl4(v: bv32): bv32 { (v << 4) | (v >> 28) }

  lemma ThreeSteps(v: bv32)
    ensures RotateOne(RotateOne(RotateOne(v))) == Rotl3(v)
  {}

  lemma FourSteps(v: bv32)
    ensures RotateOne(RotateOne(RotateOne(RotateOne(v)))) == Rotl4(v)
  {}

  lemma FourThree(v: bv32)
    ensures Rotl3(Rotl4(v)) == Rotl7(v)
  {}

  lemma FourFour(v: bv32)
    ensures Rotl4(Rotl4(v)) == Rotl8(v)
  {}

  lemma EightFour(v: bv32)
    ensures Rotl4(Rotl8(v)) == Rotl12(v)
  {}

  lemma TwelveFour(v: bv32)
    ensures Rotl4(Rotl12(v)) == Rotl16(v)
  {}

  lemma RotateFew(v: bv32)
    ensures Rotate(v, 3) == Rotl3(v) && Rotate(v, 4) == Rotl4(v)
  {
    hide RotateOne, Rotl3, Rotl4;
    ThreeSteps(v);
    FourSteps(v);
    assert Rotate(v, 1) == RotateOne(v);
    assert Rotate(v, 2) == RotateOne(Rotate(v, 1));
    assert Rotate(v, 3) == RotateOne(Rotate(v, 2));
  }

  /** Each rotation of the quarter round is that many rotations by one bit. */
  lemma RotationsExact(v: bv32)
    ensures Rotl7(v) == Rotate(v, 7) && Rotl8(v) == Rotate(v, 8)
    ensures Rotl12(v) == Rotate(v, 12) && Rotl16(v) == Rotate(v, 16)
  {
    hide Rotate, Rotl3, Rotl4, Rotl7, Rotl8, Rotl12, Rotl16;
    FourThree(v);
    FourFour(v);
    EightFour(v);
    TwelveFour(v);
    RotateFew(v);
    RotateFew(Rotl4(v));
    RotateFew(Rotl8(v));
    RotateFew(Rotl12(v));
    RotateAgain(v, 4, 3);
    RotateAgain(v, 4, 4);
    RotateAgain(v, 8, 4);
    RotateAgain(v, 12, 4);
  }

  // ---------- the quarter round and the double round ----------

  /** Section 2.1.1 of RFC 8439. */
  lemma QuarterVector()
    ensures Quarter(Quad(0x11111111, 0x01020304, 0x9b8d6f43, 0x01234567))
         == Quad(0xea2a92f4, 0xcb1cf8ce, 0x4581472e, 0x5881c4bb)
  {}

  /** t is s after one quarter round. */
  ghost predicate After(s: State, t: State, i: nat, j: nat, k: nat, l: nat)
    requires Lanes(i, j, k, l).Valid()
  {
    && Quad(t[i], t[j], t[k], t[l]) == Quarter(Quad(s[i], s[j], s[k], s[l]))
    && forall x :: 0 <= x < 16 && x != i && x != j && x != k && x != l ==> t[x] == s[x]
  }

  lemma QuarterAfter(s: State, i: nat, j: nat, k: nat, l: nat)
    requires Lanes(i, j, k, l).Valid()
    ensures After(s, QuarterAt(s, Lanes(i, j, k, l)), i, j, k, l)
  {
    hide Quarter;
  }

  lemma ForwardStep(s: State, n: nat)
    requires n < 8
    ensures Forward(s, DOUBLE_ROUND, 0) == s
    ensures Forward(s, DOUBLE_ROUND, n + 1) == QuarterAt(Forward(s, DOUBLE_ROUND, n), DOUBLE_ROUND[n])
  {}

  /** The schedule: the columns, then the diagonals. */
  lemma ScheduleIs(s: State) returns (t: seq<State>)
    ensures |t| == 9 && t[0] == s && t[8] == DoubleRound(s)
    ensures After(t[0], t[1], 0, 4, 8, 12) && After(t[1], t[2], 1, 5, 9, 13)
    ensures After(t[2], t[3], 2, 6, 10, 14) && After(t[3], t[4], 3, 7, 11, 15)
    ensures After(t[4], t[5], 0, 5, 10, 15) && After(t[5], t[6], 1, 6, 11, 12)
    ensures After(t[6], t[7], 2, 7, 8, 13) && After(t[7], t[8], 3, 4, 9, 14)
  {
    hide QuarterAt, After, Forward;
    t := seq(9, n requires 0 <= n < 9 => Forward(s, DOUBLE_ROUND, n));
    forall n: nat | n < 8
      ensures t[n + 1] == QuarterAt(t[n], DOUBLE_ROUND[n])
    {
      ForwardStep(s, n);
    }
    ForwardStep(s, 0);
    QuarterAfter(t[0], 0, 4, 8, 12);
    QuarterAfter(t[1], 1, 5, 9, 13);
    QuarterAfter(t[2], 2, 6, 10, 14);
    QuarterAfter(t[3], 3, 7, 11, 15);
    QuarterAfter(t[4], 0, 5, 10, 15);
    QuarterAfter(t[5], 1, 6, 11, 12);
    QuarterAfter(t[6], 2, 7, 8, 13);
    QuarterAfter(t[7], 3, 4, 9, 14);
  }

  lemma ColumnsAfter(t0: State, t1: State, t2: State, t3: State, t4: State)
    requires After(t0, t1, 0, 4, 8, 12) && After(t1, t2, 1, 5, 9, 13)
    requires After(t2, t3, 2, 6, 10, 14) && After(t3, t4, 3, 7, 11, 15)
    ensures Quad(t4[0], t4[4], t4[8], t4[12]) == Quarter(Quad(t0[0], t0[4], t0[8], t0[12]))
    ensures Quad(t4[1], t4[5], t4[9], t4[13]) == Quarter(Quad(t0[1], t0[5], t0[9], t0[13]))
    ensures Quad(t4[2], t4[6], t4[10], t4[14]) == Quarter(Quad(t0[2], t0[6], t0[10], t0[14]))
    ensures Quad(t4[3], t4[7], t4[11], t4[15]) == Quarter(Quad(t0[3], t0[7], t0[11], t0[15]))
  {
    hide Quarter;
  }

  lemma DiagonalsAfter(t0: State, t1: State, t2: State, t3: State, t4: State)
    requires After(t0, t1, 0, 5, 10, 15) && After(t1, t2, 1, 6, 11, 12)
    requires After(t2, t3, 2, 7, 8, 13) && After(t3, t4, 3, 4, 9, 14)
    ensures Quad(t4[0], t4[5], t4[10], t4[15]) == Quarter(Quad(t0[0], t0[5], t0[10], t0[15]))
    ensures Quad(t4[1], t4[6], t4[11], t4[12]) == Quarter(Quad(t0[1], t0[6], t0[11], t0[12]))
    ensures Quad(t4[2], t4[7], t4[8], t4[13]) == Quarter(Quad(t0[2], t0[7], t0[8], t0[13]))
    ensures Quad(t4[3], t4[4], t4[9], t4[14]) == Quarter(Quad(t0[3], t0[4], t0[9], t0[14]))
  {
    hide Quarter;
  }

  /** A double round on the sixteen words: a quarter round on each column, then on each
      diagonal. */
  lemma DoubleRoundWords(s: State, t: State)
    requires var q0, q1 := Quarter(Quad(s[0], s[4], s[8], s[12])), Quarter(Quad(s[1], s[5], s[9], s[13]));
      var q2, q3 := Quarter(Quad(s[2], s[6], s[10], s[14])), Quarter(Quad(s[3], s[7], s[11], s[15]));
      && Quarter(Quad(q0.a, q1.b, q2.c, q3.d)) == Quad(t[0], t[5], t[10], t[15])
      && Quarter(Quad(q1.a, q2.b, q3.c, q0.d)) == Quad(t[1], t[6], t[11], t[12])
      && Quarter(Quad(q2.a, q3.b, q0.c, q1.d)) == Quad(t[2], t[7], t[8], t[13])
      && Quarter(Quad(q3.a, q0.b, q1.c, q2.d)) == Quad(t[3], t[4], t[9], t[14])
    ensures DoubleRound(s) == t
  {
    hide Quarter, DoubleRound, After;
    var r := ScheduleIs(s);
    ColumnsAfter(r[0], r[1], r[2], r[3], r[4]);
    DiagonalsAfter(r[4], r[5], r[6], r[7], r[8]);
    SameWords(r[8], t);
  }

  lemma SameWords(s: State, t: State)
    requires Quad(s[0], s[5], s[10], s[15]) == Quad(t[0], t[5], t[10], t[15])
    requires Quad(s[1], s[6], s[11], s[12]) == Quad(t[1], t[6], t[11], t[12])
    requires Quad(s[2], s[7], s[8], s[13]) == Quad(t[2], t[7], t[8], t[13])
    requires Quad(s[3], s[4], s[9], s[14]) == Quad(t[3], t[4], t[9], t[14])
    ensures s == t
  {}

  lemma RoundsStep(s: State, n: nat)
    ensures Rounds(s, 0) == s && Rounds(s, n + 1) == DoubleRound(Rounds(s, n))
  {}

  // ---------- words and bytes ----------

  lemma BlockIs(s: State, r: State, t: State)
    requires Rounds(s, 10) == r && forall i :: 0 <= i < 16 ==> t[i] == Plus(r[i], s[i])
    ensures Block(s) == t
  {
    hide Rounds, Plus;
  }

  /** The block counter advances by one per block, modulo 2^32. */
  lemma CounterSteps(c: bv32, n: nat)
    ensures Advance(c, 0) == c && Advance(c, n + 1) == Advance(c, n) + 1
    ensures Advance(1, 1) == 2 && Advance(0xffffffff, 1) == 0
  {}

  const KEY: Bytes := [
    0x00, 0x01, 0x02, 0x03, 0x04, 0x05, 0x06, 0x07, 0x08, 0x09, 0x0a, 0x0b, 0x0c, 0x0d, 0x0e, 0x0f,
    0x10, 0x11, 0x12, 0x13, 0x14, 0x15, 0x16, 0x17, 0x18, 0x19, 0x1a, 0x1b, 0x1c, 0x1d, 0x1e, 0x1f]

  lemma KeyBits()
    ensures WordOf(0x00, 0x01, 0x02, 0x03) == 0x03020100 && WordOf(0x04, 0x05, 0x06, 0x07) == 0x07060504
    ensures WordOf(0x08, 0x09, 0x0a, 0x0b) == 0x0b0a0908 && WordOf(0x0c, 0x0d, 0x0e, 0x0f) == 0x0f0e0d0c
    ensures WordOf(0x10, 0x11, 0x12, 0x13) == 0x13121110 && WordOf(0x14, 0x15, 0x16, 0x17) == 0x17161514
    ensures WordOf(0x18, 0x19, 0x1a, 0x1b) == 0x1b1a1918 && WordOf(0x1c, 0x1d, 0x1e, 0x1f) == 0x1f1e1d1c
  {}

  lemma KeyWords0()
    ensures LoadWord(KEY, 0) == 0x03020100 && LoadWord(KEY, 4) == 0x07060504
  {
    hide WordOf;
    KeyBits();
  }

  lemma KeyWords1()
    ensures LoadWord(KEY, 8) == 0x0b0a0908 && LoadWord(KEY, 12) == 0x0f0e0d0c
  {
    hide WordOf;
    KeyBits();
  }

  lemma KeyWords2()
    ensures LoadWord(KEY, 16) == 0x13121110 && LoadWord(KEY, 20) == 0x17161514
  {
    hide WordOf;
    KeyBits();
  }

  lemma KeyWords3()
    ensures LoadWord(KEY, 24) == 0x1b1a1918 && LoadWord(KEY, 28) == 0x1f1e1d1c
  {
    hide WordOf;
    KeyBits();
  }

  // ---------- the block of section 2.3.2 ----------

  const B0: State := [
    0x61707865, 0x3320646e, 0x79622d32, 0x6b206574, 0x03020100, 0x07060504, 0x0b0a0908, 0x0f0e0d0c,
    0x13121110, 0x17161514, 0x1b1a1918, 0x1f1e1d1c, 0x00000001, 0x09000000, 0x4a000000, 0x00000000]
  const B1: State := [
    0xcd52e917, 0x85ab03b4, 0xb3457395, 0xf96de7dd, 0xc4b7cd22, 0x5c2e187a, 0xc95eb461, 0x316c801a,
    0x7bf7d740, 0x7eddd644, 0xf1a1bdf5, 0x761246ca, 0x6b0d58a3, 0x6798471a, 0xd737f167, 0xf173888d]
  const B2: State := [
    0xcf1a7584, 0x048927ec, 0x54051fda, 0xc244ff28, 0x901d2f40, 0x7974b81c, 0x378dcfb4, 0xcd47fd0e,
    0x2dafb216, 0x27c89cd6, 0xcd3c9aa0, 0x79fc89c7, 0x10aef18d, 0x16218765, 0x68f76705, 0x04d6ee22]
  const B3: State := [
    0x03a14032, 0x66b15927, 0x9d6b6b42, 0xb84c4109, 0xa7143ae0, 0xa09b33dd, 0xa5daaf88, 0x2fd91a73,
    0xc90c6b18, 0x5a202413, 0xc20e01b6, 0x72cd6b74, 0xba35d777, 0xb360f1bf, 0x8178315b, 0x2cd11b1a]
  const B4: State := [
    0x9a2d3589, 0x0b23fc4e, 0x40af3b6b, 0xceea8144, 0x0a1bffc6, 0x5e5993f7, 0x9904c2e7, 0x0d334718,
    0xe46c6354, 0xc9503229, 0x04fef5aa, 0xf8933f72, 0x2687d476, 0x54e65231, 0x3594ffc5, 0x2b3bb2ca]
  const B5: State := [
    0xc53318c5, 0xca325d96, 0x7e7d11cb, 0x3404e2ca, 0x26d7cf73, 0x6088d379, 0xc0f0e9bd, 0xe310cdb9,
    0xae2ca8db, 0x42f67c72, 0x71669aca, 0x975c171d, 0x9e5ec228, 0x7d85a9f3, 0x201d0756, 0x63fa6953]
  const B6: State := [
    0x04a3131a, 0x66176309, 0x0415bab1, 0x61b880a2, 0x36cc86c7, 0xbf8a4465, 0xf77dd720, 0xfc0bdc90,
    0x07d13aca, 0xeb0be9af, 0x61599491, 0x918512dc, 0x33b6686d, 0x795cc671, 0xc0049972, 0xa0a81bde]
  const B7: State := [
    0x9b70f51f, 0x7ea8ac11, 0x21e54da9, 0xca393b2f, 0x93b08686, 0x6a4c50ae, 0x19212a5a, 0x9b032958,
    0xd839165e, 0x4c06e28a, 0xd3fde99e, 0x26acc13d, 0xa609f555, 0x2c246549, 0x95151853, 0x2c847a0d]
  const B8: State := [
    0xca5c85dd, 0x93a4f90e, 0xd9f0df58, 0x26dd82dd, 0x982563f8, 0x712aa9ff, 0x279a61e8, 0x970f72bd,
    0x1c25931a, 0x5180bb10, 0x779c27e7, 0x54077e08, 0xa9b751fb, 0x382f3ce2, 0x8db1757d, 0xcc38080b]
  const B9: State := [
    0xb6b87de6, 0x9a016148, 0x93859815, 0x4915e6cc, 0xdc33c122, 0x98e18fa3, 0x5ffbe8fc, 0xf7154b8b,
    0x28c1fcb3, 0xc4b38f9d, 0x83e2f5d7, 0x7d24b98b, 0x21078b22, 0xb193e7a3, 0xb2f49389, 0x6cde6026]
  const B10: State := [
    0x837778ab, 0xe238d763, 0xa67ae21e, 0x5950bb2f, 0xc4f2d0c7, 0xfc62bb2f, 0x8fa018fc, 0x3f5ec7b7,
    0x335271c2, 0xf29489f3, 0xeabda8fc, 0x82e46ebd, 0xd19c12b4, 0xb04e16de, 0x9e83d0cb, 0x4e3c50a2]

  lemma BStage0()
    ensures DoubleRound(B0) == B1 && DoubleRound(B1) == B2
  {
    hide DoubleRound;
    DoubleRoundWords(B0, B1);
    DoubleRoundWords(B1, B2);
  }

  lemma BStage2()
    ensures DoubleRound(B2) == B3 && DoubleRound(B3) == B4
  {
    hide DoubleRound;
    DoubleRoundWords(B2, B3);
    DoubleRoundWords(B3, B4);
  }

  lemma BStage4()
    ensures DoubleRound(B4) == B5 && DoubleRound(B5) == B6
  {
    hide DoubleRound;
    DoubleRoundWords(B4, B5);
    DoubleRoundWords(B5, B6);
  }

  lemma BStage6()
    ensures DoubleRound(B6) == B7 && DoubleRound(B7) == B8
  {
    hide DoubleRound;
    DoubleRoundWords(B6, B7);
    DoubleRoundWords(B7, B8);
  }

  lemma BStage8()
    ensures DoubleRound(B8) == B9 && DoubleRound(B9) == B10
  {
    hide DoubleRound;
    DoubleRoundWords(B8, B9);
    DoubleRoundWords(B9, B10);
  }

  const B_BLOCK: State := [
    0xe4e7f110, 0x15593bd1, 0x1fdd0f50, 0xc47120a3, 0xc7f4d1c7, 0x0368c033, 0x9aaa2204, 0x4e6cd4c3,
    0x466482d2, 0x09aa9f07, 0x05d7c214, 0xa2028bd9, 0xd19c12b5, 0xb94e16de, 0xe883d0cb, 0x4e3c50a2]

  lemma BRounds()
    ensures Rounds(B0, 10) == B10
  {
    hide DoubleRound;
    RoundsStep(B0, 0);
    RoundsStep(B0, 1);
    RoundsStep(B0, 2);
    RoundsStep(B0, 3);
    RoundsStep(B0, 4);
    RoundsStep(B0, 5);
    RoundsStep(B0, 6);
    RoundsStep(B0, 7);
    RoundsStep(B0, 8);
    RoundsStep(B0, 9);
    BStage0();
    BStage2();
    BStage4();
    BStage6();
    BStage8();
  }

  lemma BHalf0()
    ensures B_BLOCK[0] == Plus(B10[0], B0[0]) && B_BLOCK[1] == Plus(B10[1], B0[1])
    ensures B_BLOCK[2] == Plus(B10[2], B0[2]) && B_BLOCK[3] == Plus(B10[3], B0[3])
    ensures B_BLOCK[4] == Plus(B10[4], B0[4]) && B_BLOCK[5] == Plus(B10[5], B0[5])
    ensures B_BLOCK[6] == Plus(B10[6], B0[6]) && B_BLOCK[7] == Plus(B10[7], B0[7])
  {}

  lemma BHalf1()
    ensures B_BLOCK[8] == Plus(B10[8], B0[8]) && B_BLOCK[9] == Plus(B10[9], B0[9])
    ensures B_BLOCK[10] == Plus(B10[10], B0[10]) && B_BLOCK[11] == Plus(B10[11], B0[11])
    ensures B_BLOCK[12] == Plus(B10[12], B0[12]) && B_BLOCK[13] == Plus(B10[13], B0[13])
    ensures B_BLOCK[14] == Plus(B10[14], B0[14]) && B_BLOCK[15] == Plus(B10[15], B0[15])
  {}

  lemma BBlock()
    ensures Block(B0) == B_BLOCK
  {
    hide Rounds, Plus;
    BRounds();
    BHalf0();
    BHalf1();
    BlockIs(B0, B10, B_BLOCK);
  }

  const B_NONCE: Bytes := [0x00, 0x00, 0x00, 0x09, 0x00, 0x00, 0x00, 0x4a, 0x00, 0x00, 0x00, 0x00]

  lemma BNonceWords()
    ensures LoadWord(B_NONCE, 0) == 0x09000000 && LoadWord(B_NONCE, 4) == 0x4a000000
    ensures LoadWord(B_NONCE, 8) == 0x00000000
  {}

  lemma BStart()
    ensures InitialState(KEY, B_NONCE, 1) == B0
  {
    hide LoadWord;
    KeyWords0();
    KeyWords1();
    KeyWords2();
    KeyWords3();
    BNonceWords();
  }

  // ---------- the first bytes of section 2.4.2 ----------

  const L0: State := [
    0x61707865, 0x3320646e, 0x79622d32, 0x6b206574, 0x03020100, 0x07060504, 0x0b0a0908, 0x0f0e0d0c,
    0x13121110, 0x17161514, 0x1b1a1918, 0x1f1e1d1c, 0x00000001, 0x00000000, 0x4a000000, 0x00000000]
  const L1: State := [
    0xd767e205, 0x846003b4, 0xb2460395, 0x49bdecdd, 0xa7b1b52a, 0x8f3624d1, 0xb9415d8f, 0xd128051b,
    0x7937ce4a, 0xdeebddb4, 0x5cad36f2, 0xab177919, 0xa01288a2, 0x64d84e1b, 0x073cf1d7, 0xdc671717]
  const L2: State := [
    0xbf43ce78, 0x13e46d52, 0xabf0099e, 0x6d4e9dd4, 0xa1b908e2, 0x844c8567, 0x1356b95f, 0x398712a7,
    0x1ee3248c, 0xcaef37f9, 0xf2a22172, 0x3aaae9a5, 0x40ce5e16, 0xb97fd30b, 0xb95a9cf3, 0xab2dd101]
  const L3: State := [
    0xb5789656, 0x21c5cf77, 0x54a8e95c, 0xfce1ae7f, 0xc6a2bccf, 0x1169be99, 0x6270918e, 0x35d19f90,
    0xb3c6f706, 0x99d84f78, 0x2bc8a797, 0xe960a91e, 0xb36de167, 0xdf686fc9, 0xe865227f, 0x905e8fb9]
  const L4: State := [
    0x728d9057, 0xe936c88a, 0x0d0e4d2c, 0x778e22f1, 0x6516ed81, 0xbba36404, 0x194496a7, 0x28483d3e,
    0xd5cda151, 0xe6c43293, 0x7b6a163b, 0x38f31639, 0xc13ebd99, 0x057645eb, 0xdfa77744, 0xb7cb825b]
  const L5: State := [
    0x9f955567, 0x0cfe3643, 0xe96be77a, 0x498993f5, 0xcb600cea, 0x226827f3, 0xc177eed9, 0x25e44634,
    0x30d95d6d, 0x169c941b, 0x608d69c2, 0x6a343409, 0x0c0f3fc5, 0xd4cfe952, 0x603e27e4, 0x3d356778]
  const L6: State := [
    0xde15ae5c, 0x60351327, 0x7f0d4bd6, 0xf044dea6, 0x096151d3, 0xe545b831, 0x6441a4c3, 0x80526ed1,
    0x091e977b, 0xef790926, 0xa3033e2b, 0x401f3b05, 0xf4602a61, 0x43121e32, 0x4c478ab8, 0x22916f30]
  const L7: State := [
    0xceb45789, 0x05d1fd2e, 0x482f7884, 0x19bc4f79, 0x93aace8a, 0x14dcdf35, 0x878641b0, 0x3dd77cb9,
    0x8b06e300, 0x7b39b1a1, 0xfeb2f68b, 0x7a263f63, 0x72728614, 0xc1aa8d78, 0xcc2b2354, 0x7cfe395a]
  const L8: State := [
    0xb6ef0e0b, 0x3b9b3ff8, 0xb76981da, 0x444291a4, 0x97c2874d, 0x0ba46f35, 0x8cdd9597, 0xd9edd00b,
    0x2b528ac5, 0xb3739ece, 0x6deb9e1e, 0x310c97bc, 0x8c1ccf98, 0xe2076068, 0x24850d82, 0xb932b3bb]
  const L9: State := [
    0x352ce060, 0xd86a2fbd, 0x2966542b, 0xf9f2040b, 0x7b3cfe3d, 0xd10d9090, 0xcbd6d98e, 0xd510b7e2,
    0x80a882e3, 0x741d9c51, 0x04fc29d7, 0x9861ea1c, 0x55e88ae8, 0x2f070a1f, 0xcce2ea94, 0x79e0b6c1]
  const L10: State := [
    0x91e0d6bd, 0xaeb8b6d2, 0xf5c5b0fd, 0x81fcfe44, 0x7f1d128c, 0xdb002739, 0xe1c04676, 0x69c1e692,
    0x8ff82a7a, 0x7af44b5e, 0xb25a609d, 0x15750ed1, 0x40ba4c78, 0xcd343ec6, 0x022c21ea, 0xb7417df0]

  lemma LStage0()
    ensures DoubleRound(L0) == L1 && DoubleRound(L1) == L2
  {
    hide DoubleRound;
    DoubleRoundWords(L0, L1);
    DoubleRoundWords(L1, L2);
  }

  lemma LStage2()
    ensures DoubleRound(L2) == L3 && DoubleRound(L3) == L4
  {
    hide DoubleRound;
    DoubleRoundWords(L2, L3);
    DoubleRoundWords(L3, L4);
  }

  lemma LStage4()
    ensures DoubleRound(L4) == L5 && DoubleRound(L5) == L6
  {
    hide DoubleRound;
    DoubleRoundWords(L4, L5);
    DoubleRoundWords(L5, L6);
  }

  lemma LStage6()
    ensures DoubleRound(L6) == L7 && DoubleRound(L7) == L8
  {
    hide DoubleRound;
    DoubleRoundWords(L6, L7);
    DoubleRoundWords(L7, L8);
  }

  lemma LStage8()
    ensures DoubleRound(L8) == L9 && DoubleRound(L9) == L10
  {
    hide DoubleRound;
    DoubleRoundWords(L8, L9);
    DoubleRoundWords(L9, L10);
  }

  const L_BLOCK: State := [
    0xf3514f22, 0xe1d91b40, 0x6f27de2f, 0xed1d63b8, 0x821f138c, 0xe2062c3d, 0xecca4f7e, 0x78cff39e,
    0xa30a3b8a, 0x920a6072, 0xcd7479b5, 0x34932bed, 0x40ba4c79, 0xcd343ec6, 0x4c2c21ea, 0xb7417df0]

  lemma LRounds()
    ensures Rounds(L0, 10) == L10
  {
    hide DoubleRound;
    RoundsStep(L0, 0);
    RoundsStep(L0, 1);
    RoundsStep(L0, 2);
    RoundsStep(L0, 3);
    RoundsStep(L0, 4);
    RoundsStep(L0, 5);
    RoundsStep(L0, 6);
    RoundsStep(L0, 7);
    RoundsStep(L0, 8);
    RoundsStep(L0, 9);
    LStage0();
    LStage2();
    LStage4();
    LStage6();
    LStage8();
  }

  lemma LHalf0()
    ensures L_BLOCK[0] == Plus(L10[0], L0[0]) && L_BLOCK[1] == Plus(L10[1], L0[1])
    ensures L_BLOCK[2] == Plus(L10[2], L0[2]) && L_BLOCK[3] == Plus(L10[3], L0[3])
    ensures L_BLOCK[4] == Plus(L10[4], L0[4]) && L_BLOCK[5] == Plus(L10[5], L0[5])
    ensures L_BLOCK[6] == Plus(L10[6], L0[6]) && L_BLOCK[7] == Plus(L10[7], L0[7])
  {}

  lemma LHalf1()
    ensures L_BLOCK[8] == Plus(L10[8], L0[8]) && L_BLOCK[9] == Plus(L10[9], L0[9])
    ensures L_BLOCK[10] == Plus(L10[10], L0[10]) && L_BLOCK[11] == Plus(L10[11], L0[11])
    ensures L_BLOCK[12] == Plus(L10[12], L0[12]) && L_BLOCK[13] == Plus(L10[13], L0[13])
    ensures L_BLOCK[14] == Plus(L10[14], L0[14]) && L_BLOCK[15] == Plus(L10[15], L0[15])
  {}

  lemma LBlock()
    ensures Block(L0) == L_BLOCK
  {
    hide Rounds, Plus;
    LRounds();
    LHalf0();
    LHalf1();
    BlockIs(L0, L10, L_BLOCK);
  }

  const L_NONCE: Bytes := [0x00, 0x00, 0x00, 0x00, 0x00, 0x00, 0x00, 0x4a, 0x00, 0x00, 0x00, 0x00]

  lemma LNonceWords()
    ensures LoadWord(L_NONCE, 0) == 0x00000000 && LoadWord(L_NONCE, 4) == 0x4a000000
    ensures LoadWord(L_NONCE, 8) == 0x00000000
  {}

  lemma LStart()
    ensures InitialState(KEY, L_NONCE, 1) == L0
  {
    hide LoadWord;
    KeyWords0();
    KeyWords1();
    KeyWords2();
    KeyWords3();
    LNonceWords();
  }

  const L_BYTES: Bytes := [
    0x22, 0x4f, 0x51, 0xf3, 0x40, 0x1b, 0xd9, 0xe1]

  lemma LBytes()
    ensures WordByte(L_BLOCK[0], 0) == L_BYTES[0] && WordByte(L_BLOCK[0], 1) == L_BYTES[1]
    ensures WordByte(L_BLOCK[0], 2) == L_BYTES[2] && WordByte(L_BLOCK[0], 3) == L_BYTES[3]
    ensures WordByte(L_BLOCK[1], 0) == L_BYTES[4] && WordByte(L_BLOCK[1], 1) == L_BYTES[5]
    ensures WordByte(L_BLOCK[1], 2) == L_BYTES[6] && WordByte(L_BLOCK[1], 3) == L_BYTES[7]
  {}

  // "Ladies a"
  const PLAIN: Bytes := [
    0x4c, 0x61, 0x64, 0x69, 0x65, 0x73, 0x20, 0x61]

  const CIPHER: Bytes := [
    0x6e, 0x2e, 0x35, 0x9a, 0x25, 0x68, 0xf9, 0x80]

  lemma CipherBytes()
    ensures PLAIN[0] ^ L_BYTES[0] == CIPHER[0] && PLAIN[1] ^ L_BYTES[1] == CIPHER[1]
    ensures PLAIN[2] ^ L_BYTES[2] == CIPHER[2] && PLAIN[3] ^ L_BYTES[3] == CIPHER[3]
    ensures PLAIN[4] ^ L_BYTES[4] == CIPHER[4] && PLAIN[5] ^ L_BYTES[5] == CIPHER[5]
    ensures PLAIN[6] ^ L_BYTES[6] == CIPHER[6] && PLAIN[7] ^ L_BYTES[7] == CIPHER[7]
  {}

  lemma StreamWord(j: nat)
    requires j < 8
    ensures StreamByte(KEY, L_NONCE, 1, j) == L_BYTES[j]
  {
    hide WordByte, Block, InitialState;
    LStart();
    LBlock();
    LBytes();
    CounterSteps(1, 0);
    assert j / 64 == 0 && j % 64 == j;
    assert j / 4 == 0 || j / 4 == 1;
  }

  /** The first eight bytes of the ciphertext of section 2.4.2 of RFC 8439. */
  lemma StreamVector()
    ensures XorStream(PLAIN, KEY, L_NONCE, 1) == CIPHER
  {
    hide StreamByte;
    CipherBytes();
    forall j | 0 <= j < 8
      ensures XorStream(PLAIN, KEY, L_NONCE, 1)[j] == CIPHER[j]
    {
      StreamWord(j);
    }
  }

  /** The block of section 2.3.2 of RFC 8439. */
  lemma BlockVector()
    ensures Block(InitialState(KEY, B_NONCE, 1)) == B_BLOCK
  {
    hide Block, InitialState;
    BStart();
    BBlock();
  }
}
