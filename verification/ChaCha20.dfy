/** The ChaCha20 block function and stream of crypto_pipe.h (sections 2.1 to 2.4 of RFC 8439),
    on a little-endian machine. */
module ChaCha20 {
  import opened Bytes

  // ---------- the quarter round and its inverse ----------

  function Plus(a: bv32, b: bv32): bv32 { a + b }
  function Minus(a: bv32, b: bv32): bv32 { a - b }
  function Xor(a: bv32, b: bv32): bv32 { a ^ b }
  function Rotl7(v: bv32): bv32 { (v << 7) | (v >> 25) }
  function Rotl8(v: bv32): bv32 { (v << 8) | (v >> 24) }
  function Rotl12(v: bv32): bv32 { (v << 12) | (v >> 20) }
  function Rotl16(v: bv32): bv32 { (v << 16) | (v >> 16) }
  function Rotl20(v: bv32): bv32 { (v << 20) | (v >> 12) }
  function Rotl24(v: bv32): bv32 { (v << 24) | (v >> 8) }
  function Rotl25(v: bv32): bv32 { (v << 25) | (v >> 7) }

  lemma RotlInverse(v: bv32)
    ensures Rotl25(Rotl7(v)) == v && Rotl7(Rotl25(v)) == v
    ensures Rotl24(Rotl8(v)) == v && Rotl8(Rotl24(v)) == v
    ensures Rotl20(Rotl12(v)) == v && Rotl12(Rotl20(v)) == v
    ensures Rotl16(Rotl16(v)) == v
  {}

  lemma WordInverse(a: bv32, b: bv32)
    ensures Minus(Plus(a, b), b) == a && Plus(Minus(a, b), b) == a && Xor(Xor(a, b), b) == a
  {
    assert Minus(a + b, b) == a && Plus(a - b, b) == a && Xor(a ^ b, b) == a;
  }

  datatype Quad = Quad(a: bv32, b: bv32, c: bv32, d: bv32)

  function Quarter(q: Quad): Quad {
    var a1 := Plus(q.a, q.b);
    var d1 := Rotl16(Xor(q.d, a1));
    var c1 := Plus(q.c, d1);
    var b1 := Rotl12(Xor(q.b, c1));
    var a2 := Plus(a1, b1);
    var d2 := Rotl8(Xor(d1, a2));
    var c2 := Plus(c1, d2);
    Quad(a2, Rotl7(Xor(b1, c2)), c2, d2)
  }

  function UndoQuarter(q: Quad): Quad {
    var b1 := Xor(Rotl25(q.b), q.c);
    var c1 := Minus(q.c, q.d);
    var d1 := Xor(Rotl24(q.d), q.a);
    var a1 := Minus(q.a, b1);
    var b := Xor(Rotl20(b1), c1);
    var c := Minus(c1, d1);
    var d := Xor(Rotl16(d1), a1);
    Quad(Minus(a1, b), b, c, d)
  }

  lemma UndoAfterQuarter(q: Quad)
    ensures UndoQuarter(Quarter(q)) == q
  {
    var a1 := Plus(q.a, q.b);
    var d1 := Rotl16(Xor(q.d, a1));
    var c1 := Plus(q.c, d1);
    var b1 := Rotl12(Xor(q.b, c1));
    var a2 := Plus(a1, b1);
    var d2 := Rotl8(Xor(d1, a2));
    var c2 := Plus(c1, d2);
    RotlInverse(Xor(b1, c2)); WordInverse(b1, c2); WordInverse(c1, d2);
    RotlInverse(Xor(d1, a2)); WordInverse(d1, a2); WordInverse(a1, b1);
    RotlInverse(Xor(q.b, c1)); WordInverse(q.b, c1); WordInverse(q.c, d1);
    RotlInverse(Xor(q.d, a1)); WordInverse(q.d, a1); WordInverse(q.a, q.b);
  }

  lemma QuarterAfterUndo(q: Quad)
    ensures Quarter(UndoQuarter(q)) == q
  {
    var b1 := Xor(Rotl25(q.b), q.c);
    var c1 := Minus(q.c, q.d);
    var d1 := Xor(Rotl24(q.d), q.a);
    var a1 := Minus(q.a, b1);
    var b := Xor(Rotl20(b1), c1);
    var d := Xor(Rotl16(d1), a1);
    WordInverse(a1, b); WordInverse(Rotl16(d1), a1); RotlInverse(d1);
    WordInverse(c1, d1); WordInverse(Rotl20(b1), c1); RotlInverse(b1);
    WordInverse(q.a, b1); WordInverse(Rotl24(q.d), q.a); RotlInverse(q.d);
    WordInverse(q.c, q.d); WordInverse(Rotl25(q.b), q.c); RotlInverse(q.b);
  }

  // ---------- the rounds on the 16-word state ----------

  type State = s: seq<bv32> | |s| == 16 witness seq(16, _ => 0)

  /** Four distinct word positions. */
  datatype Lanes = Lanes(i: nat, j: nat, k: nat, l: nat) {
    predicate Valid() {
      i < 16 && j < 16 && k < 16 && l < 16 && i != j && i != k && i != l && j != k && j != l && k != l
    }
  }

  function Pick(s: State, p: Lanes): Quad
    requires p.Valid()
  {
    Quad(s[p.i], s[p.j], s[p.k], s[p.l])
  }

  function Place(s: State, p: Lanes, q: Quad): State
    requires p.Valid()
  {
    s[p.i := q.a][p.j := q.b][p.k := q.c][p.l := q.d]
  }

  function QuarterAt(s: State, p: Lanes): State
    requires p.Valid()
  {
    Place(s, p, Quarter(Pick(s, p)))
  }

  function UndoAt(s: State, p: Lanes): State
    requires p.Valid()
  {
    Place(s, p, UndoQuarter(Pick(s, p)))
  }

  lemma PlacePick(s: State, p: Lanes, q: Quad)
    requires p.Valid()
    ensures Pick(Place(s, p, q), p) == q && Place(Place(s, p, q), p, Pick(s, p)) == s
  {}

  lemma QuarterAtInverse(s: State, p: Lanes)
    requires p.Valid()
    ensures UndoAt(QuarterAt(s, p), p) == s && QuarterAt(UndoAt(s, p), p) == s
  {
    PlacePick(s, p, Quarter(Pick(s, p)));
    UndoAfterQuarter(Pick(s, p));
    PlacePick(s, p, UndoQuarter(Pick(s, p)));
    QuarterAfterUndo(Pick(s, p));
  }

  /** The eight quarter rounds of a double round: four columns, then four diagonals. */
  const DOUBLE_ROUND: seq<Lanes> := [
    Lanes(0, 4, 8, 12), Lanes(1, 5, 9, 13), Lanes(2, 6, 10, 14), Lanes(3, 7, 11, 15),
    Lanes(0, 5, 10, 15), Lanes(1, 6, 11, 12), Lanes(2, 7, 8, 13), Lanes(3, 4, 9, 14)]

  predicate ValidSchedule(ps: seq<Lanes>) {
    forall i :: 0 <= i < |ps| ==> ps[i].Valid()
  }

  /** The first n quarter rounds of a schedule. */
  function Forward(s: State, ps: seq<Lanes>, n: nat): State
    requires ValidSchedule(ps) && n <= |ps|
    decreases n
  {
    if n == 0 then s else QuarterAt(Forward(s, ps, n - 1), ps[n - 1])
  }

  function Backward(s: State, ps: seq<Lanes>, n: nat): State
    requires ValidSchedule(ps) && n <= |ps|
    decreases n
  {
    if n == 0 then s else Backward(UndoAt(s, ps[n - 1]), ps, n - 1)
  }

  lemma {:induction false} BackwardForward(s: State, ps: seq<Lanes>, n: nat)
    requires ValidSchedule(ps) && n <= |ps|
    ensures Backward(Forward(s, ps, n), ps, n) == s
  {
    hide QuarterAt, UndoAt;
    if n > 0 {
      QuarterAtInverse(Forward(s, ps, n - 1), ps[n - 1]);
      BackwardForward(s, ps, n - 1);
    }
  }

  lemma {:induction false} ForwardBackward(s: State, ps: seq<Lanes>, n: nat)
    requires ValidSchedule(ps) && n <= |ps|
    ensures Forward(Backward(s, ps, n), ps, n) == s
    decreases n
  {
    hide QuarterAt, UndoAt;
    if n > 0 {
      QuarterAtInverse(s, ps[n - 1]);
      ForwardBackward(UndoAt(s, ps[n - 1]), ps, n - 1);
    }
  }

  function DoubleRound(s: State): State {
    Forward(s, DOUBLE_ROUND, 8)
  }

  function UndoDoubleRound(s: State): State {
    Backward(s, DOUBLE_ROUND, 8)
  }

  lemma DoubleRoundInverse(s: State)
    ensures UndoDoubleRound(DoubleRound(s)) == s && DoubleRound(UndoDoubleRound(s)) == s
  {
    BackwardForward(s, DOUBLE_ROUND, 8);
    ForwardBackward(s, DOUBLE_ROUND, 8);
  }

  function Rounds(s: State, n: nat): State
    decreases n
  {
    if n == 0 then s else DoubleRound(Rounds(s, n - 1))
  }

  function UndoRounds(s: State, n: nat): State
    decreases n
  {
    if n == 0 then s else UndoRounds(UndoDoubleRound(s), n - 1)
  }

  /** The double rounds are a bijection on states, with UndoRounds as the inverse. */
  lemma {:induction false} RoundsInverse(s: State, n: nat)
    ensures UndoRounds(Rounds(s, n), n) == s && Rounds(UndoRounds(s, n), n) == s
    decreases n
  {
    hide DoubleRound, UndoDoubleRound;
    if n > 0 {
      DoubleRoundInverse(Rounds(s, n - 1));
      RoundsInverse(s, n - 1);
      DoubleRoundInverse(s);
      RoundsInverse(UndoDoubleRound(s), n - 1);
    }
  }

  /** chacha20_block: ten double rounds, then the input is added back. */
  function Block(s: State): State {
    seq(16, i requires 0 <= i < 16 => Plus(Rounds(s, 10)[i], s[i]))
  }

  /** The eight assignments of QUARTERROUND on a value. */
  lemma QuarterSteps(s: State, p: Lanes)
    requires p.Valid()
    ensures var s1 := s[p.i := Plus(s[p.i], s[p.j])];
            var s2 := s1[p.l := Rotl16(Xor(s1[p.l], s1[p.i]))];
            var s3 := s2[p.k := Plus(s2[p.k], s2[p.l])];
            var s4 := s3[p.j := Rotl12(Xor(s3[p.j], s3[p.k]))];
            var s5 := s4[p.i := Plus(s4[p.i], s4[p.j])];
            var s6 := s5[p.l := Rotl8(Xor(s5[p.l], s5[p.i]))];
            var s7 := s6[p.k := Plus(s6[p.k], s6[p.l])];
            s7[p.j := Rotl7(Xor(s7[p.j], s7[p.k]))] == QuarterAt(s, p)
  {
    hide Plus, Xor, Rotl7, Rotl8, Rotl12, Rotl16;
  }

  /** QUARTERROUND on four words of x, statement by statement. */
  method QuarterRound(x: array<bv32>, p: Lanes)
    requires x.Length == 16 && p.Valid()
    modifies x
    ensures x[..] == QuarterAt(old(x[..]), p)
  {
    hide Plus, Xor, Rotl7, Rotl8, Rotl12, Rotl16, QuarterAt;
    QuarterSteps(x[..], p);
    x[p.i] := Plus(x[p.i], x[p.j]);
    x[p.l] := Rotl16(Xor(x[p.l], x[p.i]));
    x[p.k] := Plus(x[p.k], x[p.l]);
    x[p.j] := Rotl12(Xor(x[p.j], x[p.k]));
    x[p.i] := Plus(x[p.i], x[p.j]);
    x[p.l] := Rotl8(Xor(x[p.l], x[p.i]));
    x[p.k] := Plus(x[p.k], x[p.l]);
    x[p.j] := Rotl7(Xor(x[p.j], x[p.k]));
  }

  /** The body of the round loop: eight quarter rounds. */
  method DoubleRoundInPlace(x: array<bv32>)
    requires x.Length == 16
    modifies x
    ensures x[..] == DoubleRound(old(x[..]))
  {
    hide QuarterAt;
    QuarterRound(x, Lanes(0, 4, 8, 12));
    QuarterRound(x, Lanes(1, 5, 9, 13));
    QuarterRound(x, Lanes(2, 6, 10, 14));
    QuarterRound(x, Lanes(3, 7, 11, 15));
    QuarterRound(x, Lanes(0, 5, 10, 15));
    QuarterRound(x, Lanes(1, 6, 11, 12));
    QuarterRound(x, Lanes(2, 7, 8, 13));
    QuarterRound(x, Lanes(3, 4, 9, 14));
  }

  /** chacha20_block. */
  method ChachaBlock(out: array<bv32>, inp: array<bv32>)
    requires out.Length == inp.Length == 16 && out != inp
    modifies out
    ensures out[..] == Block(inp[..])
  {
    hide DoubleRound, Plus;
    ghost var s: State := inp[..];
    var x := new bv32[16](i requires 0 <= i < 16 reads inp => inp[i]);
    assert x[..] == s;
    for i := 0 to 10
      invariant x[..] == Rounds(s, i)
    {
      DoubleRoundInPlace(x);
    }
    for i := 0 to 16
      invariant x[..] == Rounds(s, 10)
      invariant forall j :: 0 <= j < i ==> out[j] == Plus(x[j], s[j])
    {
      out[i] := Plus(x[i], inp[i]);
    }
    assert out[..] == Block(s);
  }

  // ---------- the keystream ----------

  /** Byte i of a word in memory, the least significant first. */
  function WordByte(w: bv32, i: nat): bv8
    requires i < 4
  {
    if i == 0 then (w & 0xFF) as bv8
    else if i == 1 then ((w >> 8) & 0xFF) as bv8
    else if i == 2 then ((w >> 16) & 0xFF) as bv8
    else (w >> 24) as bv8
  }

  function WordOf(b0: bv8, b1: bv8, b2: bv8, b3: bv8): bv32 {
    (b0 as bv32) | (b1 as bv32 << 8) | (b2 as bv32 << 16) | (b3 as bv32 << 24)
  }

  /** The bytes of a word are the bytes it was read from. */
  lemma WordOfBytes(b0: bv8, b1: bv8, b2: bv8, b3: bv8)
    ensures WordByte(WordOf(b0, b1, b2, b3), 0) == b0 && WordByte(WordOf(b0, b1, b2, b3), 1) == b1
    ensures WordByte(WordOf(b0, b1, b2, b3), 2) == b2 && WordByte(WordOf(b0, b1, b2, b3), 3) == b3
  {}

  function LoadWord(b: Bytes, at: nat): bv32
    requires at + 4 <= |b|
  {
    WordOf(b[at], b[at + 1], b[at + 2], b[at + 3])
  }

  function LoadWords(b: Bytes, n: nat): seq<bv32>
    requires 4 * n <= |b|
  {
    seq(n, i requires 0 <= i < n => LoadWord(b, 4 * i))
  }

  function InitialState(key: Bytes, nonce: Bytes, counter: bv32): State
    requires |key| == 32 && |nonce| == 12
  {
    [0x61707865, 0x3320646e, 0x79622d32, 0x6b206574] + LoadWords(key, 8) + [counter] + LoadWords(nonce, 3)
  }

  function KeystreamByte(key: Bytes, nonce: Bytes, counter: bv32, j: nat): bv8
    requires |key| == 32 && |nonce| == 12 && j < 64
  {
    WordByte(Block(InitialState(key, nonce, counter))[j / 4], j % 4)
  }

  /** The block counter after n increments of state[12], which wraps at 2^32. */
  function Advance(counter: bv32, n: nat): bv32 {
    if n == 0 then counter else Advance(counter, n - 1) + 1
  }

  /** Byte j of the whole keystream. */
  function StreamByte(key: Bytes, nonce: Bytes, counter: bv32, j: nat): bv8
    requires |key| == 32 && |nonce| == 12
  {
    KeystreamByte(key, nonce, Advance(counter, j / 64), j % 64)
  }

  /** chacha20_xor position by position. */
  function XorStream(inp: Bytes, key: Bytes, nonce: Bytes, counter: bv32): (out: Bytes)
    requires |key| == 32 && |nonce| == 12
    ensures |out| == |inp|
  {
    seq(|inp|, j requires 0 <= j < |inp| => inp[j] ^ StreamByte(key, nonce, counter, j))
  }

  /** The stream cipher is its own inverse. */
  lemma XorStreamInvolution(inp: Bytes, key: Bytes, nonce: Bytes, counter: bv32)
    requires |key| == 32 && |nonce| == 12
    ensures XorStream(XorStream(inp, key, nonce, counter), key, nonce, counter) == inp
  {}

  lemma {:induction false} AdvanceAdd(counter: bv32, m: nat, n: nat)
    ensures Advance(Advance(counter, m), n) == Advance(counter, m + n)
  {
    if n > 0 {
      AdvanceAdd(counter, m, n - 1);
    }
  }

  lemma DivShift(m: nat, j: nat)
    ensures (64 * m + j) / 64 == m + j / 64 && (64 * m + j) % 64 == j % 64
  {}

  lemma StreamByteShift(key: Bytes, nonce: Bytes, counter: bv32, m: nat, j: nat)
    requires |key| == 32 && |nonce| == 12
    ensures StreamByte(key, nonce, counter, 64 * m + j) == StreamByte(key, nonce, Advance(counter, m), j)
  {
    hide KeystreamByte, Advance;
    DivShift(m, j);
    AdvanceAdd(counter, m, j / 64);
  }

  /** Cutting the input at a multiple of 64 and advancing the counter gives the same stream. */
  lemma XorStreamSplit(inp: Bytes, m: nat, key: Bytes, nonce: Bytes, counter: bv32)
    requires |key| == 32 && |nonce| == 12 && 64 * m <= |inp|
    ensures XorStream(inp, key, nonce, counter)
         == XorStream(inp[..64 * m], key, nonce, counter)
            + XorStream(inp[64 * m..], key, nonce, Advance(counter, m))
  {
    hide StreamByte, Advance;
    forall j: nat | 64 * m + j < |inp|
      ensures XorStream(inp, key, nonce, counter)[64 * m + j]
           == XorStream(inp[64 * m..], key, nonce, Advance(counter, m))[j]
    {
      StreamByteShift(key, nonce, counter, m, j);
    }
    forall j | 64 * m <= j < |inp|
      ensures XorStream(inp, key, nonce, counter)[j]
           == XorStream(inp[64 * m..], key, nonce, Advance(counter, m))[j - 64 * m]
    {
      assert j == 64 * m + (j - 64 * m);
    }
  }

  /** The setup of state[]. */
  method InitState(key: Bytes, nonce: Bytes, counter: bv32) returns (state: array<bv32>)
    requires |key| == 32 && |nonce| == 12
    ensures fresh(state) && state[..] == InitialState(key, nonce, counter)
  {
    hide LoadWord;
    state := new bv32[16];
    state[0] := 0x61707865;
    state[1] := 0x3320646e;
    state[2] := 0x79622d32;
    state[3] := 0x6b206574;
    forall i | 0 <= i < 8 {
      state[4 + i] := LoadWord(key, 4 * i);
    }
    state[12] := counter;
    forall i | 0 <= i < 3 {
      state[13 + i] := LoadWord(nonce, 4 * i);
    }
    assert state[..] == InitialState(key, nonce, counter);
  }

  /** The inner loop: one keystream block laid over the input at a multiple of 64. */
  method XorBlock(out: array<bv8>, inp: Bytes, keystream: array<bv32>, m: nat, blockLen: nat,
                  key: Bytes, nonce: Bytes, ghost counter: bv32)
    requires |key| == 32 && |nonce| == 12 && out.Length >= |inp| && keystream.Length == 16
    requires keystream[..] == Block(InitialState(key, nonce, Advance(counter, m)))
    requires blockLen <= 64 && 64 * m + blockLen <= |inp|
    requires out as object != keystream
    modifies out
    ensures forall j :: 64 * m <= j < 64 * m + blockLen ==> out[j] == inp[j] ^ StreamByte(key, nonce, counter, j)
    ensures forall j :: 0 <= j < out.Length && !(64 * m <= j < 64 * m + blockLen) ==> out[j] == old(out[j])
  {
    hide Block, WordByte, InitialState;
    var offset := 64 * m;
    ghost var ks: State := keystream[..];
    for i := 0 to blockLen
      invariant keystream[..] == ks
      invariant forall j :: offset <= j < offset + i ==> out[j] == inp[j] ^ StreamByte(key, nonce, counter, j)
      invariant forall j :: 0 <= j < out.Length && !(offset <= j < offset + i) ==> out[j] == old(out[j])
    {
      DivShift(m, i);
      assert keystream[i / 4] == ks[i / 4];
      out[offset + i] := inp[offset + i] ^ WordByte(keystream[i / 4], i % 4);
    }
  }

  /** chacha20_xor. */
  method ChachaXor(out: array<bv8>, inp: Bytes, key: Bytes, nonce: Bytes, counter: bv32)
    requires |key| == 32 && |nonce| == 12 && out.Length >= |inp|
    modifies out
    ensures out[..|inp|] == XorStream(inp, key, nonce, counter)
    ensures forall j :: |inp| <= j < out.Length ==> out[j] == old(out[j])
  {
    hide Block, StreamByte;
    var state := InitState(key, nonce, counter);
    var keystream := new bv32[16];
    var offset, len := 0, |inp|;
    var blocks := 0;
    while offset < len
      invariant offset <= len && (offset == 64 * blocks || offset == len)
      invariant state[..] == InitialState(key, nonce, Advance(counter, blocks))
      invariant forall j :: 0 <= j < offset ==> out[j] == inp[j] ^ StreamByte(key, nonce, counter, j)
      invariant forall j :: len <= j < out.Length ==> out[j] == old(out[j])
    {
      ChachaBlock(keystream, state);
      state[12] := state[12] + 1;
      assert state[..] == InitialState(key, nonce, Advance(counter, blocks + 1));
      var blockLen := if len - offset < 64 then len - offset else 64;
      XorBlock(out, inp, keystream, blocks, blockLen, key, nonce, counter);
      offset := offset + blockLen;
      blocks := blocks + 1;
    }
  }
}
