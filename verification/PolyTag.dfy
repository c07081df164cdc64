/** When the tag of poly1305_auth is the tag of section 2.5.1 of RFC 8439.  The code adds s to
    an accumulator that it has not reduced below 2^130 - 5. */
module PolyTag {
  import opened Bytes
  import opened Poly1305
  import opened PolyMessage

  /** The RFC's tag: the low 128 bits of the reduced accumulator plus s. */
  function RfcTag(msg: Bytes, key: Bytes): Bytes
    requires |key| >= 32
  {
    StoreLE((RfcAccumulator(msg, key) + LoadLE(key[16..32])) % B2, 16)
  }

  lemma {:induction false} StoreAppend(x: nat, y: nat, m: nat, n: nat)
    requires x < Pow256(m)
    ensures StoreLE(x, m) + StoreLE(y, n) == StoreLE(x + Pow256(m) * y, m + n)
    decreases m
  {
    hide ByteOf, StoreLE;
    if m == 0 {
      assert StoreLE(x, 0) == [] && x == 0;
    } else {
      StoreAppend(x / 256, y, m - 1, n);
      NextDigit(x, Pow256(m - 1), y);
      SameByte(x, Pow256(m - 1) * y);
      StoreUnfold(x, m);
      StoreUnfold(x + Pow256(m) * y, m + n);
    }
  }

  lemma NextDigit(x: nat, p: nat, y: nat)
    ensures (x + 256 * p * y) / 256 == x / 256 + p * y
  {
    assert 256 * p * y == 256 * (p * y);
  }

  lemma SameByte(x: nat, z: nat)
    ensures ByteOf(x + 256 * z) == ByteOf(x)
  {
    hide ByteOf;
    SameLowDigit(x, z);
    ByteOfDigit(x, x + 256 * z);
  }

  lemma SameLowDigit(x: nat, z: nat)
    ensures (x + 256 * z) % 256 == x % 256
  {}

  lemma ByteOfDigit(x: nat, y: nat)
    requires x % 256 == y % 256
    ensures ByteOf(x) == ByteOf(y)
  {}

  lemma StoreInjective(x: nat, y: nat, n: nat)
    requires x < Pow256(n) && y < Pow256(n)
    ensures StoreLE(x, n) == StoreLE(y, n) <==> x == y
  {
    LoadStore(x, n);
    LoadStore(y, n);
  }

  lemma WordSizes()
    ensures Pow256(8) == B && Pow256(16) == B2
  {
    PowAdd256(8, 8);
  }

  /** The two wrapped additions are one addition modulo 2^128. */
  lemma FinalSum(h: Acc, s0: u64, s1: u64)
    ensures var f0 := Wrap(h.h0 + s0);
      f0 + Wrap(h.h1 + s1 + Carry(f0 < s0)) * B == (h.Value() + s0 + s1 * B) % B2
  {
    hide Wrap, Carry;
    var f0 := Wrap(h.h0 + s0);
    CarryOfSum(h.h0, s0);
    var sum := h.h1 + s1 + Carry(f0 < s0);
    WrapSplit(sum);
    LowPart(f0 + Wrap(sum) * B, sum / B + h.h2);
    assert h.Value() + s0 + s1 * B == f0 + Wrap(sum) * B + (sum / B + h.h2) * B2;
  }

  lemma WrapSplit(x: int)
    ensures x == Wrap(x) + x / B * B
  {}

  lemma LowPart(low: int, high: int)
    requires 0 <= low < B2
    ensures (low + high * B2) % B2 == low
  {}

  lemma TagIs(msg: Bytes, key: Bytes)
    requires |key| >= 32
    ensures Tag(msg, key) == StoreLE((Accumulator(msg, key).Value() + LoadLE(key[16..32])) % B2, 16)
  {
    hide StoreLE, LoadLE, Absorb, R0, R1, Wrap, Carry, Word, Acc.Value;
    var h := Accumulator(msg, key);
    var s0, s1 := Word(key, 16), Word(key, 24);
    LoadS(key);
    FinalSum(h, s0, s1);
    StoreWords(Wrap(h.h0 + s0), Wrap(h.h1 + s1 + Carry(Wrap(h.h0 + s0) < s0)));
  }

  lemma LoadS(key: Bytes)
    requires |key| >= 32
    ensures LoadLE(key[16..32]) == Word(key, 16) + Word(key, 24) * B
  {
    hide LoadLE;
    WordSizes();
    LoadAppend(key[16..24], key[24..32]);
    assert key[16..32] == key[16..24] + key[24..32];
  }

  lemma StoreWords(f0: u64, f1: u64)
    ensures StoreLE(f0, 8) + StoreLE(f1, 8) == StoreLE(f0 + f1 * B, 16)
  {
    hide StoreLE;
    WordSizes();
    StoreAppend(f0, f1, 8, 8);
  }

  lemma {:induction false} RfcReduced(a: int, r: int, msg: Bytes)
    requires 0 <= a < P
    ensures 0 <= RfcAccumulate(a, r, msg) < P
    decreases |msg|
  {
    hide LoadLE;
    if |msg| > 16 {
      RfcReduced(RfcTurn(a, LoadLE(msg[..16] + [1]), r), r, msg[16..]);
    }
  }

  lemma {:induction false} AbsorbBounded(h: Acc, r0: u64, r1: u64, msg: Bytes)
    requires h.h2 <= 4
    ensures Absorb(h, r0, r1, msg).h2 <= 4
    decreases |msg|
  {
    hide Step;
    if msg != [] {
      var n := ChunkLength(msg);
      var b := Buffer(msg[..n]);
      StepBounded(h, Word(b, 0), Word(b, 8), High(b), r0, r1);
      AbsorbBounded(StepOn(h, r0, r1, msg[..n]), r0, r1, msg[n..]);
    }
  }

  /** Adding P once changes the low 128 bits. */
  lemma LowBitsDiffer(v: int, a: int)
    requires 0 <= v < 2 * P && 0 <= a < P && v % P == a % P
    ensures (v - a) % B2 == 0 <==> v < P
  {}

  lemma AccumulatorBounds(msg: Bytes, key: Bytes)
    requires |key| >= 32
    ensures 0 <= Accumulator(msg, key).Value() < 5 * B2 && 0 <= RfcAccumulator(msg, key) < P
  {
    hide Absorb, RfcAccumulate, R0, R1;
    AbsorbBounded(Acc(0, 0, 0), R0(key), R1(key), msg);
    RfcReduced(0, RfcR(key), msg);
  }

  lemma SameLowBits(v: int, a: int, s: int)
    ensures (v + s) % B2 == (a + s) % B2 <==> (v - a) % B2 == 0
  {}

  /** For every message and key, the tags agree exactly when the accumulators agree on their
      low 128 bits. */
  lemma TagAgrees(msg: Bytes, key: Bytes)
    requires |key| >= 32
    ensures Tag(msg, key) == RfcTag(msg, key)
        <==> (Accumulator(msg, key).Value() - RfcAccumulator(msg, key)) % B2 == 0
  {
    hide StoreLE, LoadLE, Accumulator, RfcAccumulator, Pow256, Tag, Acc.Value;
    var v, a, s := Accumulator(msg, key).Value(), RfcAccumulator(msg, key), LoadLE(key[16..32]);
    TagIs(msg, key);
    AccumulatorBounds(msg, key);
    WordSizes();
    StoreInjective((v + s) % B2, (a + s) % B2, 16);
    SameLowBits(v, a, s);
  }

  /** Once the losses of the turns cancel, the tag is the RFC's exactly when the accumulator
      happens to be below 2^130 - 5 already. */
  lemma TagExact(msg: Bytes, key: Bytes)
    requires |key| >= 32 && Loss(msg, key) % P == 0
    ensures Tag(msg, key) == RfcTag(msg, key) <==> Accumulator(msg, key).Value() < P
  {
    hide Accumulator, RfcAccumulator, Loss, Tag, RfcTag, Acc.Value;
    TagAgrees(msg, key);
    AccumulatorExact(msg, key);
    AccumulatorBounds(msg, key);
    LowBitsDiffer(Accumulator(msg, key).Value(), RfcAccumulator(msg, key));
  }

  // ---------- messages of one chunk ----------

  /** No loss of a single turn hides in the bits above 2^128. */
  lemma LossShows(q: int, ov: int, j: int)
    requires 0 <= q < 0x8000_0000_0000_0000 && (ov == 0 || ov == 1) && -4 <= j <= 4
    requires (j * B2 + q * B3 + ov * B) % P == 0
    ensures q == 0 && ov == 0 && j == 0
  {
    assert j * B2 + q * B3 + ov * B == B * (j * B + q * B2 + ov);
    DropFactor(j * B + q * B2 + ov);
    var u, v := q / 4, q % 4;
    assert j * B + q * B2 + ov == (j * B + v * B2 + 5 * u + ov) + u * P;
    ShiftByP(j * B + v * B2 + 5 * u + ov, u);
    NoSmallMultiple(j * B + v * B2 + 5 * u + ov);
    DigitsVanish(j, u, v, ov);
  }

  lemma NoSmallMultiple(x: int)
    requires -P < x < P && x % P == 0
    ensures x == 0
  {}

  lemma DigitsVanish(j: int, u: int, v: int, ov: int)
    requires -4 <= j <= 4 && 0 <= u < 0x2000_0000_0000_0000 && 0 <= v <= 3 && 0 <= ov <= 1
    requires j * B + v * B2 + 5 * u + ov == 0
    ensures j == 0 && u == 0 && v == 0 && ov == 0
  {}

  lemma LowBitsOfLoss(v: int, a: int, e: int, q: int, ov: int)
    requires 0 <= v < 5 * B2 && 0 <= a < P && Congruent(v, a - e) && e == q * B3 + ov * B
    requires 0 <= q < 0x8000_0000_0000_0000 && (ov == 0 || ov == 1)
    ensures (v - a) % B2 == 0 ==> e == 0
  {
    if (v - a) % B2 == 0 {
      var j := (v - a) / B2;
      assert v - a == j * B2;
      assert v - (a - e) == j * B2 + q * B3 + ov * B;
      LossShows(q, ov, j);
    }
  }

  /** From a zero accumulator line 143 loses nothing. */
  lemma FirstShortfall(n0: u64, n1: u64, hibit: u64, r0: u64, r1: u64) returns (q: int, ov: int)
    requires hibit <= 1 && Clamped(r0, r1)
    ensures Shortfall(Acc(0, 0, 0), n0, n1, hibit, r0, r1) == q * B3 + ov * B
    ensures 0 <= q < 0x8000_0000_0000_0000 && (ov == 0 || ov == 1)
  {
    var n, r := BlockNumber(n0, n1, hibit), r0 + r1 * B;
    QuotientBound(n, r);
    q, ov := n * r / B3, if n * r % B3 / (4 * B2) * 5 >= B then 1 else 0;
  }

  lemma OneChunkLoss(msg: Bytes, key: Bytes) returns (q: int, ov: int)
    requires |key| >= 32 && 0 < |msg| <= 16
    ensures Loss(msg, key) == q * B3 + ov * B == ChunkLoss(Acc(0, 0, 0), R0(key), R1(key), msg)
    ensures 0 <= q < 0x8000_0000_0000_0000 && (ov == 0 || ov == 1)
  {
    hide R0, R1, Shortfall, StepOn, Word, High, Buffer, Clamped;
    var zero, r0, r1, b := Acc(0, 0, 0), R0(key), R1(key), Buffer(msg);
    ClampedKey(key);
    BufferNumber(msg);
    q, ov := FirstShortfall(Word(b, 0), Word(b, 8), High(b), r0, r1);
    assert msg[..ChunkLength(msg)] == msg && msg[ChunkLength(msg)..] == [];
    assert Loss(msg, key) == Drift(StepOn(zero, r0, r1, msg), ChunkLoss(zero, r0, r1, msg), r0, r1, []);
  }

  lemma ShortTagTurn(msg: Bytes, key: Bytes)
    requires |key| >= 32 && 0 < |msg| <= 16
    ensures Tag(msg, key) == RfcTag(msg, key)
        <==> ChunkIsExact(Acc(0, 0, 0), R0(key), R1(key), msg) && Accumulator(msg, key).Value() < P
  {
    hide R0, R1, Accumulator, RfcAccumulator, Loss, Tag, RfcTag, ChunkIsExact, ChunkLoss, Acc.Value, StepOn, Clamped;
    var q, ov := OneChunkLoss(msg, key);
    ClampedKey(key);
    ChunkLossVanishes(Acc(0, 0, 0), R0(key), R1(key), msg);
    if Loss(msg, key) % P == 0 {
      TagExact(msg, key);
    } else {
      TagAgrees(msg, key);
      AccumulatorBounds(msg, key);
      AccumulatorDrift(msg, key);
      LowBitsOfLoss(Accumulator(msg, key).Value(), RfcAccumulator(msg, key), Loss(msg, key), q, ov);
    }
  }

  /** The product of the one turn over a short message. */
  function ShortProduct(msg: Bytes, key: Bytes): int
    requires |key| >= 32
  {
    LoadLE(msg + [1]) * RfcR(key)
  }

  /** From a zero accumulator, an exact turn folds the product once. */
  lemma FirstTurnValue(n0: u64, n1: u64, hibit: u64, r0: u64, r1: u64, x: int)
    requires hibit <= 1 && x == BlockNumber(n0, n1, hibit) * (r0 + r1 * B) && 0 <= x
    requires x / (4 * B2) * 5 < B
    ensures Step(Acc(0, 0, 0), n0, n1, hibit, r0, r1).Value() == x % (4 * B2) + x / (4 * B2) * 5
  {
    hide AddBlock, MulAcc, Reduce, Acc.Value, FoldOverflows;
    var zero := Acc(0, 0, 0);
    var sum := AddBlock(zero, n0, n1, hibit);
    ZeroValue();
    AddBlockExact(zero, n0, n1, hibit);
    MulAccExact(sum, r0, r1);
    FoldFits(x);
    var m := MulAcc(sum, r0, r1);
    SmallModulo(x);
    assert m.Value() == x;
    FoldOfProduct(sum, r0, r1);
    ReduceExact(m);
    HighLimb(m);
    NestedQuotient(x);
    FoldedValue(x);
  }

  lemma SmallModulo(x: int)
    requires 0 <= x && x / B3 == 0
    ensures x % B3 == x
  {}

  lemma FoldedValue(x: int)
    ensures x - x / (4 * B2) * P == x % (4 * B2) + x / (4 * B2) * 5
  {}

  lemma FirstTurnExact(n0: u64, n1: u64, hibit: u64, r0: u64, r1: u64, x: int)
    requires x == BlockNumber(n0, n1, hibit) * (r0 + r1 * B)
    ensures StepIsExact(Acc(0, 0, 0), n0, n1, hibit, r0, r1) <==> x / (4 * B2) * 5 < B
  {
    hide BlockNumber;
    ZeroValue();
  }

  lemma ShortTurn(msg: Bytes, key: Bytes)
    requires |key| >= 32 && 0 < |msg| <= 16
    ensures ShortProduct(msg, key) >= 0
    ensures ChunkIsExact(Acc(0, 0, 0), R0(key), R1(key), msg) <==> ShortProduct(msg, key) / (4 * B2) * 5 < B
    ensures var x := ShortProduct(msg, key);
      x / (4 * B2) * 5 < B ==> Accumulator(msg, key).Value() == x % (4 * B2) + x / (4 * B2) * 5
  {
    hide R0, R1, RfcR, Step, StepIsExact, BlockNumber, Word, High, Buffer, LoadLE, Acc.Value;
    var b, r0, r1, x := Buffer(msg), R0(key), R1(key), ShortProduct(msg, key);
    BufferNumber(msg);
    ClampExact(key);
    ProductNonnegative(LoadLE(msg + [1]), r0 + r1 * B);
    FirstTurnExact(Word(b, 0), Word(b, 8), High(b), r0, r1, x);
    if x / (4 * B2) * 5 < B {
      FirstTurnValue(Word(b, 0), Word(b, 8), High(b), r0, r1, x);
    }
    ZeroProduct(LoadLE(msg + [1]), r0, r1);
    OneTurn(msg, r0, r1);
  }

  lemma ZeroProduct(n: int, r0: int, r1: int)
    ensures r0 == 0 && r1 == 0 ==> n * (r0 + r1 * B) == 0
  {}

  lemma OneTurn(msg: Bytes, r0: u64, r1: u64)
    requires 0 < |msg| <= 16
    ensures Absorb(Acc(0, 0, 0), r0, r1, msg) == StepOn(Acc(0, 0, 0), r0, r1, msg)
  {
    hide StepOn;
    assert msg[..|msg|] == msg && msg[|msg|..] == [];
    assert Absorb(StepOn(Acc(0, 0, 0), r0, r1, msg), r0, r1, []) == StepOn(Acc(0, 0, 0), r0, r1, msg);
  }

  /** For a message of at most 16 bytes, the tag is the RFC's exactly when the product of its
      one turn folds within 64 bits and the folded value is below 2^130 - 5. */
  lemma ShortTagExact(msg: Bytes, key: Bytes)
    requires |key| >= 32 && 0 < |msg| <= 16
    ensures var x := ShortProduct(msg, key);
      Tag(msg, key) == RfcTag(msg, key) <==> x / (4 * B2) * 5 < B && x % (4 * B2) + x / (4 * B2) * 5 < P
  {
    hide Accumulator, ShortProduct, Tag, RfcTag, ChunkIsExact, Acc.Value, R0, R1;
    ShortTagTurn(msg, key);
    ShortTurn(msg, key);
  }

  /** Under a key with r1 != 0, no message of exactly one block gets the RFC's tag. */
  lemma OneBlockTagIsWrong(msg: Bytes, key: Bytes)
    requires |key| >= 32 && R1(key) != 0 && |msg| == 16
    ensures Tag(msg, key) != RfcTag(msg, key)
  {
    hide R0, R1, Accumulator, Tag, RfcTag, ChunkIsExact, Acc.Value, Clamped;
    ShortTagTurn(msg, key);
    ClampedKey(key);
    FullChunkExactly(Acc(0, 0, 0), R0(key), R1(key), msg);
  }

  // ---------- an unreduced accumulator ----------

  function Ones(n: nat): Bytes {
    seq(n, _ => 0xff)
  }

  lemma {:induction false} LoadOnes(n: nat)
    ensures LoadLE(Ones(n)) == Pow256(n) - 1
  {
    if n > 0 {
      LoadOnes(n - 1);
      assert Ones(n)[1..] == Ones(n - 1);
    }
  }

  const UNREDUCED_KEY: Bytes := [2] + Zeros(31)

  lemma UnreducedR()
    ensures R0(UNREDUCED_KEY) == 2 && R1(UNREDUCED_KEY) == 0
  {
    hide LoadLE;
    var key := UNREDUCED_KEY;
    var m := Masked(key, 0, MASK0);
    assert m[0..8] == [2] + Zeros(7);
    LoadPadded([2], 7);
    LoadByte(2);
    var m' := Masked(key, 8, MASK1);
    assert m'[0..8] == Zeros(8);
    LoadZeros(8);
  }

  lemma OnesNumber()
    ensures LoadLE(Ones(16) + [1]) == 2 * B2 - 1
  {
    hide LoadLE;
    LoadOnes(16);
    WordSizes();
    LoadAppend(Ones(16), [1]);
    LoadByte(1);
  }

  lemma OnesChunk()
    ensures LoadLE(Ones(16) + [1]) == 2 * B2 - 1 && Ones(16)[..16] == Ones(16) && Ones(16)[16..] == []
  {
    OnesNumber();
  }

  /** Doubling 2^129 - 1 meets the condition and leaves 2^130 - 2. */
  lemma DoubledTurn(n0: u64, n1: u64, hibit: u64)
    requires BlockNumber(n0, n1, hibit) == 2 * B2 - 1 && hibit <= 1
    ensures StepIsExact(Acc(0, 0, 0), n0, n1, hibit, 2, 0)
    ensures Step(Acc(0, 0, 0), n0, n1, hibit, 2, 0).Value() == 4 * B2 - 2
  {
    hide AddBlock, MulAcc, Reduce;
    var zero := Acc(0, 0, 0);
    var sum := AddBlock(zero, n0, n1, hibit);
    AddBlockExact(zero, n0, n1, hibit);
    assert sum.Value() == 2 * B2 - 1;
    MulAccExact(sum, 2, 0);
    var m := MulAcc(sum, 2, 0);
    assert m.Value() == 4 * B2 - 2;
    assert m.h2 / 4 == 0;
    ReduceExact(m);
  }

  /** The missing final reduction shows: one block of 0xff bytes under r = 2 is accumulated
      exactly, and its tag is not the RFC's. */
  lemma UnreducedTag()
    ensures EveryTurnExact(Ones(16), UNREDUCED_KEY)
    ensures Tag(Ones(16), UNREDUCED_KEY) != RfcTag(Ones(16), UNREDUCED_KEY)
  {
    hide Step, StepIsExact, Word, High, Buffer, BlockNumber, Tag, RfcTag, LoadLE, Acc.Value;
    var msg := Ones(16);
    UnreducedR();
    OnesChunk();
    var b := Buffer(msg);
    BufferNumber(msg);
    DoubledTurn(Word(b, 0), Word(b, 8), High(b));
    var zero := Acc(0, 0, 0);
    var out := StepOn(zero, 2, 0, msg);
    assert out == Step(zero, Word(b, 0), Word(b, 8), High(b), 2, 0);
    assert MessageIsExact(out, 2, 0, []);
    assert MessageIsExact(zero, 2, 0, msg);
    assert Absorb(out, 2, 0, []) == out;
    assert Absorb(zero, 2, 0, msg) == out;
    ExactTurnsLoseNothing(msg, UNREDUCED_KEY);
    TagExact(msg, UNREDUCED_KEY);
  }
}
