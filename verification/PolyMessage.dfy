/** The accumulator of poly1305_auth over a whole message, against the polynomial of section
    2.5.1 of RFC 8439. */
module PolyMessage {
  import opened Bytes
  import opened Poly1305

  function RfcTurn(a: int, n: int, r: int): int {
    (a + n) * r % P
  }

  /** The accumulator of section 2.5.1 of RFC 8439: a = (a + n) * r mod 2^130 - 5, one block
      of 16 bytes at a time, the last one as long as what remains. */
  function RfcAccumulate(a: int, r: int, msg: Bytes): int
    decreases |msg|
  {
    if msg == [] then a
    else if |msg| <= 16 then RfcTurn(a, LoadLE(msg + [1]), r)
    else RfcAccumulate(RfcTurn(a, LoadLE(msg[..16] + [1]), r), r, msg[16..])
  }

  /** It advances by the chunks the code cuts. */
  lemma RfcStep(a: int, r: int, msg: Bytes)
    requires msg != []
    ensures var n := ChunkLength(msg);
      RfcAccumulate(a, r, msg) == RfcAccumulate(RfcTurn(a, LoadLE(msg[..n] + [1]), r), r, msg[n..])
  {
    hide LoadLE, RfcTurn;
    if |msg| <= 16 {
      assert msg[..|msg|] == msg && msg[|msg|..] == [];
    }
  }

  // ---------- the clamped key ----------

  /** The bits that section 2.5 of RFC 8439 keeps in byte i of r. */
  function ClampMask(i: nat): bv8 {
    if i % 4 == 3 then 0x0f else if i == 4 || i == 8 || i == 12 then 0xfc else 0xff
  }

  function ClampedBytes(key: Bytes): (c: Bytes)
    requires |key| >= 32
    ensures |c| == 16
  {
    seq(16, i requires 0 <= i < 16 => key[i] & ClampMask(i))
  }

  /** r as section 2.5 of RFC 8439 defines it. */
  function RfcR(key: Bytes): nat
    requires |key| >= 32
  {
    LoadLE(ClampedBytes(key))
  }

  lemma MasksAre()
    ensures forall i :: 0 <= i < 8 ==> MASK0[i] == ClampMask(i) && MASK1[i] == ClampMask(8 + i)
  {}

  /** The two words kept by lines 112-113 are that r. */
  lemma ClampExact(key: Bytes)
    requires |key| >= 32
    ensures R0(key) + R1(key) * B == RfcR(key)
  {
    hide LoadLE, ClampMask;
    MasksAre();
    var m0, m1 := Masked(key, 0, MASK0), Masked(key, 8, MASK1);
    assert m0[0..8] == m0 && m1[0..8] == m1;
    LoadAppend(m0, m1);
    assert ClampedBytes(key) == m0 + m1;
    assert Pow256(8) == B;
  }

  // ---------- the code and the RFC ----------

  function Accumulator(msg: Bytes, key: Bytes): Acc
    requires |key| >= 32
  {
    Absorb(Acc(0, 0, 0), R0(key), R1(key), msg)
  }

  function RfcAccumulator(msg: Bytes, key: Bytes): int
    requires |key| >= 32
  {
    RfcAccumulate(0, RfcR(key), msg)
  }

  // ---------- what a message loses ----------

  /** What the turn on a chunk loses. */
  function ChunkLoss(h: Acc, r0: u64, r1: u64, chunk: Bytes): int
    requires |chunk| <= 16
  {
    var b := Buffer(chunk);
    Shortfall(h, Word(b, 0), Word(b, 8), High(b), r0, r1)
  }

  /** What the turns over a message lose, each loss multiplied by r in every later turn. */
  function Drift(h: Acc, d: int, r0: u64, r1: u64, msg: Bytes): int
    decreases |msg|
  {
    if msg == [] then d
    else
      var n := ChunkLength(msg);
      Drift(StepOn(h, r0, r1, msg[..n]), d * (r0 + r1 * B) + ChunkLoss(h, r0, r1, msg[..n]), r0, r1, msg[n..])
  }

  /** out is (x + n)*r less s, modulo 2^130 - 5. */
  predicate IsLossyTurn(out: int, x: int, n: int, r: int, s: int) {
    Congruent(out, (x + n) * r - s)
  }

  lemma ChunkStep(h: Acc, r0: u64, r1: u64, chunk: Bytes)
    requires h.h2 <= 4 && |chunk| <= 16
    ensures StepOn(h, r0, r1, chunk).h2 <= 4
    ensures IsLossyTurn(StepOn(h, r0, r1, chunk).Value(), h.Value(), LoadLE(chunk + [1]), r0 + r1 * B,
                        ChunkLoss(h, r0, r1, chunk))
  {
    hide Step, Shortfall, Buffer, LoadLE, Word, High, BlockNumber, Acc.Value, IsLossyTurn;
    var b := Buffer(chunk);
    BufferNumber(chunk);
    StepBounded(h, Word(b, 0), Word(b, 8), High(b), r0, r1);
    StepLoses(h, Word(b, 0), Word(b, 8), High(b), r0, r1, LoadLE(chunk + [1]));
  }

  lemma StepLoses(h: Acc, n0: u64, n1: u64, hibit: u64, r0: u64, r1: u64, n: int)
    requires h.h2 <= 4 && hibit <= 1 && n == BlockNumber(n0, n1, hibit)
    ensures IsLossyTurn(Step(h, n0, n1, hibit, r0, r1).Value(), h.Value(), n, r0 + r1 * B,
                        Shortfall(h, n0, n1, hibit, r0, r1))
  {
    hide Step, Shortfall, BlockNumber, Acc.Value, Congruent;
    var c := StepValue(h, n0, n1, hibit, r0, r1);
    ShiftCongruent(Step(h, n0, n1, hibit, r0, r1).Value(), (h.Value() + n) * (r0 + r1 * B),
                   Shortfall(h, n0, n1, hibit, r0, r1), c);
  }

  lemma CongruentIs(x: int, y: int) returns (k: int)
    requires Congruent(x, y)
    ensures x - y == k * P
  {
    k := (x - y) / P;
  }

  lemma MultipleCongruent(x: int, y: int, k: int)
    requires x - y == k * P
    ensures Congruent(x, y)
  {
    MultipleOfP(k);
  }

  /** If x is a - d, then (x + n)*r - s is RfcTurn(a) - (d*r + s). */
  lemma TurnCongruent(x: int, a: int, d: int, n: int, r: int, s: int, out: int)
    requires Congruent(x, a - d) && IsLossyTurn(out, x, n, r, s)
    ensures Congruent(out, RfcTurn(a, n, r) - (d * r + s))
  {
    hide Congruent;
    var k := CongruentIs(x, a - d);
    var m := CongruentIs(out, (x + n) * r - s);
    var q := (a + n) * r / P;
    assert (a + n) * r == q * P + RfcTurn(a, n, r);
    ExpandTurn(x, a, d, n, r, k);
    assert out - (RfcTurn(a, n, r) - (d * r + s)) == (m + k * r + q) * P;
    MultipleCongruent(out, RfcTurn(a, n, r) - (d * r + s), m + k * r + q);
  }

  lemma ExpandTurn(x: int, a: int, d: int, n: int, r: int, k: int)
    requires x == a - d + k * P
    ensures (x + n) * r == (a + n) * r - d * r + k * r * P
  {
    assert (x + n) * r == (a + n) * r - d * r + (k * P) * r;
  }

  lemma {:induction false} AbsorbDrift(h: Acc, a: int, d: int, r0: u64, r1: u64, msg: Bytes)
    requires h.h2 <= 4 && Congruent(h.Value(), a - d)
    ensures Congruent(Absorb(h, r0, r1, msg).Value(), RfcAccumulate(a, r0 + r1 * B, msg) - Drift(h, d, r0, r1, msg))
    decreases |msg|
  {
    hide StepOn, ChunkLoss, LoadLE, RfcTurn, Acc.Value, Congruent, IsLossyTurn;
    if msg != [] {
      var n := ChunkLength(msg);
      var chunk, r := msg[..n], r0 + r1 * B;
      var x, s, out := LoadLE(chunk + [1]), ChunkLoss(h, r0, r1, chunk), StepOn(h, r0, r1, chunk);
      ChunkStep(h, r0, r1, chunk);
      RfcStep(a, r, msg);
      TurnCongruent(h.Value(), a, d, x, r, s, out.Value());
      AbsorbDrift(out, RfcTurn(a, x, r), d * r + s, r0, r1, msg[n..]);
    }
  }

  /** What the whole message loses under a key. */
  function Loss(msg: Bytes, key: Bytes): int
    requires |key| >= 32
  {
    Drift(Acc(0, 0, 0), 0, R0(key), R1(key), msg)
  }

  /** For every message and key, the accumulator is the RFC's less the loss. */
  lemma AccumulatorDrift(msg: Bytes, key: Bytes)
    requires |key| >= 32
    ensures Congruent(Accumulator(msg, key).Value(), RfcAccumulator(msg, key) - Loss(msg, key))
  {
    hide Absorb, RfcAccumulate, RfcR, Drift, R0, R1, Acc.Value, Congruent;
    ClampExact(key);
    ZeroValue();
    MultipleCongruent(0, 0, 0);
    AbsorbDrift(Acc(0, 0, 0), 0, 0, R0(key), R1(key), msg);
  }

  /** So the accumulator is the RFC's exactly when the losses of the
      turns cancel modulo 2^130 - 5. */
  lemma AccumulatorExact(msg: Bytes, key: Bytes)
    requires |key| >= 32
    ensures Accumulator(msg, key).Value() % P == RfcAccumulator(msg, key) % P <==> Loss(msg, key) % P == 0
  {
    hide Accumulator, RfcAccumulator, Loss, Acc.Value, Congruent;
    AccumulatorDrift(msg, key);
    SameUpToLoss(Accumulator(msg, key).Value(), RfcAccumulator(msg, key), Loss(msg, key));
  }

  lemma ZeroValue()
    ensures Acc(0, 0, 0).Value() == 0
  {}

  lemma SameUpToLoss(v: int, a: int, e: int)
    requires Congruent(v, a - e)
    ensures v % P == a % P <==> e % P == 0
  {}

  // ---------- messages whose every turn is exact ----------

  predicate ChunkIsExact(h: Acc, r0: u64, r1: u64, chunk: Bytes)
    requires |chunk| <= 16
  {
    var b := Buffer(chunk);
    (r0 == 0 && r1 == 0) || StepIsExact(h, Word(b, 0), Word(b, 8), High(b), r0, r1)
  }

  predicate MessageIsExact(h: Acc, r0: u64, r1: u64, msg: Bytes)
    decreases |msg|
  {
    msg == [] ||
    var n := ChunkLength(msg);
    ChunkIsExact(h, r0, r1, msg[..n]) && MessageIsExact(StepOn(h, r0, r1, msg[..n]), r0, r1, msg[n..])
  }

  /** Every turn over the message meets the condition of Poly1305.StepExactly. */
  predicate EveryTurnExact(msg: Bytes, key: Bytes)
    requires |key| >= 32
  {
    MessageIsExact(Acc(0, 0, 0), R0(key), R1(key), msg)
  }

  lemma ChunkLossVanishes(h: Acc, r0: u64, r1: u64, chunk: Bytes)
    requires h.h2 <= 4 && Clamped(r0, r1) && |chunk| <= 16
    ensures StepOn(h, r0, r1, chunk).h2 <= 4
    ensures ChunkLoss(h, r0, r1, chunk) % P == 0 <==> ChunkIsExact(h, r0, r1, chunk)
  {
    hide Step, Shortfall, StepIsExact, Buffer, Word, High;
    var b := Buffer(chunk);
    BufferNumber(chunk);
    StepBounded(h, Word(b, 0), Word(b, 8), High(b), r0, r1);
    ShortfallVanishes(h, Word(b, 0), Word(b, 8), High(b), r0, r1);
  }

  lemma MultiplesAdd(d: int, r: int, s: int)
    requires d % P == 0 && s % P == 0
    ensures (d * r + s) % P == 0
  {
    assert d * r == d / P * r * P;
    assert d * r + s == (d / P * r + s / P) * P;
    MultipleOfP(d / P * r + s / P);
  }

  lemma {:induction false} ExactHasNoDrift(h: Acc, d: int, r0: u64, r1: u64, msg: Bytes)
    requires h.h2 <= 4 && Clamped(r0, r1) && MessageIsExact(h, r0, r1, msg) && d % P == 0
    ensures Drift(h, d, r0, r1, msg) % P == 0
    decreases |msg|
  {
    hide ChunkIsExact, ChunkLoss, StepOn, Clamped;
    if msg != [] {
      var n := ChunkLength(msg);
      ChunkLossVanishes(h, r0, r1, msg[..n]);
      MultiplesAdd(d, r0 + r1 * B, ChunkLoss(h, r0, r1, msg[..n]));
      ExactHasNoDrift(StepOn(h, r0, r1, msg[..n]), d * (r0 + r1 * B) + ChunkLoss(h, r0, r1, msg[..n]),
                      r0, r1, msg[n..]);
    }
  }

  /** A message whose turns are all exact loses nothing. */
  lemma ExactTurnsLoseNothing(msg: Bytes, key: Bytes)
    requires |key| >= 32 && EveryTurnExact(msg, key)
    ensures Loss(msg, key) % P == 0
  {
    hide R0, R1;
    ClampedKey(key);
    ExactHasNoDrift(Acc(0, 0, 0), 0, R0(key), R1(key), msg);
  }

  // ---------- messages of at least one full block ----------

  lemma FullBuffer(chunk: Bytes)
    requires |chunk| == 16
    ensures High(Buffer(chunk)) == 1
  {
    hide Buffer;
    BufferHighByte(chunk);
  }

  /** The first full block, seen from any accumulator. */
  lemma FullChunkExactly(h: Acc, r0: u64, r1: u64, chunk: Bytes)
    requires h.h2 <= 4 && Clamped(r0, r1) && |chunk| == 16
    ensures r1 != 0 ==> !ChunkIsExact(h, r0, r1, chunk)
  {
    hide Buffer, Word, High, StepIsExact, Step, IsTurn;
    var b := Buffer(chunk);
    FullBuffer(chunk);
    StepExactly(h, Word(b, 0), Word(b, 8), 1, r0, r1);
    FullBlockExactly(h, Word(b, 0), Word(b, 8), r0, r1);
  }

  /** Under a key with r1 != 0, no message of 16 bytes or more is accumulated turn by turn as
      the RFC does. */
  lemma LongMessagesAreInexact(msg: Bytes, key: Bytes)
    requires |key| >= 32 && R1(key) != 0 && |msg| >= 16
    ensures !EveryTurnExact(msg, key)
  {
    hide R0, R1, ChunkIsExact;
    ClampedKey(key);
    FullChunkExactly(Acc(0, 0, 0), R0(key), R1(key), msg[..16]);
  }

  /** Nor does the accumulator of a message of exactly one block come out right. */
  lemma OneBlockIsWrong(msg: Bytes, key: Bytes)
    requires |key| >= 32 && R1(key) != 0 && |msg| == 16
    ensures Accumulator(msg, key).Value() % P != RfcAccumulator(msg, key) % P
  {
    hide R0, R1, ChunkIsExact, ChunkLoss, StepOn, Absorb, RfcAccumulate, Acc.Value, Clamped;
    var zero, r0, r1 := Acc(0, 0, 0), R0(key), R1(key);
    ClampedKey(key);
    FullChunkExactly(zero, r0, r1, msg);
    ChunkLossVanishes(zero, r0, r1, msg);
    AccumulatorExact(msg, key);
    assert msg[..16] == msg && msg[16..] == [];
    assert Loss(msg, key) == Drift(StepOn(zero, r0, r1, msg), ChunkLoss(zero, r0, r1, msg), r0, r1, []);
  }
}
