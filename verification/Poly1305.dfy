/** poly1305_auth of crypto_pipe.h: the limb arithmetic on 64-bit words, what it computes
    exactly, and when that is the polynomial of section 2.5 of RFC 8439. */
module Poly1305 {
  import opened Arithmetic
  import opened Bytes

  const H := 0x1_0000_0000
  const B := 0x1_0000_0000_0000_0000
  const B2 := 0x1_0000_0000_0000_0000_0000_0000_0000_0000
  const B3 := 0x1_0000_0000_0000_0000_0000_0000_0000_0000_0000_0000_0000_0000
  const P := 0x3_ffff_ffff_ffff_ffff_ffff_ffff_ffff_fffb  // 2^130 - 5

  type u64 = x: int | 0 <= x < 0x1_0000_0000_0000_0000

  function Wrap(x: int): u64 {
    x % B
  }

  function Carry(c: bool): u64 {
    if c then 1 else 0
  }

  lemma WrapOnce(x: int)
    requires 0 <= x < 2 * B
    ensures Wrap(x) == if x < B then x else x - B
  {}

  /** Reading the carry of x + v off the wrapped sum. */
  lemma CarryOfSum(x: u64, v: u64)
    ensures Wrap(x + v) + Carry(Wrap(x + v) < v) * B == x + v
  {
    WrapOnce(x + v);
  }

  // ---------- the MUL macro ----------

  datatype Wide = Wide(hi: u64, lo: u64) {
    function Value(): int {
      hi * B + lo
    }
  }

  function Mul64(a: u64, b: u64): Wide {
    var a0, a1, b0, b1 := a % H, a / H, b % H, b / H;
    Combine(a0 * b0, a0 * b1, a1 * b0, a1 * b1)
  }

  /** The rest of the macro, from the four partial products. */
  function Combine(p00: int, p01: int, p10: int, p11: int): Wide {
    var mid := Wrap(p01 + p00 / H);
    var c1 := if mid < p01 then H else 0;
    var mid' := Wrap(mid + p10);
    var c1' := c1 + (if mid' < p10 then H else 0);
    Wide(Wrap(p11 + mid' / H + c1'), Wrap(mid' * H + p00 % H))
  }

  lemma ProductBound(x: int, y: int, m: int)
    requires 0 <= x <= m && 0 <= y <= m
    ensures 0 <= x * y <= m * m
  {
    assert x * y <= m * y;
    assert m * y <= m * m;
  }

  /** Moving the digits of the middle sum into the two words of the result. */
  lemma Regroup(p11: int, p01: int, p10: int, p00: int, top: int, low: int, carry: int, q: int, rest: int)
    requires top * H + low + carry * H == p01 + p10 + q && p00 == q * H + rest
    ensures p11 * B + (p01 + p10) * H + p00 == (p11 + top + carry) * B + low * H + rest
  {}

  lemma CombineExact(p00: int, p01: int, p10: int, p11: int)
    requires 0 <= p00 <= (H - 1) * (H - 1) && 0 <= p01 <= (H - 1) * (H - 1)
    requires 0 <= p10 <= (H - 1) * (H - 1) && 0 <= p11 <= (H - 1) * (H - 1)
    ensures Combine(p00, p01, p10, p11).Value() == p11 * B + (p01 + p10) * H + p00
  {
    var mid := p01 + p00 / H;
    assert p00 / H < H;
    WrapOnce(mid);
    var sum := mid + p10;
    WrapOnce(sum);
    var mid' := Wrap(sum);
    assert (mid' < p10) == (sum >= B);
    var top, low := mid' / H, mid' % H;
    LowHalf(top, low, p00 % H);
    var carry := if sum < B then 0 else H;
    Regroup(p11, p01, p10, p00, top, low, carry, p00 / H, p00 % H);
    HighHalf(p11, p01, p10, p00, top + carry, low);
  }

  lemma LowHalf(top: int, low: int, rest: int)
    requires 0 <= top < H && 0 <= low < H && 0 <= rest < H
    ensures Wrap((top * H + low) * H + rest) == low * H + rest
  {
    assert (top * H + low) * H + rest == top * B + low * H + rest;
  }

  /** The high word never wraps: the whole product is below 2^128. */
  lemma HighHalf(p11: int, p01: int, p10: int, p00: int, extra: int, low: int)
    requires 0 <= p11 <= (H - 1) * (H - 1) && 0 <= p01 <= (H - 1) * (H - 1)
    requires 0 <= p10 <= (H - 1) * (H - 1) && 0 <= p00 <= (H - 1) * (H - 1)
    requires 0 <= extra && 0 <= low
    requires p11 * B + (p01 + p10) * H + p00 == (p11 + extra) * B + low * H + p00 % H
    ensures Wrap(p11 + extra) == p11 + extra
  {}

  lemma SplitProduct(a0: int, a1: int, b0: int, b1: int)
    ensures (a1 * H + a0) * (b1 * H + b0) == a1 * b1 * B + (a0 * b1 + a1 * b0) * H + a0 * b0
  {
    assert (a1 * H) * (b1 * H) == (a1 * b1) * (H * H);
  }

  /** MUL is the exact 128-bit product. */
  lemma Mul64Exact(a: u64, b: u64)
    ensures Mul64(a, b).Value() == a * b
  {
    var a0, a1, b0, b1 := a % H, a / H, b % H, b / H;
    ProductBound(a0, b0, H - 1);
    ProductBound(a0, b1, H - 1);
    ProductBound(a1, b0, H - 1);
    ProductBound(a1, b1, H - 1);
    CombineExact(a0 * b0, a0 * b1, a1 * b0, a1 * b1);
    SplitProduct(a0, a1, b0, b1);
  }

  // ---------- the carry chain ----------

  /** x.lo + y.lo with the carry read off by comparison, as in lines 173-175. */
  function AddWide(x: Wide, y: Wide): Wide {
    var lo := Wrap(x.lo + y.lo);
    Wide(Wrap(x.hi + y.hi + Carry(lo < x.lo)), lo)
  }

  /** x + v, as in lines 187-189. */
  function AddWord(x: Wide, v: u64): Wide {
    var lo := Wrap(x.lo + v);
    Wide(Wrap(x.hi + Carry(lo < v)), lo)
  }

  lemma AddWideExact(x: Wide, y: Wide)
    ensures AddWide(x, y).Value() == (x.Value() + y.Value()) % B2
  {
    var lo := x.lo + y.lo;
    var c := if lo < B then 0 else 1;
    assert Wrap(lo) == lo - c * B && Carry(Wrap(lo) < x.lo) == c;
    var hi := x.hi + y.hi + c;
    assert x.Value() + y.Value() == hi * B + (lo - c * B);
    var e := if hi < B then 0 else 1;
    assert Wrap(hi) == hi - e * B;
  }

  lemma AddWordExact(x: Wide, v: u64)
    ensures AddWord(x, v).Value() == (x.Value() + v) % B2
  {
    CarryOfSum(x.lo, v);
    var c := Carry(Wrap(x.lo + v) < v);
    WrapOnce(x.hi + c);
    assert x.Value() + v == (x.hi + c) * B + Wrap(x.lo + v);
  }

  datatype Acc = Acc(h0: u64, h1: u64, h2: u64) {
    function Value(): int {
      h0 + h1 * B + h2 * B2
    }
  }

  /** Lines 166-197: the product by r, truncated to three limbs. */
  function MulAcc(h: Acc, r0: u64, r1: u64): Acc {
    var d0 := Mul64(h.h0, r0);
    var d1 := AddWord(AddWide(Mul64(h.h0, r1), Mul64(h.h1, r0)), d0.hi);
    var d2 := AddWord(AddWide(Mul64(h.h1, r1), Mul64(h.h2, r0)), d1.hi);
    Acc(d0.lo, d1.lo, d2.lo)
  }

  lemma ExpandProduct(h: Acc, r0: u64, r1: u64)
    ensures h.Value() * (r0 + r1 * B)
         == h.h0 * r0 + (h.h0 * r1 + h.h1 * r0) * B + (h.h1 * r1 + h.h2 * r0) * B2 + h.h2 * r1 * B3
  {
  }

  /** The schoolbook recombination, with the five products as plain numbers. */
  lemma Recombine(a: Wide, s: int, x: Wide, y: int, z: int, lo2: int)
    requires s >= 0 && y >= 0 && z >= 0
    requires x.Value() == (s + a.hi) % B2
    requires lo2 == (y + x.hi) % B
    ensures a.lo + x.lo * B + lo2 * B2 == (a.Value() + s * B + y * B2 + z * B3) % B3
  {
  }

  lemma ModOfMod(a: int, b: int)
    ensures (a % B2 + b) % B2 == (a + b) % B2
  {}

  lemma LowWord(x: Wide, v: int)
    requires x.Value() == v % B2
    ensures x.lo == v % B
  {}

  lemma ColumnExact(p: Wide, q: Wide, v: u64)
    ensures AddWord(AddWide(p, q), v).Value() == (p.Value() + q.Value() + v) % B2
  {
    hide AddWide, AddWord;
    AddWideExact(p, q);
    AddWordExact(AddWide(p, q), v);
    ModOfMod(p.Value() + q.Value(), v);
  }

  /** Truncated product: the limbs hold h*r modulo 2^192, for all 64-bit limbs. */
  lemma MulAccExact(h: Acc, r0: u64, r1: u64)
    ensures MulAcc(h, r0, r1).Value() == (h.Value() * (r0 + r1 * B)) % B3
  {
    hide Mul64, AddWide, AddWord, Wrap;
    var d0, p, q := Mul64(h.h0, r0), Mul64(h.h0, r1), Mul64(h.h1, r0);
    var d1 := AddWord(AddWide(p, q), d0.hi);
    var u, v := Mul64(h.h1, r1), Mul64(h.h2, r0);
    var d2 := AddWord(AddWide(u, v), d1.hi);
    Mul64Exact(h.h0, r0); Mul64Exact(h.h0, r1); Mul64Exact(h.h1, r0);
    Mul64Exact(h.h1, r1); Mul64Exact(h.h2, r0);
    ColumnExact(p, q, d0.hi);
    ColumnExact(u, v, d1.hi);
    LowWord(d2, u.Value() + v.Value() + d1.hi);
    ProductNonnegative(h.h2, r1);
    Recombine(d0, p.Value() + q.Value(), d1, u.Value() + v.Value(), h.h2 * r1, d2.lo);
    ExpandProduct(h, r0, r1);
  }

  lemma ProductNonnegative(x: int, y: int)
    requires x >= 0 && y >= 0
    ensures x * y >= 0
  {}

  // ---------- adding a block ----------

  /** Lines 138-143.  When n1 + c wraps, the carry into h2 is lost. */
  function AddBlock(h: Acc, n0: u64, n1: u64, hibit: u64): Acc {
    var h0 := Wrap(h.h0 + n0);
    var c := Carry(h0 < n0);
    var h1 := Wrap(h.h1 + Wrap(n1 + c));
    var c' := Carry(h1 < Wrap(n1 + c));
    Acc(h0, h1, Wrap(h.h2 + hibit + c'))
  }

  predicate LosesCarry(h: Acc, n0: u64, n1: u64) {
    h.h0 + n0 >= B && n1 == B - 1
  }

  lemma AddBlockExact(h: Acc, n0: u64, n1: u64, hibit: u64)
    requires h.h2 <= 4 && hibit <= 1
    ensures AddBlock(h, n0, n1, hibit).h2 <= 6
    ensures AddBlock(h, n0, n1, hibit).Value()
         == h.Value() + n0 + n1 * B + hibit * B2 - (if LosesCarry(h, n0, n1) then B2 else 0)
  {
    hide Wrap, Carry;
    var h0 := Wrap(h.h0 + n0);
    CarryOfSum(h.h0, n0);
    var c := Carry(h0 < n0);
    AddBlockHigh(h.h1, n1, c);
    SmallWrap(h.h2 + hibit + Carry(Wrap(h.h1 + Wrap(n1 + c)) < Wrap(n1 + c)));
    CarryBit(h0 < n0);
    CarryBit(Wrap(h.h1 + Wrap(n1 + c)) < Wrap(n1 + c));
  }

  lemma CarryBit(b: bool)
    ensures Carry(b) <= 1
  {}

  lemma SmallWrap(x: int)
    requires 0 <= x <= 10
    ensures Wrap(x) == x
  {}

  lemma AddBlockHigh(h1: u64, n1: u64, c: u64)
    requires c <= 1
    ensures Wrap(h1 + Wrap(n1 + c)) + Carry(Wrap(h1 + Wrap(n1 + c)) < Wrap(n1 + c)) * B
         == h1 + n1 + c - (if c == 1 && n1 == B - 1 then B else 0)
  {
    WrapOnce(n1 + c);
    CarryOfSum(h1, Wrap(n1 + c));
  }

  // ---------- the partial reduction ----------

  /** Lines 200-206. */
  function Reduce(h: Acc): Acc {
    var cOut := h.h2 / 4;
    var five := Wrap(cOut * 5);
    var h0 := Wrap(h.h0 + five);
    var carry := Carry(h0 < five);
    var h1 := Wrap(h.h1 + carry);
    Acc(h0, h1, Wrap(h.h2 % 4 + Carry(h1 < carry)))
  }

  predicate FoldOverflows(h: Acc) {
    h.h2 / 4 * 5 >= B
  }

  lemma ReduceExact(h: Acc)
    ensures Reduce(h).h2 <= 4
    ensures Reduce(h).Value() == h.Value() - h.h2 / 4 * P - (if FoldOverflows(h) then B else 0)
  {
    hide Wrap, Carry;
    var cOut := h.h2 / 4;
    FoldWrap(h);
    var five := Wrap(cOut * 5);
    CarryOfSum(h.h0, five);
    var carry := Carry(Wrap(h.h0 + five) < five);
    CarryOfSum(h.h1, carry);
    CarryBit(Wrap(h.h1 + carry) < carry);
    SmallWrap(h.h2 % 4 + Carry(Wrap(h.h1 + carry) < carry));
    assert h.h2 * B2 == cOut * (4 * B2) + h.h2 % 4 * B2;
  }

  lemma FoldWrap(h: Acc)
    ensures Wrap(h.h2 / 4 * 5) == h.h2 / 4 * 5 - (if FoldOverflows(h) then B else 0)
  {
    WrapOnce(h.h2 / 4 * 5);
  }

  // ---------- one turn of the loop ----------

  function Step(h: Acc, n0: u64, n1: u64, hibit: u64, r0: u64, r1: u64): Acc {
    Reduce(MulAcc(AddBlock(h, n0, n1, hibit), r0, r1))
  }

  lemma StepBounded(h: Acc, n0: u64, n1: u64, hibit: u64, r0: u64, r1: u64)
    ensures Step(h, n0, n1, hibit, r0, r1).h2 <= 4
  {
    hide AddBlock, MulAcc, Reduce;
    ReduceExact(MulAcc(AddBlock(h, n0, n1, hibit), r0, r1));
  }

  function BlockNumber(n0: u64, n1: u64, hibit: u64): int {
    n0 + n1 * B + hibit * B2
  }

  predicate Congruent(a: int, b: int) {
    (a - b) % P == 0
  }

  /** `out` is (h + n)*r modulo 2^130 - 5. */
  predicate IsTurn(out: Acc, h: Acc, n: int, r0: u64, r1: u64) {
    Congruent(out.Value(), (h.Value() + n) * (r0 + r1 * B))
  }

  /** What a turn needs to be a step of the RFC polynomial: line 143 loses no carry, and the
      fold of line 203, taken over the whole product, stays within 64 bits. */
  predicate StepIsExact(h: Acc, n0: u64, n1: u64, hibit: u64, r0: u64, r1: u64) {
    && !LosesCarry(h, n0, n1)
    && (h.Value() + BlockNumber(n0, n1, hibit)) * (r0 + r1 * B) / (4 * B2) * 5 < B
  }

  /** What a product loses: the bits from 2^192 up, and 2^64 when the fold wraps. */
  function ProductLoss(x: int): int {
    x / B3 * B3 + (if x % B3 / (4 * B2) * 5 >= B then B else 0)
  }

  /** What a turn loses in all. */
  function Shortfall(h: Acc, n0: u64, n1: u64, hibit: u64, r0: u64, r1: u64): int {
    var r, lost := r0 + r1 * B, if LosesCarry(h, n0, n1) then B2 else 0;
    lost * r + ProductLoss((h.Value() + BlockNumber(n0, n1, hibit) - lost) * r)
  }

  lemma HighLimb(h: Acc)
    ensures h.h2 == h.Value() / B2
  {}

  lemma FoldOfProduct(sum: Acc, r0: u64, r1: u64)
    ensures FoldOverflows(MulAcc(sum, r0, r1))
        <==> sum.Value() * (r0 + r1 * B) % B3 / (4 * B2) * 5 >= B
  {
    hide MulAcc, Acc.Value;
    MulAccExact(sum, r0, r1);
    HighLimb(MulAcc(sum, r0, r1));
    NestedQuotient(sum.Value() * (r0 + r1 * B) % B3);
  }

  lemma NestedQuotient(x: int)
    ensures x / B2 / 4 == x / (4 * B2)
  {}

  /** The value after a turn, for every input, up to a multiple of 2^130 - 5. */
  lemma StepValue(h: Acc, n0: u64, n1: u64, hibit: u64, r0: u64, r1: u64) returns (c: int)
    requires h.h2 <= 4 && hibit <= 1
    ensures Step(h, n0, n1, hibit, r0, r1).Value()
         == (h.Value() + BlockNumber(n0, n1, hibit)) * (r0 + r1 * B) - Shortfall(h, n0, n1, hibit, r0, r1) - c * P
  {
    hide AddBlock, MulAcc, Reduce, FoldOverflows, Acc.Value;
    var sum, r := AddBlock(h, n0, n1, hibit), r0 + r1 * B;
    AddBlockExact(h, n0, n1, hibit);
    MulAccExact(sum, r0, r1);
    FoldOfProduct(sum, r0, r1);
    ReduceExact(MulAcc(sum, r0, r1));
    c := MulAcc(sum, r0, r1).h2 / 4;
    var t, lost := h.Value() + BlockNumber(n0, n1, hibit), if LosesCarry(h, n0, n1) then B2 else 0;
    assert sum.Value() == t - lost;
    TakeAway(t, lost, r);
  }

  lemma TakeAway(t: int, lost: int, r: int)
    ensures (t - lost) * r == t * r - lost * r
  {}

  // ---------- when a turn is right ----------

  predicate Clamped(r0: u64, r1: u64) {
    r0 < 0x1000_0000_0000_0000 && r1 < 0x1000_0000_0000_0000 && r1 % 4 == 0
  }

  /** 2^64 is invertible modulo P, so a factor of it can be dropped. */
  lemma DropFactor(m: int)
    ensures (B * m) % P == 0 <==> m % P == 0
  {
    if (B * m) % P == 0 {
      var t := B * m / P;
      assert B * m == P * t;
      var i := 0x4_0000_0000_0000_0000 * ((P + 1) / 5);
      var j := (P + 6) / 5;
      assert B * i == P * j + 1;
      assert m == P * (i * t - j * m) by {
        assert i * (B * m) == i * (P * t);
        assert i * (B * m) == (B * i) * m;
        assert (P * j + 1) * m == P * (j * m) + m;
        assert i * (P * t) == P * (i * t);
        assert P * (i * t) - P * (j * m) == P * (i * t - j * m);
      }
      MultipleOfP(i * t - j * m);
    }
    if m % P == 0 {
      assert B * m == P * (B * (m / P));
      MultipleOfP(B * (m / P));
    }
  }

  lemma MultipleOfP(k: int)
    ensures (P * k) % P == 0
  {}

  lemma ShiftByP(a: int, k: int)
    ensures (a + k * P) % P == 0 <==> a % P == 0
  {
    assert (a + k * P) % P == a % P;
  }

  lemma SmallError(low: int, a: int, u: int, v: int, ov: int)
    requires 0 <= low <= 0x1000_0000_0000_0000 * B + 5 * 0x1000_0000_0000_0000
    requires 0 <= u < 0x2000_0000_0000_0000 && 0 <= v <= 3 && 0 <= ov <= 1
    ensures (low + 5 * u + v * B2 + ov + a * P) % P == 0 <==> low == 0 && u == 0 && v == 0 && ov == 0
  {
    ShiftByP(low + 5 * u + v * B2 + ov, a);
    assert 0 <= low + 5 * u + v * B2 + ov < P;
  }

  /** The error of a turn divided by 2^64: a lost carry, q dropped high bits, a wrapped fold. */
  lemma ErrorVanishes(lost: int, r0: int, r1: int, q: int, ov: int)
    requires (lost == 0 || lost == 1) && (ov == 0 || ov == 1)
    requires 0 <= r0 < 0x1000_0000_0000_0000 && 0 <= r1 < 0x1000_0000_0000_0000 && r1 % 4 == 0
    requires 0 <= q < 0x8000_0000_0000_0000
    ensures (lost * (r0 * B + r1 * B2) + q * B2 + ov) % P == 0
        <==> (lost == 0 || (r0 == 0 && r1 == 0)) && q == 0 && ov == 0
  {
    var a, u, v := r1 / 4, q / 4, q % 4;
    assert q * B2 == v * B2 + 5 * u + u * P;
    if lost == 0 {
      SmallError(0, u, u, v, ov);
    } else {
      assert r1 * B2 == 5 * a + a * P;
      SmallError(r0 * B + 5 * a, u + a, u, v, ov);
    }
  }

  /** The fold of the whole product stays within 64 bits exactly when nothing is dropped at
      2^192 and the fold of what is left does not wrap. */
  lemma FoldFits(x: int)
    requires x >= 0
    ensures x / (4 * B2) * 5 < B <==> x / B3 == 0 && x % B3 / (4 * B2) * 5 < B
  {}

  lemma QuotientBound(x: int, r: int)
    requires 0 <= x < 7 * B2 && 0 <= r < 0x1000_0000_0000_0000 * B
    ensures 0 <= x * r && 0 <= x * r / B3 < 0x8000_0000_0000_0000
  {
    ProductNonnegative(x, r);
    ProductMonotone(x, 7 * B2, r);
    QuotientRange(x * r, r);
  }

  lemma QuotientRange(y: int, r: int)
    requires 0 <= y <= 7 * B2 * r && 0 <= r < 0x1000_0000_0000_0000 * B
    ensures 0 <= y / B3 < 0x8000_0000_0000_0000
  {}

  lemma ShortfallFactor(lost: int, r0: int, r1: int, q: int, ov: int)
    ensures lost * B2 * (r0 + r1 * B) + q * B3 + ov * B == B * (lost * (r0 * B + r1 * B2) + q * B2 + ov)
  {
    assert lost * B2 * (r0 + r1 * B) == B * (lost * (r0 * B + r1 * B2));
  }

  /** A clamped turn loses a multiple of 2^130 - 5 only when it loses nothing. */
  lemma ShortfallVanishes(h: Acc, n0: u64, n1: u64, hibit: u64, r0: u64, r1: u64)
    requires h.h2 <= 4 && hibit <= 1 && Clamped(r0, r1)
    ensures Shortfall(h, n0, n1, hibit, r0, r1) % P == 0
        <==> ((r0 == 0 && r1 == 0) || StepIsExact(h, n0, n1, hibit, r0, r1))
  {
    hide AddBlock, Acc.Value;
    var t, r, lost := h.Value() + BlockNumber(n0, n1, hibit), r0 + r1 * B, if LosesCarry(h, n0, n1) then 1 else 0;
    SumBound(h, n0, n1, hibit);
    var x := (t - lost * B2) * r;
    QuotientBound(t - lost * B2, r);
    var q, ov := x / B3, if x % B3 / (4 * B2) * 5 >= B then 1 else 0;
    ShortfallFactor(lost, r0, r1, q, ov);
    DropFactor(lost * (r0 * B + r1 * B2) + q * B2 + ov);
    ErrorVanishes(lost, r0, r1, q, ov);
    FoldFits(x);
    if r == 0 {
      assert x == 0;
    }
  }

  lemma SumBound(h: Acc, n0: u64, n1: u64, hibit: u64)
    requires h.h2 <= 4 && hibit <= 1
    ensures var t := h.Value() + BlockNumber(n0, n1, hibit);
      hibit * B2 <= t < 7 * B2 && (LosesCarry(h, n0, n1) ==> B2 <= t)
  {}

  lemma ShiftCongruent(out: int, t: int, e: int, c: int)
    requires out == t - e - c * P
    ensures Congruent(out, t) <==> e % P == 0
    ensures Congruent(out, t - e)
  {
    NegatedMultiple(e, c);
    NegatedMultiple(0, c);
  }

  /** For a clamped r, one turn equals (h + n)*r modulo 2^130 - 5 exactly when r is 0, or line
      143 loses no carry and (h + n)*r is small enough. */
  lemma StepExactly(h: Acc, n0: u64, n1: u64, hibit: u64, r0: u64, r1: u64)
    requires h.h2 <= 4 && hibit <= 1 && Clamped(r0, r1)
    ensures IsTurn(Step(h, n0, n1, hibit, r0, r1), h, BlockNumber(n0, n1, hibit), r0, r1)
        <==> (r0 == 0 && r1 == 0) || StepIsExact(h, n0, n1, hibit, r0, r1)
  {
    hide Step, Shortfall, StepIsExact, Congruent, Acc.Value;
    var c := StepValue(h, n0, n1, hibit, r0, r1);
    ShortfallVanishes(h, n0, n1, hibit, r0, r1);
    ShiftCongruent(Step(h, n0, n1, hibit, r0, r1).Value(),
                   (h.Value() + BlockNumber(n0, n1, hibit)) * (r0 + r1 * B),
                   Shortfall(h, n0, n1, hibit, r0, r1), c);
  }

  lemma NegatedMultiple(e: int, c: int)
    ensures (-e - c * P) % P == 0 <==> e % P == 0
  {}

  // ---------- the criterion on the key ----------

  lemma SmallProduct(t: int, r0: int)
    requires 0 <= t < 7 * B2 && 0 <= r0 < 0x1000_0000_0000_0000
    ensures t * r0 / (4 * B2) * 5 < B
  {
    ProductNonnegative(t, r0);
    assert t * r0 <= 7 * B2 * r0;
  }

  lemma LargeProduct(t: int, r: int)
    requires t >= B2 && r >= 4 * B
    ensures t * r / (4 * B2) * 5 >= B
  {
    ProductNonnegative(t - B2, r);
    assert t * r >= B2 * r;
  }

  /** With r1 = 0 a turn is right exactly when r0 is 0 too or line 143 loses no carry. */
  lemma LowKeyExactly(h: Acc, n0: u64, n1: u64, hibit: u64, r0: u64)
    requires h.h2 <= 4 && hibit <= 1 && Clamped(r0, 0)
    ensures IsTurn(Step(h, n0, n1, hibit, r0, 0), h, BlockNumber(n0, n1, hibit), r0, 0)
        <==> r0 == 0 || !LosesCarry(h, n0, n1)
  {
    hide Step, IsTurn, Acc.Value, LosesCarry;
    StepExactly(h, n0, n1, hibit, r0, 0);
    SumBound(h, n0, n1, hibit);
    SmallProduct(h.Value() + BlockNumber(n0, n1, hibit), r0);
  }

  /** A turn over a full block is right exactly when r is 0, or r1 is 0 and line 143 loses no
      carry: every key with r1 != 0 gets every full block wrong. */
  lemma FullBlockExactly(h: Acc, n0: u64, n1: u64, r0: u64, r1: u64)
    requires h.h2 <= 4 && Clamped(r0, r1)
    ensures IsTurn(Step(h, n0, n1, 1, r0, r1), h, BlockNumber(n0, n1, 1), r0, r1)
        <==> (r0 == 0 && r1 == 0) || (r1 == 0 && !LosesCarry(h, n0, n1))
  {
    hide Step, IsTurn, Acc.Value, LosesCarry;
    if r1 == 0 {
      LowKeyExactly(h, n0, n1, 1, r0);
    } else {
      StepExactly(h, n0, n1, 1, r0, r1);
      SumBound(h, n0, n1, 1);
      LargeProduct(h.Value() + BlockNumber(n0, n1, 1), r0 + r1 * B);
    }
  }

  /** From a zero accumulator, a full block of zeros and this clamped r give a wrong turn. */
  lemma TurnCanBeWrong()
    ensures Clamped(0, 0x800_0000_0000_0000)
    ensures !IsTurn(Step(Acc(0, 0, 0), 0, 0, 1, 0, 0x800_0000_0000_0000), Acc(0, 0, 0), B2, 0, 0x800_0000_0000_0000)
  {
    hide IsTurn, Step;
    FullBlockExactly(Acc(0, 0, 0), 0, 0, 0, 0x800_0000_0000_0000);
    assert BlockNumber(0, 0, 1) == B2;
  }

  // ---------- the message loop ----------

  /** The 17-byte buffer of lines 128-130. */
  function Buffer(chunk: Bytes): (b: Bytes)
    requires |chunk| <= 16
    ensures |b| == 17
  {
    chunk + [1] + Zeros(16 - |chunk|)
  }

  function Word(b: Bytes, at: nat): u64
    requires at + 8 <= |b|
  {
    assert Pow256(8) == B;
    LoadLE(b[at..at + 8])
  }

  function High(b: Bytes): u64
    requires |b| == 17
  {
    NumFacts(b[16], 0);
    Num(b[16])
  }

  /** The three words of the buffer are the chunk with a 1 byte appended, read little-endian,
      as section 2.5 of RFC 8439 defines the block. */
  lemma BufferNumber(chunk: Bytes)
    requires |chunk| <= 16
    ensures High(Buffer(chunk)) <= 1
    ensures BlockNumber(Word(Buffer(chunk), 0), Word(Buffer(chunk), 8), High(Buffer(chunk))) == LoadLE(chunk + [1])
  {
    hide LoadLE, Num, Word, Buffer;
    LoadBuffer(chunk);
    BufferHighByte(chunk);
    LoadPieces(Buffer(chunk));
    NumOfBit(Buffer(chunk)[16]);
  }

  lemma LoadBuffer(chunk: Bytes)
    requires |chunk| <= 16
    ensures LoadLE(Buffer(chunk)) == LoadLE(chunk + [1])
  {
    hide *;
    BufferIs(chunk);
    PaddingIgnored(Buffer(chunk), chunk + [1], 16 - |chunk|);
  }

  lemma BufferIs(chunk: Bytes)
    requires |chunk| <= 16
    ensures Buffer(chunk) == chunk + [1] + Zeros(16 - |chunk|)
  {}

  lemma PaddingIgnored(b: Bytes, s: Bytes, n: nat)
    requires b == s + Zeros(n)
    ensures LoadLE(b) == LoadLE(s)
  {
    hide *;
    LoadPadded(s, n);
  }

  lemma BufferHighByte(chunk: Bytes)
    requires |chunk| <= 16
    ensures Buffer(chunk)[16] == if |chunk| == 16 then 1 else 0
  {}

  lemma LoadByte(x: bv8)
    ensures LoadLE([x]) == Num(x)
  {
    assert [x][1..] == [];
  }

  lemma LoadPieces(b: Bytes)
    requires |b| == 17
    ensures LoadLE(b) == Word(b, 0) + Word(b, 8) * B + Num(b[16]) * B2
  {
    hide LoadLE, Num;
    assert b == b[0..8] + (b[8..16] + [b[16]]);
    LoadAppend(b[0..8], b[8..16] + [b[16]]);
    LoadAppend(b[8..16], [b[16]]);
    LoadByte(b[16]);
    assert Pow256(8) == B;
  }

  lemma NumOfBit(b: bv8)
    requires b == 0 || b == 1
    ensures 0 <= Num(b) <= 1
  {}

  function StepOn(h: Acc, r0: u64, r1: u64, chunk: Bytes): Acc
    requires |chunk| <= 16
  {
    var b := Buffer(chunk);
    Step(h, Word(b, 0), Word(b, 8), High(b), r0, r1)
  }

  function ChunkLength(msg: Bytes): nat {
    if |msg| < 16 then |msg| else 16
  }

  function Absorb(h: Acc, r0: u64, r1: u64, msg: Bytes): Acc
    decreases |msg|
  {
    if msg == [] then h
    else
      var n := ChunkLength(msg);
      Absorb(StepOn(h, r0, r1, msg[..n]), r0, r1, msg[n..])
  }

  // ---------- the key and the tag ----------

  const MASK0: Bytes := [0xff, 0xff, 0xff, 0x0f, 0xfc, 0xff, 0xff, 0x0f]
  const MASK1: Bytes := [0xfc, 0xff, 0xff, 0x0f, 0xfc, 0xff, 0xff, 0x0f]

  /** t & mask, byte by byte; the masks are the constants of lines 112-113 in memory order. */
  function Masked(b: Bytes, at: nat, mask: Bytes): Bytes
    requires at + 8 <= |b| && |mask| == 8
  {
    seq(8, i requires 0 <= i < 8 => b[at + i] & mask[i])
  }

  function R0(key: Bytes): u64
    requires |key| >= 32
  {
    Word(Masked(key, 0, MASK0), 0)
  }

  function R1(key: Bytes): u64
    requires |key| >= 32
  {
    Word(Masked(key, 8, MASK1), 0)
  }

  lemma MaskedByte(x: bv8)
    ensures 0 <= Num(x & 0x0f) <= 15 && Num(x & 0xfc) % 4 == 0
  {
    var y := x & 0xfc;
    assert y & 3 == 0;
  }

  lemma ClampedKey(key: Bytes)
    requires |key| >= 32
    ensures Clamped(R0(key), R1(key))
  {
    TopByteClamped(Masked(key, 0, MASK0), key[7]);
    TopByteClamped(Masked(key, 8, MASK1), key[15]);
    var m := Masked(key, 8, MASK1);
    assert m[0] == key[8] & 0xfc;
    MaskedByte(key[8]);
    assert m[0..8] == m;
  }

  lemma TopByteClamped(m: Bytes, x: bv8)
    requires |m| == 8 && m[7] == x & 0x0f
    ensures Word(m, 0) < 0x1000_0000_0000_0000
  {
    hide LoadLE, Num;
    assert m[0..8] == m == m[..7] + [m[7]];
    LoadAppend(m[..7], [m[7]]);
    LoadByte(m[7]);
    MaskedByte(x);
    assert Pow256(7) == 0x100_0000_0000_0000;
  }

  /** The final addition of s, and the two stores. */
  function Tag(msg: Bytes, key: Bytes): (tag: Bytes)
    requires |key| >= 32
    ensures |tag| == 16
  {
    var h := Absorb(Acc(0, 0, 0), R0(key), R1(key), msg);
    var s0, s1 := Word(key, 16), Word(key, 24);
    var f0 := Wrap(h.h0 + s0);
    var f1 := Wrap(h.h1 + s1 + Carry(f0 < s0));
    StoreLE(f0, 8) + StoreLE(f1, 8)
  }

  /** The loop body of poly1305_auth, line by line, on a padded buffer. */
  method Turn(h: Acc, r0: u64, r1: u64, block: array<bv8>) returns (h': Acc)
    requires block.Length == 17
    ensures h' == Step(h, Word(block[..], 0), Word(block[..], 8), High(block[..]), r0, r1)
  {
    hide Mul64, Word, High, Wrap, Carry;
    var n0, n1, hibit := Word(block[..], 0), Word(block[..], 8), High(block[..]);
    var h0, h1, h2 := h.h0, h.h1, h.h2;

    h0 := Wrap(h0 + n0);
    var c := Carry(h0 < n0);
    h1 := Wrap(h1 + Wrap(n1 + c));
    c := Carry(h1 < Wrap(n1 + c));
    h2 := Wrap(h2 + hibit + c);
    assert Acc(h0, h1, h2) == AddBlock(h, n0, n1, hibit);

    var d0 := Mul64(h0, r0);
    var m1 := Mul64(h0, r1);
    var m2 := Mul64(h1, r0);
    var d1Lo: int := Wrap(m1.lo + m2.lo);
    var carry := Carry(d1Lo < m1.lo);
    var d1Hi: int := Wrap(m1.hi + m2.hi + carry);
    var p1 := Mul64(h1, r1);
    var p2 := Mul64(h2, r0);
    var d2Lo: int := Wrap(p1.lo + p2.lo);
    carry := Carry(d2Lo < p1.lo);
    d1Lo := Wrap(d1Lo + d0.hi);
    carry := Carry(d1Lo < d0.hi);
    d1Hi := Wrap(d1Hi + carry);
    d2Lo := Wrap(d2Lo + d1Hi);
    assert Acc(d0.lo, d1Lo, d2Lo) == MulAcc(Acc(h0, h1, h2), r0, r1);
    h0, h1, h2 := d0.lo, d1Lo, d2Lo;

    var cOut := h2 / 4;
    h2 := h2 % 4;
    h0 := Wrap(h0 + Wrap(cOut * 5));
    carry := Carry(h0 < Wrap(cOut * 5));
    h1 := Wrap(h1 + carry);
    h2 := Wrap(h2 + Carry(h1 < carry));
    h' := Acc(h0, h1, h2);
  }

  /** The buffer setup and one turn. */
  method TurnOn(h: Acc, r0: u64, r1: u64, chunk: Bytes) returns (h': Acc)
    requires |chunk| <= 16
    ensures h' == StepOn(h, r0, r1, chunk)
  {
    hide Step, Word, High;
    var block := new bv8[17](_ => 0);
    forall i | 0 <= i < |chunk| {
      block[i] := chunk[i];
    }
    block[|chunk|] := 1;
    assert block[..] == Buffer(chunk);
    h' := Turn(h, r0, r1, block);
  }

  /** The message loop. */
  method AbsorbMessage(r0: u64, r1: u64, msg: Bytes) returns (h: Acc)
    ensures h == Absorb(Acc(0, 0, 0), r0, r1, msg)
  {
    hide StepOn;
    h := Acc(0, 0, 0);
    var offset := 0;
    while offset < |msg|
      invariant offset <= |msg|
      invariant Absorb(Acc(0, 0, 0), r0, r1, msg) == Absorb(h, r0, r1, msg[offset..])
    {
      var blockLen := if |msg| - offset < 16 then |msg| - offset else 16;
      ghost var rest := msg[offset..];
      assert rest[..ChunkLength(rest)] == msg[offset..offset + blockLen];
      assert rest[ChunkLength(rest)..] == msg[offset + blockLen..];
      h := TurnOn(h, r0, r1, msg[offset..offset + blockLen]);
      offset := offset + blockLen;
    }
  }

  /** poly1305_auth, writing the tag at an offset of the caller's buffer. */
  method Poly1305Auth(out: array<bv8>, at: nat, msg: Bytes, key: Bytes)
    requires |key| >= 32 && at + 16 <= out.Length
    modifies out
    ensures out[at..at + 16] == Tag(msg, key)
    ensures forall i :: 0 <= i < out.Length && !(at <= i < at + 16) ==> out[i] == old(out[i])
  {
    hide Word, Wrap, Carry, R0, R1, Absorb, StoreLE;
    var r0, r1 := R0(key), R1(key);
    var s0, s1 := Word(key, 16), Word(key, 24);
    var h := AbsorbMessage(r0, r1, msg);
    var f0 := Wrap(h.h0 + s0);
    var f1 := Wrap(h.h1 + s1 + Carry(f0 < s0));
    CopyInto(out, at, StoreLE(f0, 8) + StoreLE(f1, 8));
  }
}
