/** GF(2^8) under the polynomial 0x11D: carry-less multiplication, the powers of the
    generator, and the log/exp product the codec computes with.

    The product and the inverse are parameterised by `w`, the byte held in entry 255 of
    the exp table.  Line 46 of reed_solomon_fec.h stores 0 there; the field needs 1. */
module GaloisField {
  import opened Bytes

  // ---------- addition ----------

  function Add(a: bv8, b: bv8): bv8 {
    a ^ b
  }

  lemma AddAssoc(a: bv8, b: bv8, c: bv8)
    ensures Add(Add(a, b), c) == Add(a, Add(b, c))
  {}

  lemma AddBasics(a: bv8, b: bv8)
    ensures Add(a, b) == Add(b, a) && Add(a, 0) == a && Add(0, a) == a && Add(a, a) == 0
  {}

  lemma AddZeroIff(a: bv8, b: bv8)
    ensures Add(a, b) == 0 <==> a == b
  {}

  lemma AddSwap(a: bv8, b: bv8, c: bv8, d: bv8)
    ensures Add(Add(a, b), Add(c, d)) == Add(Add(a, c), Add(b, d))
  {
    AddAssoc(a, b, Add(c, d));
    AddAssoc(b, c, d);
    AddBasics(b, c);
    AddAssoc(c, b, d);
    AddAssoc(a, c, Add(b, d));
  }

  lemma AddCancel(a: bv8, b: bv8)
    ensures Add(Add(a, b), b) == a
  {}

  // ---------- multiplication by x ----------

  function Overflow(a: bv8): bv8 {
    if a & 0x80 != 0 then 0x1D else 0
  }

  function Xtime(a: bv8): bv8 {
    Add(a << 1, Overflow(a))
  }

  lemma OverflowAdd(a: bv8, b: bv8)
    ensures Overflow(Add(a, b)) == Add(Overflow(a), Overflow(b))
  {
    assert ((Add(a, b) & 0x80) != 0) == ((a & 0x80 != 0) != (b & 0x80 != 0));
  }

  lemma XtimeAdd(a: bv8, b: bv8)
    ensures Xtime(Add(a, b)) == Add(Xtime(a), Xtime(b))
  {
    assert Add(a, b) << 1 == Add(a << 1, b << 1);
    OverflowAdd(a, b);
    AddSwap(a << 1, b << 1, Overflow(a), Overflow(b));
  }

  lemma XtimeInjective(a: bv8, b: bv8)
    requires Xtime(a) == Xtime(b)
    ensures a == b
  {}

  /** a times the i-th power of the generator. */
  function Shift(a: bv8, i: nat): bv8 {
    if i == 0 then a else Xtime(Shift(a, i - 1))
  }

  /** The i-th power of the generator. */
  function Pow(i: nat): bv8 {
    Shift(1, i)
  }

  lemma {:induction false} ShiftAdd(a: bv8, b: bv8, i: nat)
    ensures Shift(Add(a, b), i) == Add(Shift(a, i), Shift(b, i))
  {
    if i > 0 {
      ShiftAdd(a, b, i - 1);
      XtimeAdd(Shift(a, i - 1), Shift(b, i - 1));
    }
  }

  lemma {:induction false} ShiftShift(a: bv8, i: nat, j: nat)
    ensures Shift(Shift(a, i), j) == Shift(a, i + j)
  {
    if j > 0 {
      ShiftShift(a, i, j - 1);
    }
  }

  lemma {:induction false} ShiftZero(i: nat)
    ensures Shift(0, i) == 0
  {
    if i > 0 {
      ShiftZero(i - 1);
    }
  }

  lemma {:induction false} ShiftInjective(a: bv8, b: bv8, i: nat)
    requires Shift(a, i) == Shift(b, i)
    ensures a == b
  {
    if i > 0 {
      XtimeInjective(Shift(a, i - 1), Shift(b, i - 1));
      ShiftInjective(a, b, i - 1);
    }
  }

  lemma PowNonzero(i: nat)
    ensures Pow(i) != 0
  {
    ShiftZero(i);
    if Pow(i) == 0 {
      ShiftInjective(1, 0, i);
    }
  }

  // ---------- the generator has order exactly 255 ----------

  /** Squaring is linear, so it is fixed by the squares of the eight bits. */
  function Square(a: bv8): bv8 {
    Pick(a, 0x01, 0x01) ^ Pick(a, 0x02, 0x04) ^ Pick(a, 0x04, 0x10) ^ Pick(a, 0x08, 0x40) ^
    Pick(a, 0x10, 0x1D) ^ Pick(a, 0x20, 0x74) ^ Pick(a, 0x40, 0xCD) ^ Pick(a, 0x80, 0x13)
  }

  function Pick(a: bv8, mask: bv8, v: bv8): bv8 {
    if a & mask != 0 then v else 0
  }

  lemma SquareXtime(a: bv8)
    ensures Square(Xtime(a)) == Xtime(Xtime(Square(a)))
  {}

  lemma {:induction false} PowDouble(i: nat)
    ensures Pow(2 * i) == Square(Pow(i))
  {
    if i > 0 {
      PowDouble(i - 1);
      SquareXtime(Pow(i - 1));
      assert Pow(2 * i) == Xtime(Pow(2 * i - 1)) == Xtime(Xtime(Pow(2 * i - 2)));
    }
  }

  /** Pow(n) by doubling, for the concrete exponents below. */
  lemma PowStep(n: nat, v: bv8)
    requires Pow(n) == v
    ensures Pow(2 * n) == Square(v) && Pow(2 * n + 1) == Xtime(Square(v))
  {
    PowDouble(n);
  }

  lemma PowCycle()
    ensures Pow(255) == 1 && Pow(15) != 1 && Pow(51) != 1 && Pow(85) != 1
  {
    PowStep(0, 1);
    PowStep(1, 0x02); PowStep(3, 0x08); PowStep(7, 0x80);
    PowStep(15, 0x26); PowStep(31, 0xC0); PowStep(63, 0xA1); PowStep(127, 0xCC);
    PowStep(3, 0x08); PowStep(6, 0x40); PowStep(12, 0xCD); PowStep(25, 0x03);
    PowStep(2, 0x04); PowStep(5, 0x20); PowStep(10, 0x74); PowStep(21, 0x75); PowStep(42, 0xB5);
  }

  lemma PowAdd(i: nat, j: nat)
    requires Pow(i) == 1
    ensures Pow(i + j) == Pow(j)
  {
    ShiftShift(1, i, j);
  }

  lemma {:induction false} PowMultiple(d: nat, q: nat)
    requires Pow(d) == 1
    ensures Pow(d * q) == 1
  {
    if q > 0 {
      PowMultiple(d, q - 1);
      assert d * q == d + d * (q - 1);
      PowAdd(d, d * (q - 1));
    }
  }

  lemma PowRemainder(d: nat, n: nat)
    requires d > 0 && Pow(d) == 1
    ensures Pow(n % d) == Pow(n)
  {
    PowMultiple(d, n / d);
    assert n == d * (n / d) + n % d;
    PowAdd(d * (n / d), n % d);
  }

  /** A proper divisor d of 255 divides 85, 51 or 15. */
  lemma ProperDivisor(d: nat, q: nat) returns (m: nat)
    requires d * q == 255 && q >= 2
    ensures d * m == 85 || d * m == 51 || d * m == 15
  {
    if q <= 15 {
      assert q == 3 || q == 5 || q == 15;
      m := if q == 15 then 5 else 1;
    } else {
      MulMonotone(d, q);
      assert d == 1 || d == 3 || d == 5 || d == 15;
      m := if d == 1 then 85 else if d == 3 then 17 else if d == 5 then 3 else 1;
    }
  }

  lemma MulMonotone(d: nat, q: nat)
    requires q >= 16
    ensures d <= 15 || d * q >= 256
  {}

  lemma CycleRemainder(d: nat)
    requires d > 0 && Pow(d) == 1
    ensures Pow(255 % d) == 1
  {
    PowRemainder(d, 255);
    PowCycle();
  }

  lemma NotAProperDivisor(d: nat, q: nat)
    requires d * q == 255 && q >= 2
    ensures Pow(d) != 1
  {
    if Pow(d) == 1 {
      var m := ProperDivisor(d, q);
      PowMultiple(d, m);
      PowCycle();
    }
  }

  lemma {:induction false} NoSmallOrder(d: nat)
    requires 0 < d < 255
    ensures Pow(d) != 1
  {
    if Pow(d) == 1 {
      CycleRemainder(d);
      if 255 % d != 0 {
        NoSmallOrder(255 % d);
      } else {
        assert d * (255 / d) == 255;
        NotAProperDivisor(d, 255 / d);
      }
    }
  }

  lemma PowMod(n: nat)
    ensures Pow(n % 255) == Pow(n)
  {
    PowCycle();
    PowRemainder(255, n);
  }

  /** The generator has order exactly 255: powers agree iff exponents agree mod 255. */
  lemma PowEqual(i: nat, j: nat)
    ensures Pow(i) == Pow(j) <==> i % 255 == j % 255
  {
    PowMod(i);
    PowMod(j);
    var a, b := i % 255, j % 255;
    if Pow(a) == Pow(b) && a != b {
      var lo, hi := if a < b then a else b, if a < b then b else a;
      ShiftShift(1, hi - lo, lo);
      ShiftInjective(Pow(hi - lo), 1, lo);
      NoSmallOrder(hi - lo);
    }
  }

  // ---------- discrete logarithms ----------

  lemma {:induction false} UpTo(n: nat) returns (s: set<int>)
    ensures |s| == n && forall v :: v in s <==> 1 <= v <= n
  {
    s := {};
    if n > 0 {
      s := UpTo(n - 1);
      s := s + {n};
    }
  }

  /** The numbers of the n distinct bytes Pow(0), ..., Pow(n-1). */
  lemma {:induction false} Powers(n: nat) returns (s: set<int>)
    requires n <= 255
    ensures |s| == n
    ensures forall v :: v in s ==> 1 <= v <= 255 && exists i: nat :: i < n && Num(Pow(i)) == v
  {
    s := {};
    if n > 0 {
      s := Powers(n - 1);
      PowersFresh(n - 1);
      s := s + {Num(Pow(n - 1))};
    }
  }

  lemma PowersFresh(n: nat)
    requires n < 255
    ensures forall i: nat :: i < n ==> Num(Pow(i)) != Num(Pow(n))
    ensures 1 <= Num(Pow(n)) <= 255
  {
    PowNonzero(n);
    NumFacts(Pow(n), 0);
    forall i: nat | i < n
      ensures Num(Pow(i)) != Num(Pow(n))
    {
      PowEqual(i, n);
      NumFacts(Pow(i), Pow(n));
    }
  }

  lemma SubsetOfSameSize(s: set<int>, t: set<int>)
    requires s <= t && |s| == |t|
    ensures s == t
  {
    assert |t - s| == |t| - |s|;
  }

  /** 255 distinct nonzero bytes are all of them, so every nonzero byte is a power. */
  lemma LogExists(a: bv8)
    requires a != 0
    ensures exists i: nat :: i < 255 && Pow(i) == a
  {
    var s := Powers(255);
    var t := UpTo(255);
    assert s <= t by {
      assert forall v :: v in s ==> v in t;
    }
    SubsetOfSameSize(s, t);
    NumFacts(a, 0);
    assert Num(a) in s;
    var i: nat :| i < 255 && Num(Pow(i)) == Num(a);
    NumFacts(Pow(i), a);
  }

  ghost function Log(a: bv8): (i: nat)
    requires a != 0
    ensures i < 255 && Pow(i) == a
  {
    LogExists(a);
    var i: nat :| i < 255 && Pow(i) == a;
    i
  }

  lemma LogPow(i: nat)
    ensures Pow(i) != 0 && Log(Pow(i)) == i % 255
  {
    PowNonzero(i);
    PowEqual(Log(Pow(i)), i);
  }

  // ---------- the log/exp product ----------

  /** Entry i of the exp table when entry 255 holds w. */
  function TableExp(w: bv8, i: nat): bv8 {
    if i == 255 then w else Pow(i)
  }

  lemma RepairedExp(i: nat)
    ensures TableExp(1, i) == Pow(i)
  {
    if i == 255 {
      PowCycle();
    }
  }

  ghost function TableMul(w: bv8, a: bv8, b: bv8): bv8 {
    if a == 0 || b == 0 then 0 else TableExp(w, Log(a) + Log(b))
  }

  ghost function TableInv(w: bv8, a: bv8): bv8 {
    if a == 0 then 0 else TableExp(w, 255 - Log(a))
  }

  ghost function TableDiv(w: bv8, a: bv8, b: bv8): bv8 {
    if a == 0 || b == 0 then 0 else TableExp(w, Log(a) + 255 - Log(b))
  }

  lemma TableMulZero(w: bv8, a: bv8)
    ensures TableMul(w, 0, a) == 0 && TableMul(w, a, 0) == 0
  {}

  lemma TableMulOne(w: bv8, a: bv8)
    ensures TableMul(w, 1, a) == a
  {
    LogPow(0);
  }

  lemma TableMulComm(w: bv8, a: bv8, b: bv8)
    ensures TableMul(w, a, b) == TableMul(w, b, a)
  {}

  /** The product with a repaired table: the field product, by the lemmas below. */
  ghost function Mul(a: bv8, b: bv8): bv8 {
    TableMul(1, a, b)
  }

  ghost function Inv(a: bv8): bv8 {
    TableInv(1, a)
  }

  lemma MulLogs(a: bv8, b: bv8)
    requires a != 0 && b != 0
    ensures Mul(a, b) == Pow(Log(a) + Log(b)) && Mul(a, b) != 0
  {
    RepairedExp(Log(a) + Log(b));
    PowNonzero(Log(a) + Log(b));
  }

  lemma MulPow(i: nat, j: nat)
    ensures Mul(Pow(i), Pow(j)) == Pow(i + j)
  {
    LogPow(i);
    LogPow(j);
    MulLogs(Pow(i), Pow(j));
    SumMod(i, j);
    PowEqual(i % 255 + j % 255, i + j);
  }

  lemma SumMod(i: nat, j: nat)
    ensures (i % 255 + j % 255) % 255 == (i + j) % 255
  {}

  lemma MulBasics(a: bv8, b: bv8)
    ensures Mul(a, b) == Mul(b, a) && Mul(a, 1) == a && Mul(1, a) == a
    ensures Mul(a, 0) == 0 && Mul(0, a) == 0
    ensures Mul(a, b) == 0 <==> a == 0 || b == 0
  {
    if a != 0 {
      LogPow(0);
      MulLogs(a, 1);
      if b != 0 {
        MulLogs(a, b);
      }
    }
  }

  lemma MulAssoc(a: bv8, b: bv8, c: bv8)
    ensures Mul(Mul(a, b), c) == Mul(a, Mul(b, c))
  {
    MulBasics(a, b);
    MulBasics(b, c);
    if a != 0 && b != 0 && c != 0 {
      MulPow(Log(a), Log(b));
      MulPow(Log(a) + Log(b), Log(c));
      MulPow(Log(b), Log(c));
      MulPow(Log(a), Log(b) + Log(c));
    }
  }

  /** Multiplying by the i-th power is i multiplications by x, hence linear. */
  lemma MulShift(i: nat, b: bv8)
    ensures Mul(Pow(i), b) == Shift(b, i)
  {
    if b == 0 {
      ShiftZero(i);
    } else {
      MulShiftPow(i, Log(b));
    }
  }

  lemma MulShiftPow(i: nat, j: nat)
    ensures Mul(Pow(i), Pow(j)) == Shift(Pow(j), i)
  {
    MulPow(i, j);
    ShiftShift(1, j, i);
  }

  lemma MulAdd(a: bv8, b: bv8, c: bv8)
    ensures Mul(a, Add(b, c)) == Add(Mul(a, b), Mul(a, c))
    ensures Mul(Add(b, c), a) == Add(Mul(b, a), Mul(c, a))
  {
    if a != 0 {
      MulShift(Log(a), b);
      MulShift(Log(a), c);
      MulShift(Log(a), Add(b, c));
      ShiftAdd(b, c, Log(a));
    }
    MulBasics(a, b);
    MulBasics(a, c);
    MulBasics(a, Add(b, c));
  }

  lemma MulInverse(a: bv8)
    requires a != 0
    ensures Inv(a) != 0 && Mul(a, Inv(a)) == 1 && Mul(Inv(a), a) == 1
  {
    RepairedExp(255 - Log(a));
    PowNonzero(255 - Log(a));
    MulPow(Log(a), 255 - Log(a));
    PowEqual(255, 0);
    MulBasics(a, Inv(a));
  }

  // ---------- the table product against bitwise multiplication ----------

  /** Carry-less product of a and the low n bits of b, reduced by 0x11D as it goes. */
  function CarrylessLow(a: bv8, b: bv8, n: nat): bv8
    decreases n
  {
    if n == 0 then 0
    else Add(Pick(b, 1, a), CarrylessLow(Xtime(a), b >> 1, n - 1))
  }

  function Carryless(a: bv8, b: bv8): bv8 {
    CarrylessLow(a, b, 8)
  }

  lemma LowBitSplit(b: bv8)
    ensures Add(b & 1, Xtime(b >> 1)) == b && (b & 1 == 0 || b & 1 == 1)
  {
    assert Xtime(b >> 1) == (b >> 1) << 1;
  }

  /** Splitting off the lowest bit of b: a*b = (b mod 2)*a + (x*a)*(b div 2). */
  lemma MulLowBit(a: bv8, b: bv8)
    ensures Mul(a, b) == Add(Pick(b, 1, a), Mul(Xtime(a), b >> 1))
  {
    var low, high := b & 1, b >> 1;
    LowBitSplit(b);
    MulAdd(a, low, Xtime(high));
    MulBasics(a, low);
    MulXtime(a, high);
  }

  lemma MulXtime(a: bv8, b: bv8)
    ensures Mul(a, Xtime(b)) == Mul(Xtime(a), b) == Xtime(Mul(a, b))
  {
    MulShift(1, a);
    MulShift(1, b);
    MulShift(1, Mul(a, b));
    assert Xtime(a) == Shift(a, 1) && Xtime(b) == Shift(b, 1) && Xtime(Mul(a, b)) == Shift(Mul(a, b), 1);
    MulAssoc(a, Pow(1), b);
    MulBasics(a, Pow(1));
    MulAssoc(Pow(1), a, b);
  }

  lemma {:induction false} MulIsCarrylessLow(a: bv8, b: bv8, n: nat)
    requires n <= 8 && b >> n == 0
    ensures Mul(a, b) == CarrylessLow(a, b, n)
    decreases n
  {
    if n == 0 {
      MulBasics(a, 0);
    } else {
      MulLowBit(a, b);
      MulIsCarrylessLow(Xtime(a), b >> 1, n - 1);
    }
  }

  /** With entry 255 repaired, the log/exp product is carry-less multiplication mod 0x11D. */
  lemma MulIsCarryless(a: bv8, b: bv8)
    ensures Mul(a, b) == Carryless(a, b)
  {
    assert b >> 8 == 0;
    MulIsCarrylessLow(a, b, 8);
  }

  /** For any stored entry w, the table product is right exactly when entry 255 is not
      read (the logs do not sum to 255) or w is 1. */
  lemma TableMulExact(w: bv8, a: bv8, b: bv8)
    ensures TableMul(w, a, b) == Carryless(a, b)
        <==> w == 1 || a == 0 || b == 0 || Log(a) + Log(b) != 255
  {
    MulIsCarryless(a, b);
  }

  /** The table inverse is a multiplicative inverse exactly when a is not 1 or w is 1. */
  lemma TableInvExact(w: bv8, a: bv8)
    requires a != 0
    ensures Carryless(a, TableInv(w, a)) == 1 <==> w == 1 || a != 1
  {
    MulIsCarryless(a, TableInv(w, a));
    MulInverse(a);
    MulBasics(1, TableInv(w, a));
    LogPow(0);
    if Log(a) == 0 {
      assert a == 1;
    }
  }

  lemma DivThenMul(a: bv8, b: bv8)
    requires a != 0 && b != 0
    ensures Mul(Pow(Log(a) + 255 - Log(b)), b) == a
  {
    hide Mul;
    MulPow(Log(a) + 255 - Log(b), Log(b));
    PowEqual(Log(a) + 255, Log(a));
  }

  lemma MulFixesOne(q: bv8, a: bv8)
    requires a != 0
    ensures Mul(q, a) == a <==> q == 1
  {
    MulBasics(a, 1);
    MulInverse(a);
    MulAssoc(q, a, Inv(a));
    MulBasics(q, 1);
  }

  /** Dividing by b and multiplying back gives a exactly when a is not b or w is 1. */
  lemma TableDivExact(w: bv8, a: bv8, b: bv8)
    requires a != 0 && b != 0
    ensures Carryless(TableDiv(w, a, b), b) == a <==> w == 1 || a != b
  {
    MulIsCarryless(TableDiv(w, a, b), b);
    if a == b {
      MulFixesOne(w, a);
    } else {
      DivThenMul(a, b);
    }
  }
}
