/** The exact sizes of the table of powers that have no singular minor. */
module MinorSizes {
  import opened Bytes
  import opened GaloisField
  import opened LinearAlgebra
  import opened Recovery
  import opened Minors
  import opened SmallMinors

  ghost predicate IsMinor(rows: seq<nat>, cols: seq<nat>, k: nat, r: nat) {
    |rows| == |cols| && Increasing(rows) && Increasing(cols) && Below(rows, r) && Below(cols, k)
  }

  /** No minor of the first r rows and k columns is singular. */
  ghost predicate NoDegenerate(k: nat, r: nat) {
    forall rows, cols :: IsMinor(rows, cols, k, r) ==> !Degenerate(rows, cols)
  }

  predicate GoodSize(k: nat, r: nat) {
    k <= 3 || r <= 3 || (k == 4 && r <= 21) || (r == 4 && k <= 21) || (k == 5 && r == 5)
  }

  lemma TransposedMinor(rows: seq<nat>, cols: seq<nat>)
    requires |rows| == |cols| && !Degenerate(cols, rows)
    ensures !Degenerate(rows, cols)
  {
    hide Degenerate;
    if Degenerate(rows, cols) {
      MinorTransposed(rows, cols);
    }
  }

  lemma SizesTransposed(k: nat, r: nat)
    requires NoDegenerate(r, k)
    ensures NoDegenerate(k, r)
  {
    hide Degenerate;
    forall rows, cols | IsMinor(rows, cols, k, r)
      ensures !Degenerate(rows, cols)
    {
      assert IsMinor(cols, rows, r, k);
      TransposedMinor(rows, cols);
    }
  }

  lemma {:induction false} IncreasingLength(q: seq<nat>, n: nat)
    requires Increasing(q) && Below(q, n)
    ensures |q| <= n
    ensures forall i :: 0 <= i < |q| ==> i <= q[i] <= n - |q| + i
  {
    if q != [] {
      var m := |q| - 1;
      assert forall i :: 0 <= i < m ==> q[..m][i] == q[i] < q[m];
      IncreasingLength(q[..m], q[m]);
    }
  }

  predicate Stepped(rows: seq<nat>, d: nat) {
    forall i :: 0 <= i < |rows| - 1 ==> rows[i + 1] == rows[i] + d
  }

  lemma {:induction false} SteppedAt(rows: seq<nat>, d: nat, i: nat)
    requires Stepped(rows, d) && i < |rows|
    ensures rows[i] == rows[0] + i * d
  {
    if i > 0 {
      SteppedAt(rows, d, i - 1);
      NextTerm(rows[0], d, i - 1);
      assert rows[i - 1 + 1] == rows[i - 1] + d;
    } else {
      assert i * d == 0;
    }
  }

  /** Rows in steps of a small d over any columns. */
  lemma SteppedRows(rows: seq<nat>, cols: seq<nat>, d: nat, k: nat)
    requires |rows| == |cols| > 0 && Stepped(rows, d) && Increasing(cols) && Below(cols, k)
    requires d > 0 && (d == 1 || d == 2 || d * k <= 255) && k <= 255
    ensures !Degenerate(rows, cols)
  {
    forall i: nat | i < |rows|
      ensures rows[i] == rows[0] + i * d
    {
      SteppedAt(rows, d, i);
    }
    SmallStep(d, cols, k);
    ProgressionMinor(rows, cols, d, k);
  }

  // ---------- the sizes without a singular minor ----------

  lemma UpToThreeRows(rows: seq<nat>, cols: seq<nat>, k: nat)
    requires IsMinor(rows, cols, k, 3) && k <= 255
    ensures !Degenerate(rows, cols)
  {
    hide Degenerate;
    IncreasingLength(rows, 3);
    if |rows| == 0 {
      NoRows(rows, cols);
    } else {
      SteppedRows(rows, cols, if |rows| == 2 then rows[1] - rows[0] else 1, k);
    }
  }

  lemma FourRows(rows: seq<nat>, cols: seq<nat>)
    requires IsMinor(rows, cols, 21, 4)
    ensures !Degenerate(rows, cols)
  {
    hide Degenerate;
    IncreasingLength(rows, 4);
    if |rows| == 0 {
      NoRows(rows, cols);
    } else if |rows| == 3 && rows[1] == 1 && rows[2] == 3 {
      assert rows == [0, 1, 3];
      RowsZeroOneThree(cols);
    } else if |rows| == 3 && rows[0] == 0 && rows[1] == 2 {
      assert rows == [0, 2, 3];
      RowsZeroTwoThree(cols);
    } else {
      SteppedRows(rows, cols, if |rows| == 2 then rows[1] - rows[0] else 1, 21);
    }
  }

  // ---------- five rows and five columns: triples ----------

  predicate IsTriple(q: seq<nat>) {
    |q| == 3 && Increasing(q) && Below(q, 5)
  }

  predicate IsOdd(q: seq<nat>) {
    q == [0, 1, 4] || q == [0, 3, 4]
  }

  lemma OtherTriples(rows: seq<nat>, cols: seq<nat>)
    requires IsTriple(rows) && IsTriple(cols) && !IsOdd(rows)
    ensures !Degenerate(rows, cols)
  {
    hide Degenerate;
    var d, d' := rows[1] - rows[0], rows[2] - rows[1];
    assert rows == [rows[0], rows[0] + d, rows[0] + d + d'];
    if d == d' {
      SteppedRows(rows, cols, d, 5);
    } else if d == 1 && d' == 2 {
      RowsZeroOneThree(cols);
      ShiftedMinor([0, 1, 3], rows, rows[0], cols);
    } else {
      RowsZeroTwoThree(cols);
      ShiftedMinor([0, 2, 3], rows, rows[0], cols);
    }
  }

  lemma FirstPowers()
    ensures Pow(0) == 1 && Pow(1) == 2 && Pow(3) == 8 && Pow(4) == 16
    ensures Pow(9) == 58 && Pow(12) == 205 && Pow(16) == 76
  {
    PowStep(0, 1);
    PowStep(1, 2);
    PowStep(2, 4);
    PowStep(4, 16);
    PowStep(3, 8);
    PowStep(6, 64);
    PowStep(8, 29);
  }

  lemma OddRows()
    ensures MinorRow(1, [0, 1, 4]) == [1, 2, 16] && MinorRow(1, [0, 3, 4]) == [1, 8, 16]
    ensures MinorRow(3, [0, 1, 4]) == [1, 8, 205] && MinorRow(3, [0, 3, 4]) == [1, 58, 205]
    ensures MinorRow(4, [0, 1, 4]) == [1, 16, 76] && MinorRow(4, [0, 3, 4]) == [1, 205, 76]
  {
    hide Pow;
    FirstPowers();
  }

  lemma Products()
    ensures Mul(3, 77) == 215 && Mul(17, 17) == 28
    ensures Mul(9, 77) == 31 && Mul(204, 17) == 144
    ensures Mul(59, 77) == 116 && Mul(204, 204) == 142
  {
    MulIsCarryless(3, 77);
    MulIsCarryless(17, 17);
    MulIsCarryless(9, 77);
    MulIsCarryless(204, 17);
    MulIsCarryless(59, 77);
    MulIsCarryless(204, 204);
  }

  lemma OddKernel(rows: seq<nat>, cols: seq<nat>, y: Vec)
    requires IsOdd(rows) && IsOdd(cols) && Kills(rows, cols, y)
    ensures y == Zeros(3)
  {
    hide Mul, TableMul, Dot, Entry, Pow;
    OddRows();
    Products();
    var p, q := MinorRow(rows[1], cols), MinorRow(rows[2], cols);
    assert rows[0] in rows && rows[1] in rows && rows[2] in rows;
    DotIsSum3(MinorRow(0, cols), y);
    OnesRow(cols, y);
    DotIsSum3(p, y);
    DotIsSum3(q, y);
    MulBasics(17, 9);
    MulBasics(17, 204);
    ThreeRows(p[0], p[1], p[2], q[0], q[1], q[2], y);
  }

  lemma Triples(rows: seq<nat>, cols: seq<nat>)
    requires IsTriple(rows) && IsTriple(cols)
    ensures !Degenerate(rows, cols)
  {
    hide Degenerate, Kills;
    if !IsOdd(rows) {
      OtherTriples(rows, cols);
    } else if !IsOdd(cols) {
      OtherTriples(cols, rows);
      TransposedMinor(rows, cols);
    } else {
      DegenerateIs(rows, cols);
      forall y | Kills(rows, cols, y)
        ensures y == Zeros(3)
      {
        OddKernel(rows, cols, y);
      }
    }
  }

  // ---------- five rows and five columns: one row and one column missing ----------

  lemma DotOfFive(q: Vec, v: Vec)
    requires |q| == |v| == 5
    ensures Dot(1, q, v, 5) == Add(Add(Add(Add(Mul(q[0], v[0]), Mul(q[1], v[1])), Mul(q[2], v[2])), Mul(q[3], v[3])),
                                   Mul(q[4], v[4]))
  {
    hide TableMul, Add;
    assert Dot(1, q, v, 1) == Add(Dot(1, q, v, 0), Mul(q[0], v[0]));
    assert Dot(1, q, v, 2) == Add(Dot(1, q, v, 1), Mul(q[1], v[1]));
    assert Dot(1, q, v, 3) == Add(Dot(1, q, v, 2), Mul(q[2], v[2]));
    assert Dot(1, q, v, 4) == Add(Dot(1, q, v, 3), Mul(q[3], v[3]));
    AddBasics(Mul(q[0], v[0]), 0);
  }

  /** The polynomial with coefficients q at the j-th power of the generator. */
  function Value(q: Vec, j: nat): bv8
    requires |q| == 5
  {
    Add(Add(Add(Add(q[0], Shift(q[1], j)), Shift(q[2], 2 * j)), Shift(q[3], 3 * j)), Shift(q[4], 4 * j))
  }

  lemma ValueIsDot(q: Vec, j: nat)
    requires |q| == 5 && j < 5
    ensures Dot(1, q, RepairRow(5, j), 5) == Value(q, j)
  {
    hide TableMul, Add, Shift, Dot, Pow;
    var v := RepairRow(5, j);
    DotOfFive(q, v);
    EntryPow(j, 0);
    EntryPow(j, 1);
    EntryPow(j, 2);
    EntryPow(j, 3);
    EntryPow(j, 4);
    FirstPowers();
    MulBasics(q[0], 1);
    TimesPower(q[1], j);
    TimesPower(q[2], 2 * j);
    TimesPower(q[3], 3 * j);
    TimesPower(q[4], 4 * j);
  }

  lemma TimesPower(a: bv8, n: nat)
    ensures Mul(a, Pow(n)) == Shift(a, n)
  {
    MulShift(n, a);
    MulBasics(a, Pow(n));
  }

  /** The coefficients of the product of X + a^j over the columns j other than m. */
  function Dual(m: nat): Vec {
    if m == 1 then [58, 218, 252, 29, 1] else if m == 2 then [29, 173, 170, 27, 1] else [128, 232, 126, 23, 1]
  }

  lemma DualVanishes(m: nat, j: nat)
    requires 1 <= m <= 3 && j < 5 && j != m
    ensures Value(Dual(m), j) == 0
  {
    hide Value;
    if m == 1 {
      FirstDual();
    } else if m == 2 {
      SecondDual();
    } else {
      ThirdDual();
    }
  }

  lemma FirstDual()
    ensures Value([58, 218, 252, 29, 1], 0) == 0 && Value([58, 218, 252, 29, 1], 2) == 0
    ensures Value([58, 218, 252, 29, 1], 3) == 0 && Value([58, 218, 252, 29, 1], 4) == 0
  {}

  lemma SecondDual()
    ensures Value([29, 173, 170, 27, 1], 0) == 0 && Value([29, 173, 170, 27, 1], 1) == 0
    ensures Value([29, 173, 170, 27, 1], 3) == 0 && Value([29, 173, 170, 27, 1], 4) == 0
  {}

  lemma ThirdDual()
    ensures Value([128, 232, 126, 23, 1], 0) == 0 && Value([128, 232, 126, 23, 1], 1) == 0
    ensures Value([128, 232, 126, 23, 1], 2) == 0 && Value([128, 232, 126, 23, 1], 4) == 0
  {}

  function FiveRows(): seq<Vec> {
    seq(5, s requires 0 <= s => RepairRow(5, s))
  }

  lemma {:induction false} DisjointDot(u: Vec, x: Vec, n: nat)
    requires n <= |u| && n <= |x| && forall j :: 0 <= j < n ==> u[j] == 0 || x[j] == 0
    ensures Dot(1, u, x, n) == 0
  {
    if n > 0 {
      DisjointDot(u, x, n - 1);
      MulBasics(u[n - 1], x[n - 1]);
      AddBasics(0, 0);
    }
  }

  /** A vector that is zero in column m and annihilated by every row but t is annihilated by
      row t too: combine the rows into the polynomial that vanishes on the other columns. */
  lemma MissingRow(x: Vec, m: nat, t: nat)
    requires |x| == 5 && 1 <= m <= 3 && t < 5 && x[m] == 0
    requires forall s: nat :: s < 5 && s != t ==> Dot(1, RepairRow(5, s), x, 5) == 0
    ensures Dot(1, RepairRow(5, t), x, 5) == 0
  {
    hide Dot, Entry, TableMul;
    var q, rows := Dual(m), FiveRows();
    var w := Combo(q, rows, 5, 5);
    forall j | 0 <= j < 5
      ensures w[j] == 0 || x[j] == 0
    {
      if j != m {
        ColumnIsRow(j);
        ComboEntry(q, rows, 5, 5, j, RepairRow(5, j));
        ValueIsDot(q, j);
        DualVanishes(m, j);
      }
    }
    DisjointDot(w, x, 5);
    ComboDot(q, rows, x, 5);
    var d := RowDots(rows, x);
    DotSingle(q, d, 5, t);
    MulBasics(q[t], d[t]);
  }

  lemma ColumnIsRow(j: nat)
    requires j < 5
    ensures forall i :: 0 <= i < 5 ==> RepairRow(5, j)[i] == FiveRows()[i][j]
  {
    forall i | 0 <= i < 5
      ensures RepairRow(5, j)[i] == FiveRows()[i][j]
    {
      EntrySymmetric(i, j);
    }
  }

  function FirstFive(): seq<nat> {
    seq(5, i requires 0 <= i => i)
  }

  lemma FirstFiveFacts()
    ensures |FirstFive()| == 5 && Stepped(FirstFive(), 1) && Increasing(FirstFive()) && Below(FirstFive(), 5)
    ensures forall s: nat :: s in FirstFive() <==> s < 5
  {
    forall s: nat | s < 5
      ensures s in FirstFive()
    {
      assert FirstFive()[s] == s;
    }
  }

  lemma SupportedAnywhere(x: Vec, cols: seq<nat>)
    requires forall c: nat :: c < |x| ==> c in cols
    ensures SupportedOn(x, Elements(cols))
  {
    forall c: nat | c < |x|
      ensures c in Elements(cols)
    {
      assert c in cols;
      ElementsCovered(cols);
    }
  }

  lemma ElementsCovered(q: seq<nat>)
    ensures Covers(q, Elements(q))
  {}

  /** No nonzero vector of five columns is annihilated by the rows 0 to 4. */
  lemma FiveRowsKernel(x: Vec)
    requires |x| == 5 && forall s: nat :: s < 5 ==> Dot(1, RepairRow(5, s), x, 5) == 0
    ensures x == Zeros(5)
  {
    hide Degenerate, Dot, Entry, FirstFive, Stepped, Elements, SupportedOn;
    var all := FirstFive();
    FirstFiveFacts();
    ElementsCovered(all);
    SteppedRows(all, all, 1, 5);
    AmbivalentExact(5, all, all, Elements(all));
    SupportedAnywhere(x, all);
    assert Annihilates(5, all, x);
  }

  lemma MissingIn(q: seq<nat>) returns (m: nat)
    requires |q| == 4 && Increasing(q) && Below(q, 5)
    ensures m < 5 && m !in q && (forall s: nat :: s < 5 && s != m ==> s in q)
    ensures m == 0 || m == 4 ==> Stepped(q, 1)
  {
    IncreasingLength(q, 5);
    m := if q[0] == 1 then 0 else if q[1] == 2 then 1 else if q[2] == 3 then 2 else if q[3] == 4 then 3 else 4;
    assert q[0] in q && q[1] in q && q[2] in q && q[3] in q;
  }

  lemma FourOfFive(rows: seq<nat>, cols: seq<nat>)
    requires IsMinor(rows, cols, 5, 5) && |rows| == 4
    ensures !Degenerate(rows, cols)
  {
    hide Degenerate, Dot;
    var t := MissingIn(rows);
    var m := MissingIn(cols);
    if t == 0 || t == 4 {
      SteppedRows(rows, cols, 1, 5);
    } else if m == 0 || m == 4 {
      SteppedRows(cols, rows, 1, 5);
      TransposedMinor(rows, cols);
    } else {
      var lost := Elements(cols);
      AmbivalentExact(5, rows, cols, lost);
      forall x: Vec | |x| == 5 && SupportedOn(x, lost) && Annihilates(5, rows, x)
        ensures x == Zeros(5)
      {
        assert x[m] == 0;
        MissingRow(x, m, t);
        FiveRowsKernel(x);
      }
    }
  }

  lemma FiveByFive(rows: seq<nat>, cols: seq<nat>)
    requires IsMinor(rows, cols, 5, 5)
    ensures !Degenerate(rows, cols)
  {
    hide Degenerate;
    IncreasingLength(rows, 5);
    if |rows| == 0 {
      NoRows(rows, cols);
    } else if |rows| == 3 {
      Triples(rows, cols);
    } else if |rows| == 4 {
      FourOfFive(rows, cols);
    } else {
      SteppedRows(rows, cols, if |rows| == 2 then rows[1] - rows[0] else 1, 5);
    }
  }

  // ---------- the sizes with a singular minor ----------

  /** Three columns and the rows 0, s and s'. */
  lemma DegenerateTriple(cols: seq<nat>, s: nat, s': nat, p: Vec, q: Vec, y: Vec)
    requires |cols| == |y| == 3 && MinorRow(s, cols) == p && MinorRow(s', cols) == q
    requires Add(Add(y[0], y[1]), y[2]) == 0 && y[0] != 0
    requires Sum3(p[0], p[1], p[2], y) == 0 && Sum3(q[0], q[1], q[2], y) == 0
    ensures Degenerate([0, s, s'], cols)
  {
    hide Dot, Add, Entry, Sum3, Degenerate;
    DegenerateIs([0, s, s'], cols);
    DotIsSum3(MinorRow(0, cols), y);
    OnesRow(cols, y);
    DotIsSum3(p, y);
    DotIsSum3(q, y);
    assert Kills([0, s, s'], cols, y);
    assert y[0] != Zeros(3)[0];
  }

  lemma TwentyTwoColumns()
    ensures Degenerate([0, 1, 3], [0, 10, 21])
  {
    hide TableMul, Mul, Dot, Pow, Add, Degenerate;
    PowersOfTen();
    AddsToZero();
    MulPow(10, 10);
    MulPow(21, 21);
    MulBasics(1, 1);
    MulPow(30, 10);
    MulPow(63, 21);
    DegenerateTriple([0, 10, 21], 1, 3, [1, 116, 117], [1, Pow(30), Pow(63)], [1, 116, 117]);
  }

  lemma AddsToZero()
    ensures Add(Add(1, 116), 117) == 0 && Add(Add(1, 180), 181) == 0 && Add(Add(1, 106), 107) == 0
    ensures Add(Add(40, 33), 9) == 0 && Add(Add(40, 21), 61) == 0 && Add(Add(40, 85), 125) == 0
  {}

  lemma PowersOfTen()
    ensures Pow(0) == 1 && Pow(5) == 32 && Pow(10) == 116 && Pow(21) == 117 && Pow(20) == 180 && Pow(42) == 181
    ensures Pow(40) == 106 && Pow(84) == 107
  {
    PowStep(0, 1);
    PowStep(1, 2); PowStep(2, 4); PowStep(5, 32); PowStep(10, 116); PowStep(20, 180);
    PowStep(21, 117); PowStep(42, 181);
  }

  lemma SixColumns()
    ensures Degenerate([0, 1, 4], [0, 3, 5])
  {
    hide TableMul, Mul, Dot, Pow, Entry, Add, Degenerate;
    SixColumnRows();
    SixColumnProducts();
    AddsToZero();
    DegenerateTriple([0, 3, 5], 1, 4, [1, 8, 32], [1, 205, 180], [40, 33, 9]);
  }

  lemma SixColumnRows()
    ensures MinorRow(1, [0, 3, 5]) == [1, 8, 32] && MinorRow(4, [0, 3, 5]) == [1, 205, 180]
  {
    hide Pow;
    FirstPowers();
    PowersOfTen();
  }

  lemma SixColumnProducts()
    ensures Mul(1, 40) == 40 && Mul(8, 33) == 21 && Mul(32, 9) == 61 && Mul(205, 33) == 85 && Mul(180, 9) == 125
  {
    MulBasics(1, 40);
    MulBasics(40, 1);
    MulIsCarryless(8, 33);
    MulIsCarryless(32, 9);
    MulIsCarryless(205, 33);
    MulIsCarryless(180, 9);
  }

  // ---------- the exact sizes ----------

  lemma GoodMinor(rows: seq<nat>, cols: seq<nat>, k: nat, r: nat)
    requires IsMinor(rows, cols, k, r) && GoodSize(k, r) && r <= k && k <= 255
    ensures !Degenerate(rows, cols)
  {
    hide Degenerate;
    if r <= 3 {
      UpToThreeRows(rows, cols, k);
    } else if r == 4 {
      FourRows(rows, cols);
    } else {
      FiveByFive(rows, cols);
    }
  }

  lemma GoodSizes(k: nat, r: nat)
    requires GoodSize(k, r) && r <= k && k <= 255
    ensures NoDegenerate(k, r)
  {
    hide Degenerate, GoodSize;
    forall rows, cols | IsMinor(rows, cols, k, r)
      ensures !Degenerate(rows, cols)
    {
      GoodMinor(rows, cols, k, r);
    }
  }

  lemma BadSizes(k: nat, r: nat)
    requires !GoodSize(k, r) && r <= k
    ensures !NoDegenerate(k, r)
  {
    hide Degenerate;
    if r == 4 {
      TwentyTwoColumns();
      assert IsMinor([0, 1, 3], [0, 10, 21], k, r);
    } else {
      SixColumns();
      assert IsMinor([0, 1, 4], [0, 3, 5], k, r);
    }
  }

  lemma GoodSizeSymmetric(k: nat, r: nat)
    ensures GoodSize(k, r) <==> GoodSize(r, k)
  {}

  /** The first r rows and k columns have no singular minor exactly for these sizes. */
  lemma SizesExact(k: nat, r: nat)
    requires k <= 255 && r <= 255
    ensures NoDegenerate(k, r) <==> GoodSize(k, r)
  {
    hide NoDegenerate, GoodSize;
    GoodSizeSymmetric(k, r);
    var big, small := if r <= k then k else r, if r <= k then r else k;
    if GoodSize(k, r) {
      GoodSizes(big, small);
      if r > k {
        SizesTransposed(k, r);
      }
    } else {
      BadSizes(big, small);
      if r > k && NoDegenerate(k, r) {
        SizesTransposed(r, k);
      }
    }
  }
}
