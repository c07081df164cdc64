/** Which sizes of the table of powers have no singular minor. */
module SmallMinors {
  import opened Bytes
  import opened GaloisField
  import opened LinearAlgebra
  import opened Recovery
  import opened Minors

  // ---------- rows in arithmetic progression ----------

  predicate Increasing(q: seq<nat>) {
    forall i, j :: 0 <= i < j < |q| ==> q[i] < q[j]
  }

  function Elements(q: seq<nat>): set<nat> {
    set i | 0 <= i < |q| :: q[i]
  }

  lemma {:induction false} ElementsSize(q: seq<nat>)
    requires Distinct(q)
    ensures |Elements(q)| == |q|
  {
    if q != [] {
      var n := |q| - 1;
      ElementsSize(q[..n]);
      assert Elements(q) == Elements(q[..n]) + {q[n]};
      assert q[n] !in Elements(q[..n]);
    }
  }

  predicate InProgression(rows: seq<nat>, d: nat) {
    forall i :: 0 <= i < |rows| ==> rows[i] == rows[0] + i * d
  }

  /** The nodes of these columns, for rows in steps of d, are distinct. */
  predicate NodesApart(cols: seq<nat>, d: nat) {
    forall i, j :: 0 <= i < j < |cols| ==> cols[i] < cols[j] && (d * (cols[j] - cols[i])) % 255 != 0
  }

  lemma NodesDiffer(cols: seq<nat>, d: nat, c: nat, c': nat)
    requires NodesApart(cols, d) && c in cols && c' in cols && c != c'
    ensures Entry(d, c) != Entry(d, c')
  {
    var i :| 0 <= i < |cols| && cols[i] == c;
    var j :| 0 <= j < |cols| && cols[j] == c';
    if i < j {
      NodesEqual(d, c, c');
    } else {
      NodesEqual(d, c', c);
    }
  }

  /** Rows in progression and columns with distinct nodes: a Vandermonde minor. */
  lemma ProgressionMinor(rows: seq<nat>, cols: seq<nat>, d: nat, k: nat)
    requires |rows| == |cols| > 0 && InProgression(rows, d) && NodesApart(cols, d) && Below(cols, k)
    ensures !Degenerate(rows, cols)
  {
    hide Degenerate, Dot, Entry;
    var lost := Elements(cols);
    ElementsSize(cols);
    AmbivalentExact(k, rows, cols, lost);
    forall x: Vec | |x| == k && SupportedOn(x, lost) && Annihilates(k, rows, x)
      ensures x == Zeros(k)
    {
      forall c, c' | c in lost && c' in lost && c != c'
        ensures Entry(d, c) != Entry(d, c')
      {
        NodesDiffer(cols, d, c, c');
      }
      forall t: nat | t < |lost|
        ensures Dot(1, RepairRow(k, rows[0] + t * d), x, k) == 0
      {
        assert rows[t] in rows;
      }
      ProgressionKernel(k, x, lost, rows[0], d);
    }
  }

  lemma SmallStep(d: nat, cols: seq<nat>, k: nat)
    requires Increasing(cols) && Below(cols, k) && (d == 1 || d == 2 || d * k <= 255) && d > 0 && k <= 255
    ensures NodesApart(cols, d)
  {
    forall i, j | 0 <= i < j < |cols|
      ensures (d * (cols[j] - cols[i])) % 255 != 0
    {
      var g := cols[j] - cols[i];
      if d * k <= 255 {
        BelowProduct(d, g, k);
      }
    }
  }

  lemma BelowProduct(d: nat, g: nat, k: nat)
    requires d > 0 && 0 < g < k && d * k <= 255
    ensures 0 < d * g < 255
  {}

  // ---------- three columns ----------

  /** The sum of three products. */
  ghost function Sum3(p0: bv8, p1: bv8, p2: bv8, y: Vec): bv8
    requires |y| == 3
  {
    Add(Add(Mul(p0, y[0]), Mul(p1, y[1])), Mul(p2, y[2]))
  }

  lemma DotIsSum3(u: Vec, y: Vec)
    requires |u| == |y| == 3
    ensures Dot(1, u, y, 3) == Sum3(u[0], u[1], u[2], y)
  {
    hide TableMul, Add;
    assert Dot(1, u, y, 1) == Add(Dot(1, u, y, 0), Mul(u[0], y[0]));
    assert Dot(1, u, y, 2) == Add(Dot(1, u, y, 1), Mul(u[1], y[1]));
    AddBasics(Mul(u[0], y[0]), 0);
  }

  /** With the ones row satisfied, the first variable can be eliminated. */
  lemma EliminateFirst(p0: bv8, p1: bv8, p2: bv8, y: Vec)
    requires |y| == 3 && Add(Add(y[0], y[1]), y[2]) == 0 && Sum3(p0, p1, p2, y) == 0
    ensures Mul(Add(p1, p0), y[1]) == Mul(Add(p2, p0), y[2])
  {
    hide TableMul;
    AddZeroIff(Add(y[0], y[1]), y[2]);
    FirstOfSum(y[0], y[1], y[2]);
    MulAdd(p0, y[1], y[2]);
    MulAdd(y[1], p1, p0);
    MulAdd(y[2], p2, p0);
    CancelSum(Mul(p0, y[1]), Mul(p0, y[2]), Mul(p1, y[1]), Mul(p2, y[2]));
  }

  lemma FirstOfSum(a: bv8, b: bv8, c: bv8)
    requires Add(a, b) == c
    ensures a == Add(b, c)
  {}

  lemma CancelSum(a: bv8, b: bv8, c: bv8, d: bv8)
    requires Add(Add(Add(a, b), c), d) == 0
    ensures Add(c, a) == Add(d, b)
  {}

  /** Two equations u*y1 = v*y2 of nonzero determinant have no other solution than zero. */
  lemma TwoByTwo(u: bv8, v: bv8, u': bv8, v': bv8, y1: bv8, y2: bv8)
    requires Mul(u, y1) == Mul(v, y2) && Mul(u', y1) == Mul(v', y2)
    requires Mul(u, v') != Mul(u', v)
    ensures y1 == 0 && y2 == 0
  {
    hide TableMul;
    CrossMultiply(u, v, u', v', y1, y2);
    ScaleInjective(y2, Mul(u, v'), Mul(u', v));
    CrossMultiply(v, u, v', u', y2, y1);
    MulBasics(u, v');
    MulBasics(u', v);
    ScaleInjective(y1, Mul(v, u'), Mul(v', u));
  }

  lemma CrossMultiply(u: bv8, v: bv8, u': bv8, v': bv8, y1: bv8, y2: bv8)
    requires Mul(u, y1) == Mul(v, y2) && Mul(u', y1) == Mul(v', y2)
    ensures Mul(y2, Mul(u, v')) == Mul(y2, Mul(u', v))
  {
    hide TableMul;
    MulAssoc(u, v', y2);
    MulAssoc(u', v, y2);
    MulAssoc(u, u', y1);
    MulAssoc(u', u, y1);
    MulBasics(u, u');
    MulBasics(y2, Mul(u, v'));
    MulBasics(y2, Mul(u', v));
  }

  lemma ScaleInjective(c: bv8, p: bv8, q: bv8)
    requires Mul(c, p) == Mul(c, q) && p != q
    ensures c == 0
  {
    if c != 0 {
      MulInjective(c, p, q);
    }
  }

  /** No nonzero vector is annihilated by the ones row and two rows whose differences to the
      first entry have nonzero determinant. */
  lemma ThreeRows(p0: bv8, p1: bv8, p2: bv8, q0: bv8, q1: bv8, q2: bv8, y: Vec)
    requires |y| == 3 && Add(Add(y[0], y[1]), y[2]) == 0
    requires Sum3(p0, p1, p2, y) == 0 && Sum3(q0, q1, q2, y) == 0
    requires Mul(Add(p1, p0), Add(q2, q0)) != Mul(Add(q1, q0), Add(p2, p0))
    ensures y == Zeros(3)
  {
    hide TableMul;
    EliminateFirst(p0, p1, p2, y);
    EliminateFirst(q0, q1, q2, y);
    TwoByTwo(Add(p1, p0), Add(p2, p0), Add(q1, q0), Add(q2, q0), y[1], y[2]);
    AddZeroIff(Add(y[0], y[1]), y[2]);
    AddZeroIff(y[0], y[1]);
    assert y == [0, 0, 0];
  }

  // ---------- the rows 1, X, X^3 ----------

  ghost function Cube(x: bv8): bv8 {
    Mul(x, Mul(x, x))
  }

  /** (x + y)*(x^2 + x*y + y^2) = x^3 + y^3. */
  ghost function Quadratic(x: bv8, y: bv8): bv8 {
    Add(Add(Mul(x, x), Mul(x, y)), Mul(y, y))
  }

  lemma CubeSum(x: bv8, y: bv8)
    ensures Mul(Add(x, y), Quadratic(x, y)) == Add(Cube(x), Cube(y))
  {
    hide TableMul, Add;
    var a, b, c := Mul(x, x), Mul(x, y), Mul(y, y);
    MulAdd(Quadratic(x, y), x, y);
    MulAdd(x, Add(a, b), c);
    MulAdd(x, a, b);
    MulAdd(y, Add(a, b), c);
    MulAdd(y, a, b);
    MulBasics(x, y);
    MulAssoc(y, x, x);
    MulAssoc(x, y, x);
    MulAssoc(y, x, y);
    MulAssoc(x, y, y);
    assert Mul(y, a) == Mul(x, b);
    assert Mul(y, b) == Mul(x, c);
    Telescope(Mul(x, a), Mul(x, b), Mul(x, c), Mul(y, c));
  }

  lemma Telescope(a: bv8, b: bv8, c: bv8, d: bv8)
    ensures Add(Add(Add(a, b), c), Add(Add(b, c), d)) == Add(a, d)
  {}

  /** The two quadratics with a common second root differ by a product. */
  lemma QuadraticSum(x: bv8, y: bv8, z: bv8)
    ensures Add(Quadratic(x, z), Quadratic(y, z)) == Mul(Add(x, y), Add(Add(x, y), z))
  {
    hide TableMul, Add;
    MulAdd(Add(x, y), Add(x, y), z);
    MulAdd(Add(x, y), x, y);
    MulAdd(x, x, y);
    MulAdd(y, x, y);
    MulAdd(z, x, y);
    MulBasics(x, y);
    SumOfSquares(Mul(x, x), Mul(y, y), Mul(x, y), Mul(x, z), Mul(y, z), Mul(z, z));
  }

  lemma SumOfSquares(a: bv8, b: bv8, c: bv8, d: bv8, e: bv8, f: bv8)
    ensures Add(Add(Add(a, d), f), Add(Add(b, e), f)) == Add(Add(Add(a, c), Add(c, b)), Add(d, e))
  {
    hide Add;
    AddSwap(Add(a, d), f, Add(b, e), f);
    AddBasics(f, f);
    AddBasics(Add(Add(a, d), Add(b, e)), 0);
    AddSwap(a, d, b, e);
    AddBasics(c, b);
    AddSwap(a, c, b, c);
    AddBasics(c, c);
    AddBasics(Add(a, b), 0);
  }

  /** Distinct nodes of nonzero sum are told apart by the rows 1, X, X^3. */
  lemma CubicRows(x0: bv8, x1: bv8, x2: bv8, y: Vec)
    requires |y| == 3 && x0 != x1 && x0 != x2 && x1 != x2 && Add(Add(x1, x2), x0) != 0
    requires Add(Add(y[0], y[1]), y[2]) == 0 && Sum3(x0, x1, x2, y) == 0
    requires Sum3(Cube(x0), Cube(x1), Cube(x2), y) == 0
    ensures y == Zeros(3)
  {
    hide TableMul, Add, Cube, Quadratic;
    var u, v, a, b := Add(x1, x0), Add(x2, x0), Quadratic(x1, x0), Quadratic(x2, x0);
    CubeSum(x1, x0);
    CubeSum(x2, x0);
    QuadraticSum(x1, x2, x0);
    AddZeroIff(x1, x0);
    AddZeroIff(x2, x0);
    AddZeroIff(x1, x2);
    MulBasics(Add(x1, x2), Add(Add(x1, x2), x0));
    AddZeroIff(a, b);
    assert a != b;
    // u*(v*b) against (u*a)*v
    MulAssoc(u, v, b);
    MulAssoc(u, a, v);
    MulBasics(a, v);
    MulAssoc(u, v, a);
    MulBasics(u, v);
    if Mul(u, Mul(v, b)) == Mul(Mul(u, a), v) {
      MulInjective(Mul(u, v), a, b);
    }
    ThreeRows(x0, x1, x2, Cube(x0), Cube(x1), Cube(x2), y);
  }

  lemma EntryZero(c: nat)
    ensures Entry(0, c) == 1
  {
    assert 0 * c == 0;
  }

  lemma EntryCube(d: nat, c: nat)
    ensures Entry(3 * d, c) == Cube(Entry(d, c))
  {
    hide Entry;
    EntryAdd(d, d, c);
    EntryAdd(d, d + d, c);
  }

  /** The rows 0, d, 3d over columns whose nodes are distinct and do not sum to zero. */
  lemma CubicKernel(cols: seq<nat>, d: nat, y: Vec)
    requires |cols| == 3 && NodesApart(cols, d) && Kills([0, d, 3 * d], cols, y)
    requires Add(Add(Entry(d, cols[1]), Entry(d, cols[2])), Entry(d, cols[0])) != 0
    ensures y == Zeros(3)
  {
    hide TableMul, Add, Entry, Cube, Dot;
    var x0, x1, x2 := Entry(d, cols[0]), Entry(d, cols[1]), Entry(d, cols[2]);
    NodesDiffer(cols, d, cols[0], cols[1]);
    NodesDiffer(cols, d, cols[0], cols[2]);
    NodesDiffer(cols, d, cols[1], cols[2]);
    assert 0 in [0, d, 3 * d] && d in [0, d, 3 * d] && 3 * d in [0, d, 3 * d];
    DotIsSum3(MinorRow(0, cols), y);
    DotIsSum3(MinorRow(d, cols), y);
    DotIsSum3(MinorRow(3 * d, cols), y);
    OnesRow(cols, y);
    EntryCube(d, cols[0]);
    EntryCube(d, cols[1]);
    EntryCube(d, cols[2]);
    CubicRows(x0, x1, x2, y);
  }

  lemma OnesRow(cols: seq<nat>, y: Vec)
    requires |cols| == |y| == 3
    ensures Sum3(MinorRow(0, cols)[0], MinorRow(0, cols)[1], MinorRow(0, cols)[2], y) == Add(Add(y[0], y[1]), y[2])
  {
    hide TableMul, Entry;
    EntryZero(cols[0]);
    EntryZero(cols[1]);
    EntryZero(cols[2]);
    MulBasics(y[0], 1);
    MulBasics(y[1], 1);
    MulBasics(y[2], 1);
  }

  // ---------- no short sum of powers is zero ----------

  predicate IsSmall(v: bv8) {
    v == 2 || v == 4 || v == 8 || v == 16 || v == 32 || v == 64 || v == 128 || v == 29 || v == 58 || v == 116
    || v == 232 || v == 205 || v == 135 || v == 19 || v == 38 || v == 76 || v == 152 || v == 45 || v == 90 || v == 180
  }

  /** The powers 1 to 20. */
  lemma {:induction false} SmallPower(i: nat)
    requires 1 <= i <= 20
    ensures IsSmall(Pow(i))
  {
    PowStep(0, 1);
    PowStep(1, 2); PowStep(2, 4); PowStep(3, 8); PowStep(4, 16); PowStep(5, 32);
    PowStep(6, 64); PowStep(7, 128); PowStep(8, 29); PowStep(9, 58); PowStep(10, 116);
  }

  lemma SmallFlipped(v: bv8)
    requires IsSmall(v)
    ensures !IsSmall(Add(v, 1))
  {}

  /** 1 + a^i + a^j is not zero for 0 < i < j <= 20. */
  lemma NoShortSum(i: nat, j: nat)
    requires 0 < i < j <= 20
    ensures Add(Add(Pow(i), Pow(j)), 1) != 0
  {
    hide IsSmall, Pow;
    SmallPower(i);
    SmallPower(j);
    SmallFlipped(Pow(i));
    OneApart(Pow(i), Pow(j));
  }

  lemma OneApart(v: bv8, w: bv8)
    ensures Add(Add(v, w), 1) == 0 <==> w == Add(v, 1)
  {}

  /** The same for three powers, scaled by the lowest. */
  lemma NoShortSumFrom(d: nat, i: nat, j: nat)
    requires 0 < i < j <= 20
    ensures Add(Add(Pow(d + i), Pow(d + j)), Pow(d)) != 0
  {
    hide TableMul, Add, Pow;
    NoShortSum(i, j);
    MulPow(d, i);
    MulPow(d, j);
    MulAdd(Pow(d), Pow(i), Pow(j));
    MulAdd(Pow(d), Add(Pow(i), Pow(j)), 1);
    MulBasics(Pow(d), 1);
    PowNonzero(d);
    MulBasics(Pow(d), Add(Add(Pow(i), Pow(j)), 1));
  }

  lemma EntryPow(s: nat, c: nat)
    ensures Entry(s, c) == Pow(s * c)
  {
    PowMod(s * c);
  }

  /** The node sums of three columns among the first 21 are nonzero, and so are the sums of
      their inverse nodes. */
  lemma NodeSums(cols: seq<nat>)
    requires |cols| == 3 && Increasing(cols) && Below(cols, 21)
    ensures Add(Add(Entry(1, cols[1]), Entry(1, cols[2])), Entry(1, cols[0])) != 0
    ensures Add(Add(Entry(254, cols[1]), Entry(254, cols[2])), Entry(254, cols[0])) != 0
  {
    hide Add, Pow, Entry;
    var c0, c1, c2 := cols[0], cols[1], cols[2];
    EntryPow(1, c0);
    EntryPow(1, c1);
    EntryPow(1, c2);
    NoShortSumFrom(c0, c1 - c0, c2 - c0);
    InversePower(c0, c2);
    InversePower(c1, c2);
    InversePower(c2, c2);
    var t := 254 * c2;
    NoShortSumFrom(t, c2 - c1, c2 - c0);
    AddRotate(Pow(t + (c2 - c1)), Pow(t + (c2 - c0)), Pow(t));
  }

  lemma AddRotate(a: bv8, b: bv8, c: bv8)
    ensures Add(Add(a, b), c) == Add(Add(a, c), b)
  {}

  /** a^(-c) is a^(-c2) times a^(c2-c). */
  lemma InversePower(c: nat, c2: nat)
    requires c <= c2
    ensures Entry(254, c) == Pow(254 * c2 + (c2 - c))
  {
    EntryPow(254, c);
    assert 254 * c2 + (c2 - c) == 254 * c + 255 * (c2 - c);
    ShiftOut(254 * c, c2 - c);
    PowEqual(254 * c, 254 * c2 + (c2 - c));
  }

  // ---------- at most four rows ----------

  /** The rows 0, 1, 3 over three of the first 21 columns. */
  lemma RowsZeroOneThree(cols: seq<nat>)
    requires |cols| == 3 && Increasing(cols) && Below(cols, 21)
    ensures !Degenerate([0, 1, 3], cols)
  {
    hide Degenerate, Add, Entry, Kills;
    DegenerateIs([0, 1, 3], cols);
    SmallStep(1, cols, 21);
    NodeSums(cols);
    forall y | Kills([0, 1, 3], cols, y)
      ensures y == Zeros(3)
    {
      CubicKernel(cols, 1, y);
    }
  }

  lemma InverseApart(cols: seq<nat>)
    requires Increasing(cols) && Below(cols, 255)
    ensures NodesApart(cols, 254)
  {
    forall i, j | 0 <= i < j < |cols|
      ensures (254 * (cols[j] - cols[i])) % 255 != 0
    {
      var g := cols[j] - cols[i];
      assert 254 * g == 255 * (g - 1) + (255 - g);
    }
  }

  /** Weighting a vector by the third powers turns the rows 0, 2, 3 into the rows 0, 1, 3 of
      the inverse nodes. */
  lemma ReversedKernel(cols: seq<nat>, y: Vec)
    requires |cols| == 3 && Kills([0, 2, 3], cols, y)
    ensures Kills([0, 254, 3 * 254], cols, Weighted(y, cols, 3))
  {
    hide Dot, Entry;
    var z := Weighted(y, cols, 3);
    assert 0 in [0, 2, 3] && 2 in [0, 2, 3] && 3 in [0, 2, 3];
    DotWeighted(0, 3, cols, y, 3);
    DotWeighted(254, 3, cols, y, 3);
    DotWeighted(3 * 254, 3, cols, y, 3);
    WrapRow(254 + 3, 2, 1, cols);
    WrapRow(3 * 254 + 3, 0, 3, cols);
  }

  lemma WrapRow(s: nat, s': nat, n: nat, cols: seq<nat>)
    requires s == s' + 255 * n
    ensures MinorRow(s, cols) == MinorRow(s', cols)
  {
    hide Entry;
    forall j | 0 <= j < |cols|
      ensures Entry(s, cols[j]) == Entry(s', cols[j])
    {
      WrapEntry(s, s', n, cols[j]);
    }
  }

  lemma WrapEntry(s: nat, s': nat, n: nat, c: nat)
    requires s == s' + 255 * n
    ensures Entry(s, c) == Entry(s', c)
  {
    hide Entry, Pow;
    EntryPow(s, c);
    EntryPow(s', c);
    assert s * c == s' * c + 255 * (n * c);
    ShiftOut(s' * c, n * c);
    PowEqual(s * c, s' * c);
  }

  lemma WeightedZero(y: Vec, cols: seq<nat>, t: nat)
    requires |y| == |cols| && Weighted(y, cols, t) == Zeros(|y|)
    ensures y == Zeros(|y|)
  {
    hide TableMul;
    forall j | 0 <= j < |y|
      ensures y[j] == 0
    {
      assert Weighted(y, cols, t)[j] == 0;
      EntryNonzero(t, cols[j]);
      MulBasics(Entry(t, cols[j]), y[j]);
    }
  }

  lemma RowsZeroTwoThree(cols: seq<nat>)
    requires |cols| == 3 && Increasing(cols) && Below(cols, 21)
    ensures !Degenerate([0, 2, 3], cols)
  {
    hide Degenerate, Add, Entry, Kills;
    DegenerateIs([0, 2, 3], cols);
    InverseApart(cols);
    NodeSums(cols);
    forall y | Kills([0, 2, 3], cols, y)
      ensures y == Zeros(3)
    {
      KillsLength([0, 2, 3], cols, y);
      ReversedKernel(cols, y);
      CubicKernel(cols, 254, Weighted(y, cols, 3));
      WeightedZero(y, cols, 3);
    }
  }

  lemma KillsLength(rows: seq<nat>, cols: seq<nat>, y: Vec)
    requires Kills(rows, cols, y)
    ensures |y| == |cols|
  {}

  lemma ShiftedMinor(rows: seq<nat>, rows': seq<nat>, t: nat, cols: seq<nat>)
    requires |rows| == |rows'| == |cols| && rows' == Shifted(rows, t) && !Degenerate(rows, cols)
    ensures !Degenerate(rows', cols)
  {
    hide Degenerate;
    if Degenerate(rows', cols) {
      ShiftDown(rows, cols, t);
    }
  }

  lemma NoRows(rows: seq<nat>, cols: seq<nat>)
    requires rows == [] && cols == []
    ensures !Degenerate(rows, cols)
  {
    hide Kills;
    DegenerateIs(rows, cols);
    forall y | Kills(rows, cols, y)
      ensures y == Zeros(0)
    {
      KillsLength(rows, cols, y);
    }
  }
}
