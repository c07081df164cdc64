/** rs_invert_matrix as a function of the matrix and the stored table entry w, and the
    proof that with w == 1 it is a sound and complete inverter. */
module GaussJordan {
  import opened Options
  import opened Bytes
  import opened GaloisField
  import opened LinearAlgebra

  /** The first row at or below `from` with a nonzero entry in column col, or |m|. */
  ghost function FindPivot(m: Matrix, k: nat, col: nat, from: nat): (j: nat)
    requires IsMatrix(m, k) && col < k && from <= k
    ensures from <= j <= k
    ensures forall t :: from <= t < j ==> m[t][col] == 0
    ensures j < k ==> m[j][col] != 0
    decreases k - from
  {
    if from == k || m[from][col] != 0 then from else FindPivot(m, k, col, from + 1)
  }

  function Column(m: Matrix, k: nat, c: nat): Vec
    requires IsMatrix(m, k) && c < k
  {
    seq(k, r requires 0 <= r < k => m[r][c])
  }

  function Swapped(s: System, k: nat, i: nat, j: nat): System
    requires IsSystem(s, k) && i < k && j < k
  {
    System(SwapRows(s.a, i, j), SwapRows(s.b, i, j))
  }

  ghost function Scaled(w: bv8, s: System, k: nat, i: nat): System
    requires IsSystem(s, k) && i < k
  {
    var c := TableInv(w, s.a[i][i]);
    System(ScaleMatrix(w, s.a, i, c), ScaleMatrix(w, s.b, i, c))
  }

  ghost function Eliminated(w: bv8, s: System, k: nat, i: nat): System
    requires IsSystem(s, k) && i < k
  {
    var factors := Column(s.a, k, i);
    System(EliminateWith(w, s.a, k, i, factors), EliminateWith(w, s.b, k, i, factors))
  }

  /** One pass of the outer loop, or None when column i has no pivot. */
  ghost function Step(w: bv8, s: System, k: nat, i: nat): (r: Option<System>)
    requires IsSystem(s, k) && i < k
    ensures r.Some? ==> IsSystem(r.value, k)
  {
    var j := FindPivot(s.a, k, i, i);
    if j == k then None
    else Some(Eliminated(w, Scaled(w, Swapped(s, k, i, j), k, i), k, i))
  }

  ghost function Run(w: bv8, s: System, k: nat, i: nat): (r: Option<System>)
    requires IsSystem(s, k) && i <= k
    ensures r.Some? ==> IsSystem(r.value, k)
    decreases k - i
  {
    if i == k then Some(s)
    else
      var next := Step(w, s, k, i);
      if next.None? then None else Run(w, next.value, k, i + 1)
  }

  ghost function Invert(w: bv8, m: Matrix, k: nat): (r: Option<Matrix>)
    requires IsMatrix(m, k)
    ensures r.Some? ==> IsMatrix(r.value, k)
  {
    var end := Run(w, System(m, Identity(k)), k, 0);
    if end.None? then None else Some(end.value.b)
  }

  // ---------- the invariants of the outer loop ----------

  /** The first n columns of m are unit columns. */
  predicate UnitColumns(m: Matrix, k: nat, n: nat)
    requires IsMatrix(m, k) && n <= k
  {
    forall r, c :: 0 <= r < k && 0 <= c < n ==> m[r][c] == if r == c then 1 else 0
  }

  lemma SwapSolves(s: System, k: nat, i: nat, j: nat, x: Vec, y: Vec)
    requires IsSystem(s, k) && i < k && j < k && |x| == |y| == k
    ensures Solves(Swapped(s, k, i, j), k, x, y) <==> Solves(s, k, x, y)
  {
    var s' := Swapped(s, k, i, j);
    assert s'.a[i] == s.a[j] && s'.b[i] == s.b[j] && s'.a[j] == s.a[i] && s'.b[j] == s.b[i];
    assert forall r :: 0 <= r < k && r != i && r != j ==> s'.a[r] == s.a[r] && s'.b[r] == s.b[r];
  }

  /** A pass does not change which (x, y) solve the system. */
  lemma StepSolves(s: System, k: nat, i: nat, x: Vec, y: Vec)
    requires IsSystem(s, k) && i < k && |x| == |y| == k
    requires Step(1, s, k, i).Some?
    ensures Solves(Step(1, s, k, i).value, k, x, y) <==> Solves(s, k, x, y)
  {
    var j := FindPivot(s.a, k, i, i);
    var s1 := Swapped(s, k, i, j);
    SwapSolves(s, k, i, j, x, y);
    var p := s1.a[i][i];
    MulInverse(p);
    var s2 := Scaled(1, s1, k, i);
    ScaleSolves(s1, k, i, Inv(p), x, y);
    EliminateSolves(s2, k, i, Column(s2.a, k, i), x, y);
  }

  /** A pass makes one more column a unit column. */
  lemma StepUnitColumns(s: System, k: nat, i: nat)
    requires IsSystem(s, k) && i < k && UnitColumns(s.a, k, i)
    requires Step(1, s, k, i).Some?
    ensures UnitColumns(Step(1, s, k, i).value.a, k, i + 1)
  {
    var j := FindPivot(s.a, k, i, i);
    var a1 := Swapped(s, k, i, j).a;
    var s2 := Scaled(1, Swapped(s, k, i, j), k, i);
    var a3 := Step(1, s, k, i).value.a;
    MulInverse(a1[i][i]);
    assert s2.a[i][i] == 1;
    forall r, c | 0 <= r < k && 0 <= c <= i
      ensures a3[r][c] == if r == c then 1 else 0
    {
      MulBasics(Inv(a1[i][i]), 0);
      if c < i {
        assert s2.a[i][c] == 0;
      }
      MulBasics(s2.a[r][i], s2.a[i][c]);
      AddBasics(s2.a[r][c], 0);
    }
  }

  lemma RunUnfold(w: bv8, s: System, k: nat, i: nat) returns (next: System)
    requires IsSystem(s, k) && i < k
    requires Step(w, s, k, i).Some?
    ensures IsSystem(next, k) && Step(w, s, k, i) == Some(next)
    ensures Run(w, s, k, i) == Run(w, next, k, i + 1)
  {
    next := Step(w, s, k, i).value;
  }

  lemma RunStep(w: bv8, s: System, k: nat, i: nat) returns (next: System)
    requires IsSystem(s, k) && i < k
    requires Run(w, s, k, i).Some?
    ensures IsSystem(next, k) && Step(w, s, k, i) == Some(next)
    ensures Run(w, s, k, i) == Run(w, next, k, i + 1)
  {
    next := RunUnfold(w, s, k, i);
  }

  lemma {:induction false} RunSolves(s: System, k: nat, i: nat, x: Vec, y: Vec)
    requires IsSystem(s, k) && i <= k && |x| == |y| == k
    requires Run(1, s, k, i).Some?
    ensures Solves(Run(1, s, k, i).value, k, x, y) <==> Solves(s, k, x, y)
    decreases k - i
  {
    if i < k {
      var next := RunStep(1, s, k, i);
      StepSolves(s, k, i, x, y);
      RunSolves(next, k, i + 1, x, y);
    }
  }

  lemma {:induction false} RunUnitColumns(s: System, k: nat, i: nat)
    requires IsSystem(s, k) && i <= k && UnitColumns(s.a, k, i)
    requires Run(1, s, k, i).Some?
    ensures UnitColumns(Run(1, s, k, i).value.a, k, k)
    decreases k - i
  {
    if i < k {
      var next := RunStep(1, s, k, i);
      StepUnitColumns(s, k, i);
      RunUnitColumns(next, k, i + 1);
    }
  }

  lemma SolvesInitial(m: Matrix, k: nat, x: Vec, y: Vec)
    requires IsMatrix(m, k) && |x| == |y| == k
    ensures Solves(System(m, Identity(k)), k, x, y) <==> Apply(1, m, x) == y
  {
    forall r | 0 <= r < k
      ensures Dot(1, Identity(k)[r], y, k) == y[r]
    {
      DotUnit(k, r, y);
    }
    assert Apply(1, m, x) == y <==> forall r :: 0 <= r < k ==> Apply(1, m, x)[r] == y[r];
  }

  lemma SolvesFinal(s: System, k: nat, x: Vec, y: Vec)
    requires IsSystem(s, k) && UnitColumns(s.a, k, k) && |x| == |y| == k
    ensures Solves(s, k, x, y) <==> x == Apply(1, s.b, y)
  {
    forall r | 0 <= r < k
      ensures Dot(1, s.a[r], x, k) == x[r]
    {
      assert s.a[r] == UnitRow(k, r);
      DotUnit(k, r, x);
    }
    assert x == Apply(1, s.b, y) <==> forall r :: 0 <= r < k ==> x[r] == Apply(1, s.b, y)[r];
  }

  /** Soundness, with the repaired table: a returned matrix is the two-sided inverse of the input. */
  lemma InvertSound(m: Matrix, k: nat, x: Vec, y: Vec)
    requires IsMatrix(m, k) && |x| == |y| == k
    requires Invert(1, m, k).Some?
    ensures Apply(1, m, x) == y <==> x == Apply(1, Invert(1, m, k).value, y)
  {
    var s := System(m, Identity(k));
    SolvesInitial(m, k, x, y);
    RunSolves(s, k, 0, x, y);
    RunUnitColumns(s, k, 0);
    SolvesFinal(Run(1, s, k, 0).value, k, x, y);
  }

  ghost function Product(a: Matrix, b: Matrix, k: nat): Matrix
    requires IsMatrix(a, k) && IsMatrix(b, k)
  {
    seq(k, r requires 0 <= r < k => seq(k, c requires 0 <= c < k => Dot(1, a[r], Column(b, k, c), k)))
  }

  lemma ApplyUnit(m: Matrix, k: nat, c: nat)
    requires IsMatrix(m, k) && c < k
    ensures Apply(1, m, UnitRow(k, c)) == Column(m, k, c)
  {
    forall r | 0 <= r < k
      ensures Dot(1, m[r], UnitRow(k, c), k) == m[r][c]
    {
      DotSingle(m[r], UnitRow(k, c), k, c);
      MulBasics(m[r][c], 1);
    }
  }

  /** The same as a statement about matrices: R*M and M*R are both the identity. */
  lemma InvertIsInverse(m: Matrix, k: nat)
    requires IsMatrix(m, k) && Invert(1, m, k).Some?
    ensures Product(Invert(1, m, k).value, m, k) == Identity(k)
    ensures Product(m, Invert(1, m, k).value, k) == Identity(k)
  {
    var inverse := Invert(1, m, k).value;
    forall r, c | 0 <= r < k && 0 <= c < k
      ensures Product(inverse, m, k)[r][c] == Identity(k)[r][c]
      ensures Product(m, inverse, k)[r][c] == Identity(k)[r][c]
    {
      var e := UnitRow(k, c);
      ApplyUnit(m, k, c);
      InvertSound(m, k, e, Column(m, k, c));
      assert e[r] == Apply(1, inverse, Column(m, k, c))[r];
      ApplyUnit(inverse, k, c);
      InvertSound(m, k, Column(inverse, k, c), e);
      assert e[r] == Apply(1, m, Column(inverse, k, c))[r];
    }
    forall r | 0 <= r < k
      ensures Product(inverse, m, k)[r] == Identity(k)[r] && Product(m, inverse, k)[r] == Identity(k)[r]
    {}
  }

  // ---------- completeness ----------

  ghost predicate InKernel(m: Matrix, k: nat, x: Vec)
    requires IsMatrix(m, k)
  {
    |x| == k && Apply(1, m, x) == Zeros(k)
  }

  ghost predicate Singular(m: Matrix, k: nat)
    requires IsMatrix(m, k)
  {
    exists x :: InKernel(m, k, x) && x != Zeros(k)
  }

  /** Where the pivot search of column i fails, this vector solves a x = 0. */
  function StuckVector(a: Matrix, k: nat, i: nat): Vec
    requires IsMatrix(a, k) && i < k
  {
    seq(k, c requires 0 <= c < k => if c < i then a[c][i] else if c == i then 1 else 0)
  }

  lemma {:induction false} StuckPrefix(a: Matrix, k: nat, i: nat, r: nat, n: nat)
    requires IsMatrix(a, k) && i < k && UnitColumns(a, k, i) && r < k && n <= k
    ensures n <= i ==> Dot(1, a[r], StuckVector(a, k, i), n) == if r < n then a[r][i] else 0
    ensures n > i && r < i ==> Dot(1, a[r], StuckVector(a, k, i), n) == 0
    ensures n > i && r >= i ==> Dot(1, a[r], StuckVector(a, k, i), n) == a[r][i]
  {
    if n > 0 {
      StuckPrefix(a, k, i, r, n - 1);
      var x := StuckVector(a, k, i);
      MulBasics(a[r][n - 1], x[n - 1]);
      MulBasics(x[n - 1], a[r][n - 1]);
      AddBasics(a[r][i], 0);
    }
  }

  lemma {:induction false} DotZeros(u: Vec, n: nat)
    requires n <= |u|
    ensures Dot(1, u, Zeros(|u|), n) == 0
  {
    DotSingle(u, Zeros(|u|), n, n);
  }

  lemma StuckSolves(s: System, k: nat, i: nat)
    requires IsSystem(s, k) && i < k && UnitColumns(s.a, k, i)
    requires forall r :: i <= r < k ==> s.a[r][i] == 0
    ensures StuckVector(s.a, k, i) != Zeros(k)
    ensures Solves(s, k, StuckVector(s.a, k, i), Zeros(k))
  {
    var x := StuckVector(s.a, k, i);
    assert x[i] != Zeros(k)[i];
    forall r | 0 <= r < k
      ensures Dot(1, s.a[r], x, k) == Dot(1, s.b[r], Zeros(k), k)
    {
      StuckPrefix(s.a, k, i, r, k);
      DotZeros(s.b[r], k);
    }
  }

  lemma {:induction false} RunStuck(s: System, k: nat, i: nat) returns (x: Vec)
    requires IsSystem(s, k) && i <= k && UnitColumns(s.a, k, i)
    requires Run(1, s, k, i).None?
    ensures |x| == k && x != Zeros(k) && Solves(s, k, x, Zeros(k))
    decreases k - i
  {
    if Step(1, s, k, i).None? {
      x := StuckVector(s.a, k, i);
      StuckSolves(s, k, i);
    } else {
      StepUnitColumns(s, k, i);
      x := RunStuck(Step(1, s, k, i).value, k, i + 1);
      StepSolves(s, k, i, x, Zeros(k));
    }
  }

  lemma ApplyZeros(m: Matrix, k: nat)
    requires IsMatrix(m, k)
    ensures Apply(1, m, Zeros(k)) == Zeros(k)
  {
    forall r | 0 <= r < k
      ensures Dot(1, m[r], Zeros(k), k) == 0
    {
      DotZeros(m[r], k);
    }
  }

  /** Completeness, with the repaired table: the inverter fails exactly on the singular
      matrices. */
  lemma InvertComplete(m: Matrix, k: nat)
    requires IsMatrix(m, k)
    ensures Invert(1, m, k).None? <==> Singular(m, k)
  {
    if Invert(1, m, k).None? {
      var x := RunStuck(System(m, Identity(k)), k, 0);
      SolvesInitial(m, k, x, Zeros(k));
      assert InKernel(m, k, x);
    } else if Singular(m, k) {
      var x :| InKernel(m, k, x) && x != Zeros(k);
      InvertSound(m, k, x, Zeros(k));
      ApplyZeros(m, k);
      InvertSound(m, k, Zeros(k), Zeros(k));
    }
  }

  /** With the repaired table, two equal rows always make the inverter fail. */
  lemma EqualRowsFail(m: Matrix, k: nat, i: nat, j: nat)
    requires IsMatrix(m, k) && i < j < k && m[i] == m[j]
    ensures Invert(1, m, k).None?
  {
    if Invert(1, m, k).Some? {
      var x := Apply(1, Invert(1, m, k).value, UnitRow(k, i));
      assert Apply(1, m, x)[i] == Apply(1, m, x)[j];
      assert UnitRow(k, i)[i] != UnitRow(k, i)[j];
      InvertSound(m, k, x, UnitRow(k, i));
    }
  }
}
