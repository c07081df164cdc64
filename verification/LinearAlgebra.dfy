/** Vectors and square matrices over GF(2^8), and row operations on linear systems. */
module LinearAlgebra {
  import opened Bytes
  import opened GaloisField

  /** A row or a column of field elements. */
  type Vec = Bytes
  type Matrix = seq<Vec>

  predicate IsMatrix(m: Matrix, k: nat) {
    |m| == k && forall r :: 0 <= r < k ==> |m[r]| == k
  }

  function UnitRow(k: nat, c: nat): Vec {
    seq(k, t => if t == c then 1 else 0)
  }

  function Identity(k: nat): Matrix {
    seq(k, r requires 0 <= r => UnitRow(k, r))
  }

  predicate ZeroFrom(row: Vec, n: nat) {
    forall c :: n <= c < |row| ==> row[c] == 0
  }

  /** The sum of the first n products, with the table product of entry w. */
  ghost function Dot(w: bv8, u: Vec, v: Vec, n: nat): bv8
    requires n <= |u| && n <= |v|
  {
    if n == 0 then 0 else Add(Dot(w, u, v, n - 1), TableMul(w, u[n - 1], v[n - 1]))
  }

  ghost function Apply(w: bv8, m: Matrix, x: Vec): (y: Vec)
    requires forall r :: 0 <= r < |m| ==> |m[r]| >= |x|
  {
    seq(|m|, r requires 0 <= r < |m| => Dot(w, m[r], x, |x|))
  }

  ghost function ScaleRow(w: bv8, u: Vec, c: bv8): Vec {
    seq(|u|, t requires 0 <= t < |u| => TableMul(w, u[t], c))
  }

  ghost function AddScaled(w: bv8, u: Vec, v: Vec, c: bv8): Vec
    requires |u| == |v|
  {
    seq(|u|, t requires 0 <= t < |u| => Add(u[t], TableMul(w, v[t], c)))
  }

  // ---------- Dot is linear once the table is repaired ----------

  lemma {:induction false} DotScaleRow(u: Vec, c: bv8, x: Vec, n: nat)
    requires n <= |u| && n <= |x|
    ensures Dot(1, ScaleRow(1, u, c), x, n) == Mul(c, Dot(1, u, x, n))
  {
    if n == 0 {
      MulBasics(c, 0);
    } else {
      DotScaleRow(u, c, x, n - 1);
      MulBasics(u[n - 1], c);
      MulAssoc(c, u[n - 1], x[n - 1]);
      MulAdd(c, Dot(1, u, x, n - 1), Mul(u[n - 1], x[n - 1]));
    }
  }

  lemma {:induction false} DotAddScaled(u: Vec, v: Vec, c: bv8, x: Vec, n: nat)
    requires |u| == |v| && n <= |u| && n <= |x|
    ensures Dot(1, AddScaled(1, u, v, c), x, n) == Add(Dot(1, u, x, n), Mul(c, Dot(1, v, x, n)))
  {
    if n == 0 {
      MulBasics(c, 0);
    } else {
      DotAddScaled(u, v, c, x, n - 1);
      var m, p, q := n - 1, u[n - 1], v[n - 1];
      MulBasics(q, c);
      MulAdd(x[m], p, Mul(q, c));
      MulAssoc(c, q, x[m]);
      MulAdd(c, Dot(1, v, x, m), Mul(q, x[m]));
      AddSwap(Dot(1, u, x, m), Mul(c, Dot(1, v, x, m)), Mul(p, x[m]), Mul(c, Mul(q, x[m])));
    }
  }

  lemma {:induction false} DotComm(w: bv8, u: Vec, v: Vec, n: nat)
    requires n <= |u| && n <= |v|
    ensures Dot(w, u, v, n) == Dot(w, v, u, n)
  {
    if n > 0 {
      DotComm(w, u, v, n - 1);
      TableMulComm(w, u[n - 1], v[n - 1]);
    }
  }

  /** A vector whose first n entries vanish except entry c picks out one product. */
  lemma {:induction false} DotSingle(u: Vec, x: Vec, n: nat, c: nat)
    requires n <= |u| && n <= |x|
    requires forall t :: 0 <= t < n && t != c ==> x[t] == 0
    ensures Dot(1, u, x, n) == if c < n then Mul(u[c], x[c]) else 0
  {
    if n > 0 {
      DotSingle(u, x, n - 1, c);
      MulBasics(u[n - 1], x[n - 1]);
    }
  }

  lemma DotUnit(k: nat, c: nat, x: Vec)
    requires c < k == |x|
    ensures Dot(1, UnitRow(k, c), x, k) == x[c]
  {
    DotComm(1, UnitRow(k, c), x, k);
    DotSingle(x, UnitRow(k, c), k, c);
    MulBasics(x[c], 1);
  }

  // ---------- linear systems A x = B y ----------

  datatype System = System(a: Matrix, b: Matrix)

  predicate IsSystem(s: System, k: nat) {
    IsMatrix(s.a, k) && IsMatrix(s.b, k)
  }

  ghost predicate Solves(s: System, k: nat, x: Vec, y: Vec)
    requires IsSystem(s, k) && |x| == |y| == k
  {
    forall r :: 0 <= r < k ==> Dot(1, s.a[r], x, k) == Dot(1, s.b[r], y, k)
  }

  function SwapRows(m: Matrix, i: nat, j: nat): Matrix
    requires i < |m| && j < |m|
  {
    m[i := m[j]][j := m[i]]
  }

  ghost function ScaleMatrix(w: bv8, m: Matrix, i: nat, c: bv8): Matrix
    requires i < |m|
  {
    m[i := ScaleRow(w, m[i], c)]
  }

  /** Row r becomes row r plus factors[r] times row i, for every r other than i. */
  ghost function EliminateWith(w: bv8, m: Matrix, k: nat, i: nat, factors: Vec): Matrix
    requires IsMatrix(m, k) && i < k == |factors|
  {
    seq(k, r requires 0 <= r < k => if r == i then m[i] else AddScaled(w, m[r], m[i], factors[r]))
  }

  lemma ScaleSolves(s: System, k: nat, i: nat, c: bv8, x: Vec, y: Vec)
    requires IsSystem(s, k) && i < k && c != 0 && |x| == |y| == k
    ensures Solves(System(ScaleMatrix(1, s.a, i, c), ScaleMatrix(1, s.b, i, c)), k, x, y) <==> Solves(s, k, x, y)
  {
    var s' := System(ScaleMatrix(1, s.a, i, c), ScaleMatrix(1, s.b, i, c));
    DotScaleRow(s.a[i], c, x, k);
    DotScaleRow(s.b[i], c, y, k);
    MulInjective(c, Dot(1, s.a[i], x, k), Dot(1, s.b[i], y, k));
    assert Dot(1, s'.a[i], x, k) == Dot(1, s'.b[i], y, k) <==> Dot(1, s.a[i], x, k) == Dot(1, s.b[i], y, k);
    assert forall r :: 0 <= r < k && r != i ==> s'.a[r] == s.a[r] && s'.b[r] == s.b[r];
  }

  lemma MulInjective(c: bv8, p: bv8, q: bv8)
    requires c != 0
    ensures Mul(c, p) == Mul(c, q) <==> p == q
  {
    MulInverse(c);
    MulAssoc(Inv(c), c, p);
    MulAssoc(Inv(c), c, q);
    MulBasics(p, q);
    MulBasics(q, p);
  }

  lemma EliminateSolves(s: System, k: nat, i: nat, factors: Vec, x: Vec, y: Vec)
    requires IsSystem(s, k) && i < k == |factors| && |x| == |y| == k
    ensures Solves(System(EliminateWith(1, s.a, k, i, factors), EliminateWith(1, s.b, k, i, factors)), k, x, y)
        <==> Solves(s, k, x, y)
  {
    var s' := System(EliminateWith(1, s.a, k, i, factors), EliminateWith(1, s.b, k, i, factors));
    if Dot(1, s.a[i], x, k) == Dot(1, s.b[i], y, k) {
      forall r | 0 <= r < k
        ensures Dot(1, s'.a[r], x, k) == Dot(1, s'.b[r], y, k) <==> Dot(1, s.a[r], x, k) == Dot(1, s.b[r], y, k)
      {
        if r != i {
          DotAddScaled(s.a[r], s.a[i], factors[r], x, k);
          DotAddScaled(s.b[r], s.b[i], factors[r], y, k);
          AddCancel(Dot(1, s.a[r], x, k), Mul(factors[r], Dot(1, s.a[i], x, k)));
          AddCancel(Dot(1, s.b[r], y, k), Mul(factors[r], Dot(1, s.a[i], x, k)));
        }
      }
    } else {
      assert s'.a[i] == s.a[i] && s'.b[i] == s.b[i];
    }
  }
}
