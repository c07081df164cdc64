/** The square submatrices of the table of powers: singular for the same rows and columns
    whichever way round, and unchanged by shifting the exponents of the rows. */
module Minors {
  import opened Options
  import opened Bytes
  import opened GaloisField
  import opened LinearAlgebra
  import opened GaussJordan
  import opened Recovery

  // ---------- a matrix is singular iff its transpose is ----------

  /** The sum of z[i] times row i, over the first n rows. */
  ghost function Combo(z: Vec, rows: seq<Vec>, k: nat, n: nat): (v: Vec)
    requires n <= |z| && n <= |rows| && forall i :: 0 <= i < n ==> |rows[i]| == k
    ensures |v| == k
  {
    if n == 0 then Zeros(k) else AddScaled(1, Combo(z, rows, k, n - 1), rows[n - 1], z[n - 1])
  }

  ghost function RowDots(rows: seq<Vec>, x: Vec): Vec
    requires forall i :: 0 <= i < |rows| ==> |rows[i]| == |x|
  {
    seq(|rows|, i requires 0 <= i < |rows| => Dot(1, rows[i], x, |x|))
  }

  lemma {:induction false} ComboDot(z: Vec, rows: seq<Vec>, x: Vec, n: nat)
    requires n <= |z| && n <= |rows| && forall i :: 0 <= i < |rows| ==> |rows[i]| == |x|
    ensures Dot(1, Combo(z, rows, |x|, n), x, |x|) == Dot(1, z, RowDots(rows, x), n)
  {
    var k := |x|;
    if n == 0 {
      DotComm(1, Zeros(k), x, k);
      DotZeros(x, k);
    } else {
      ComboDot(z, rows, x, n - 1);
      DotAddScaled(Combo(z, rows, k, n - 1), rows[n - 1], z[n - 1], x, k);
    }
  }

  lemma {:induction false} ComboEntry(z: Vec, rows: seq<Vec>, k: nat, n: nat, c: nat, col: Vec)
    requires n <= |z| && n <= |rows| <= |col| && c < k && forall i :: 0 <= i < |rows| ==> |rows[i]| == k
    requires forall i :: 0 <= i < |rows| ==> col[i] == rows[i][c]
    ensures Combo(z, rows, k, n)[c] == Dot(1, z, col, n)
  {
    if n > 0 {
      ComboEntry(z, rows, k, n - 1, c, col);
      MulBasics(z[n - 1], col[n - 1]);
    }
  }

  function Transpose(m: Matrix, k: nat): Matrix
    requires IsMatrix(m, k)
  {
    seq(k, c requires 0 <= c < k => Column(m, k, c))
  }

  /** A row vector that the matrix annihilates is annihilated by everything it solves for. */
  lemma LeftKernel(m: Matrix, k: nat, z: Vec, x: Vec)
    requires IsMatrix(m, k) && InKernel(Transpose(m, k), k, z) && |x| == k
    ensures Dot(1, z, Apply(1, m, x), k) == 0
  {
    ComboDot(z, m, x, k);
    assert RowDots(m, x) == Apply(1, m, x);
    forall c | 0 <= c < k
      ensures Combo(z, m, k, k)[c] == 0
    {
      ComboEntry(z, m, k, k, c, Column(m, k, c));
      DotComm(1, z, Column(m, k, c), k);
      assert Apply(1, Transpose(m, k), z)[c] == Zeros(k)[c];
    }
    assert Combo(z, m, k, k) == Zeros(k);
    DotComm(1, Zeros(k), x, k);
    DotZeros(x, k);
  }

  /** The transpose of a nonsingular matrix is nonsingular. */
  lemma TransposeNonsingular(m: Matrix, k: nat)
    requires IsMatrix(m, k) && !Singular(m, k)
    ensures !Singular(Transpose(m, k), k)
  {
    InvertComplete(m, k);
    forall z | InKernel(Transpose(m, k), k, z)
      ensures z == Zeros(k)
    {
      forall c | 0 <= c < k
        ensures z[c] == 0
      {
        var e := UnitRow(k, c);
        var x := Apply(1, Invert(1, m, k).value, e);
        InvertSound(m, k, x, e);
        LeftKernel(m, k, z, x);
        DotComm(1, z, e, k);
        DotUnit(k, c, z);
      }
    }
  }

  // ---------- minors of the table of powers ----------

  function MinorRow(s: nat, cols: seq<nat>): (v: Vec)
    ensures |v| == |cols|
  {
    seq(|cols|, j requires 0 <= j < |cols| => Entry(s, cols[j]))
  }

  function Minor(rows: seq<nat>, cols: seq<nat>): (m: Matrix)
    ensures |rows| == |cols| ==> IsMatrix(m, |rows|)
  {
    seq(|rows|, i requires 0 <= i < |rows| => MinorRow(rows[i], cols))
  }

  /** The minor of these rows and columns is singular. */
  ghost predicate Degenerate(rows: seq<nat>, cols: seq<nat>)
    requires |rows| == |cols|
  {
    Singular(Minor(rows, cols), |rows|)
  }

  ghost predicate Kills(rows: seq<nat>, cols: seq<nat>, y: Vec) {
    |y| == |cols| && forall s :: s in rows ==> Dot(1, MinorRow(s, cols), y, |cols|) == 0
  }

  lemma DegenerateIs(rows: seq<nat>, cols: seq<nat>)
    requires |rows| == |cols|
    ensures Degenerate(rows, cols) <==> exists y :: Kills(rows, cols, y) && y != Zeros(|cols|)
  {
    hide Dot, MinorRow;
    forall y: Vec | |y| == |cols|
      ensures InKernel(Minor(rows, cols), |rows|, y) <==> Kills(rows, cols, y)
    {
      KernelIs(rows, cols, y);
    }
    if y :| Kills(rows, cols, y) && y != Zeros(|cols|) {
      assert InKernel(Minor(rows, cols), |rows|, y);
    }
  }

  lemma KernelIs(rows: seq<nat>, cols: seq<nat>, y: Vec)
    requires |rows| == |cols| == |y|
    ensures InKernel(Minor(rows, cols), |rows|, y) <==> Kills(rows, cols, y)
  {
    var m, e := Minor(rows, cols), |rows|;
    if InKernel(m, e, y) {
      forall s | s in rows
        ensures Dot(1, MinorRow(s, cols), y, e) == 0
      {
        var i :| 0 <= i < e && rows[i] == s;
        assert Apply(1, m, y)[i] == Zeros(e)[i];
      }
    }
    if Kills(rows, cols, y) {
      forall i | 0 <= i < e
        ensures Apply(1, m, y)[i] == 0
      {
        assert rows[i] in rows;
      }
      assert Apply(1, m, y) == Zeros(e);
    }
  }

  lemma EntrySymmetric(s: nat, c: nat)
    ensures Entry(s, c) == Entry(c, s)
  {
    assert s * c == c * s;
  }

  /** Rows and columns can be exchanged. */
  lemma MinorTransposed(rows: seq<nat>, cols: seq<nat>)
    requires |rows| == |cols| && Degenerate(rows, cols)
    ensures Degenerate(cols, rows)
  {
    var e := |rows|;
    var m := Minor(cols, rows);
    forall i, j | 0 <= i < e && 0 <= j < e
      ensures Transpose(m, e)[i][j] == Minor(rows, cols)[i][j]
    {
      EntrySymmetric(rows[i], cols[j]);
    }
    assert forall i :: 0 <= i < e ==> Transpose(m, e)[i] == Minor(rows, cols)[i];
    assert Transpose(m, e) == Minor(rows, cols);
    if !Singular(m, e) {
      TransposeNonsingular(m, e);
    }
  }

  // ---------- shifting the exponents ----------

  function Shifted(rows: seq<nat>, t: nat): seq<nat> {
    seq(|rows|, i requires 0 <= i < |rows| => rows[i] + t)
  }

  ghost function Weighted(y: Vec, cols: seq<nat>, t: nat): Vec
    requires |y| == |cols|
  {
    seq(|y|, j requires 0 <= j < |y| => Mul(Entry(t, cols[j]), y[j]))
  }

  lemma {:induction false} DotWeighted(s: nat, t: nat, cols: seq<nat>, y: Vec, n: nat)
    requires n <= |y| == |cols|
    ensures Dot(1, MinorRow(s + t, cols), y, n) == Dot(1, MinorRow(s, cols), Weighted(y, cols, t), n)
  {
    hide TableMul, Add;
    if n > 0 {
      DotWeighted(s, t, cols, y, n - 1);
      EntryAdd(s, t, cols[n - 1]);
      MulAssoc(Entry(s, cols[n - 1]), Entry(t, cols[n - 1]), y[n - 1]);
    }
  }

  lemma ShiftDown(rows: seq<nat>, cols: seq<nat>, t: nat)
    requires |rows| == |cols| && Degenerate(Shifted(rows, t), cols)
    ensures Degenerate(rows, cols)
  {
    hide Dot, MinorRow, Degenerate, Entry;
    DegenerateIs(Shifted(rows, t), cols);
    DegenerateIs(rows, cols);
    var y :| Kills(Shifted(rows, t), cols, y) && y != Zeros(|cols|);
    var y' := Weighted(y, cols, t);
    forall s | s in rows
      ensures Dot(1, MinorRow(s, cols), y', |cols|) == 0
    {
      var i :| 0 <= i < |rows| && rows[i] == s;
      assert Shifted(rows, t)[i] == s + t;
      DotWeighted(s, t, cols, y, |cols|);
    }
    var j :| 0 <= j < |y| && y[j] != 0;
    EntryNonzero(t, cols[j]);
    MulBasics(Entry(t, cols[j]), y[j]);
    assert y'[j] != Zeros(|cols|)[j];
    assert Kills(rows, cols, y');
  }

  lemma EntryPeriod(s: nat, c: nat)
    ensures Entry(s + 255, c) == Entry(s, c)
  {
    PowMod((s + 255) * c);
    PowMod(s * c);
    assert (s + 255) * c == s * c + 255 * c;
    ShiftOut(s * c, c);
    PowEqual((s + 255) * c, s * c);
  }

  lemma ShiftOut(x: nat, c: nat)
    ensures (x + 255 * c) % 255 == x % 255
  {}

  lemma ShiftUp(rows: seq<nat>, cols: seq<nat>, t: nat)
    requires |rows| == |cols| && t <= 255 && Degenerate(rows, cols)
    ensures Degenerate(Shifted(rows, t), cols)
  {
    hide Degenerate, Entry;
    var round := Shifted(Shifted(rows, t), 255 - t);
    forall i, j | 0 <= i < |rows| && 0 <= j < |cols|
      ensures Minor(round, cols)[i][j] == Minor(rows, cols)[i][j]
    {
      EntryPeriod(rows[i], cols[j]);
    }
    SameMinor(round, rows, cols);
    ShiftDown(Shifted(rows, t), cols, 255 - t);
  }

  lemma SameMinor(rows: seq<nat>, rows': seq<nat>, cols: seq<nat>)
    requires |rows| == |rows'| == |cols|
    requires forall i, j :: 0 <= i < |rows| && 0 <= j < |cols| ==> Minor(rows, cols)[i][j] == Minor(rows', cols)[i][j]
    ensures Degenerate(rows, cols) <==> Degenerate(rows', cols)
  {
    hide Singular;
    forall i | 0 <= i < |rows|
      ensures Minor(rows, cols)[i] == Minor(rows', cols)[i]
    {
      assert forall j :: 0 <= j < |cols| ==> Minor(rows, cols)[i][j] == Minor(rows', cols)[i][j];
    }
    assert Minor(rows, cols) == Minor(rows', cols);
  }

  // ---------- vectors spread over the columns of a wider matrix ----------

  predicate Distinct(q: seq<nat>) {
    forall i, j :: 0 <= i < j < |q| ==> q[i] != q[j]
  }

  predicate Below(q: seq<nat>, n: nat) {
    forall i :: 0 <= i < |q| ==> q[i] < n
  }

  function UnitRows(k: nat, cols: seq<nat>): seq<Vec> {
    seq(|cols|, j requires 0 <= j < |cols| => UnitRow(k, cols[j]))
  }

  /** The vector with y[j] in column cols[j]. */
  ghost function Scatter(k: nat, cols: seq<nat>, y: Vec): (x: Vec)
    requires |y| == |cols|
    ensures |x| == k
  {
    Combo(y, UnitRows(k, cols), k, |y|)
  }

  lemma ScatterDot(k: nat, cols: seq<nat>, y: Vec, s: nat)
    requires |y| == |cols| && Below(cols, k)
    ensures Dot(1, RepairRow(k, s), Scatter(k, cols, y), k) == Dot(1, MinorRow(s, cols), y, |y|)
  {
    var row := RepairRow(k, s);
    ComboDot(y, UnitRows(k, cols), row, |y|);
    forall j | 0 <= j < |cols|
      ensures RowDots(UnitRows(k, cols), row)[j] == MinorRow(s, cols)[j]
    {
      DotUnit(k, cols[j], row);
    }
    assert RowDots(UnitRows(k, cols), row) == MinorRow(s, cols);
    DotComm(1, Scatter(k, cols, y), row, k);
    DotComm(1, y, MinorRow(s, cols), |y|);
  }

  lemma ScatterStep(k: nat, cols: seq<nat>, y: Vec, n: nat, c: nat)
    requires 0 < n <= |y| == |cols| && Below(cols, k) && c < k
    ensures Combo(y, UnitRows(k, cols), k, n)[c]
         == Add(Combo(y, UnitRows(k, cols), k, n - 1)[c], if cols[n - 1] == c then y[n - 1] else 0)
  {
    MulBasics(0, y[n - 1]);
    MulBasics(y[n - 1], 1);
  }

  lemma {:induction false} ScatterEntries(k: nat, cols: seq<nat>, y: Vec, n: nat, c: nat)
    requires n <= |y| == |cols| && Distinct(cols) && Below(cols, k) && c < k
    ensures forall j :: 0 <= j < n && cols[j] == c ==> Combo(y, UnitRows(k, cols), k, n)[c] == y[j]
    ensures (forall j :: 0 <= j < n ==> cols[j] != c) ==> Combo(y, UnitRows(k, cols), k, n)[c] == 0
  {
    if n > 0 {
      hide Combo, Add;
      ScatterEntries(k, cols, y, n - 1, c);
      ScatterStep(k, cols, y, n, c);
      AddBasics(Combo(y, UnitRows(k, cols), k, n - 1)[c], 0);
      AddBasics(y[n - 1], 0);
    }
  }

  function Gather(x: Vec, cols: seq<nat>): Vec
    requires Below(cols, |x|)
  {
    seq(|cols|, j requires 0 <= j < |cols| => x[cols[j]])
  }

  ghost predicate Covers(cols: seq<nat>, lost: set<nat>) {
    forall c :: c in lost <==> c in cols
  }

  /** A vector supported on the columns is its own entries, spread. */
  lemma ScatterGather(k: nat, cols: seq<nat>, x: Vec, lost: set<nat>)
    requires |x| == k && Distinct(cols) && Below(cols, k) && Covers(cols, lost) && SupportedOn(x, lost)
    ensures Scatter(k, cols, Gather(x, cols)) == x
  {
    hide Combo;
    forall c: nat | c < k
      ensures Scatter(k, cols, Gather(x, cols))[c] == x[c]
    {
      ScatterEntries(k, cols, Gather(x, cols), |cols|, c);
      if c in cols {
        var j :| 0 <= j < |cols| && cols[j] == c;
      }
    }
  }

  lemma ScatterSupported(k: nat, cols: seq<nat>, y: Vec, lost: set<nat>)
    requires |y| == |cols| && Distinct(cols) && Below(cols, k) && Covers(cols, lost)
    ensures SupportedOn(Scatter(k, cols, y), lost)
    ensures y != Zeros(|y|) ==> Scatter(k, cols, y) != Zeros(k)
  {
    hide Combo;
    forall c: nat | c < k
      ensures c !in lost ==> Scatter(k, cols, y)[c] == 0
      ensures forall j :: 0 <= j < |cols| && cols[j] == c ==> Scatter(k, cols, y)[c] == y[j]
    {
      ScatterEntries(k, cols, y, |cols|, c);
    }
    if y != Zeros(|y|) {
      var j :| 0 <= j < |y| && y[j] != 0;
      assert Scatter(k, cols, y)[cols[j]] == y[j];
    }
  }

  /** The rows s annihilate some nonzero vector supported on `lost`. */
  ghost predicate Ambivalent(k: nat, rows: seq<nat>, lost: set<nat>) {
    exists x :: |x| == k && x != Zeros(k) && SupportedOn(x, lost) && Annihilates(k, rows, x)
  }

  ghost predicate Annihilates(k: nat, rows: seq<nat>, x: Vec)
    requires |x| == k
  {
    forall s :: s in rows ==> Dot(1, RepairRow(k, s), x, k) == 0
  }

  lemma AmbivalentExact(k: nat, rows: seq<nat>, cols: seq<nat>, lost: set<nat>)
    requires |rows| == |cols| && Distinct(cols) && Below(cols, k) && Covers(cols, lost)
    ensures Ambivalent(k, rows, lost) <==> Degenerate(rows, cols)
  {
    hide Degenerate, Dot, MinorRow, Combo, Covers, SupportedOn;
    DegenerateIs(rows, cols);
    if Ambivalent(k, rows, lost) {
      var x :| |x| == k && x != Zeros(k) && SupportedOn(x, lost) && Annihilates(k, rows, x);
      var y := Gather(x, cols);
      ScatterGather(k, cols, x, lost);
      forall s | s in rows
        ensures Dot(1, MinorRow(s, cols), y, |cols|) == 0
      {
        ScatterDot(k, cols, y, s);
      }
      if y == Zeros(|cols|) {
        ZeroScatter(k, cols);
      }
      assert Kills(rows, cols, y);
    }
    if Degenerate(rows, cols) {
      var y :| Kills(rows, cols, y) && y != Zeros(|cols|);
      var x := Scatter(k, cols, y);
      ScatterSupported(k, cols, y, lost);
      forall s | s in rows
        ensures Dot(1, RepairRow(k, s), x, k) == 0
      {
        ScatterDot(k, cols, y, s);
      }
      assert Annihilates(k, rows, x);
    }
  }

  lemma {:induction false} ZeroCombo(k: nat, rows: seq<Vec>, z: Vec, n: nat)
    requires n <= |z| && n <= |rows| && forall i :: 0 <= i < n ==> |rows[i]| == k && z[i] == 0
    ensures Combo(z, rows, k, n) == Zeros(k)
  {
    if n > 0 {
      ZeroCombo(k, rows, z, n - 1);
      forall c | 0 <= c < k
        ensures Combo(z, rows, k, n)[c] == 0
      {
        MulBasics(rows[n - 1][c], 0);
        AddBasics(0, 0);
      }
    }
  }

  lemma ZeroScatter(k: nat, cols: seq<nat>)
    ensures Scatter(k, cols, Zeros(|cols|)) == Zeros(k)
  {
    ZeroCombo(k, UnitRows(k, cols), Zeros(|cols|), |cols|);
  }
}
