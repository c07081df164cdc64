/** What line 46 of reed_solomon_fec.h, which stores 0 in exp entry 255, does to the codec. */
module ShippedTable {
  import opened Options
  import opened Bytes
  import opened GaloisField
  import opened LinearAlgebra
  import opened GaussJordan
  import opened Recovery
  import opened ReedSolomon

  // ---------- encoding ----------

  /** Whether an odd number of the first n products read entry 255. */
  ghost predicate OddMisses(u: Vec, v: Vec, n: nat)
    requires n <= |u| && n <= |v|
  {
    n > 0 && (OddMisses(u, v, n - 1) != Misses(u[n - 1], v[n - 1]))
  }

  ghost predicate Misses(a: bv8, b: bv8) {
    a != 0 && b != 0 && Log(a) + Log(b) == 255
  }

  lemma ProductShipped(a: bv8, b: bv8)
    ensures TableMul(0, a, b) == Add(Mul(a, b), if Misses(a, b) then 1 else 0)
  {
    AddBasics(Mul(a, b), 0);
    AddBasics(1, 1);
  }

  /** Exact error of a repair byte: it is off by one bit iff an odd number of its products
      read entry 255. */
  lemma {:induction false} DotShipped(u: Vec, v: Vec, n: nat)
    requires n <= |u| && n <= |v|
    ensures Dot(0, u, v, n) == Add(Dot(1, u, v, n), if OddMisses(u, v, n) then 1 else 0)
  {
    if n > 0 {
      DotShipped(u, v, n - 1);
      var a, b := u[n - 1], v[n - 1];
      ProductShipped(a, b);
      var e, f: bv8 := if OddMisses(u, v, n - 1) then 1 else 0, if Misses(a, b) then 1 else 0;
      AddSwap(Dot(1, u, v, n - 1), e, Mul(a, b), f);
      AddBasics(e, f);
      AddBasics(f, e);
      AddBasics(Dot(1, u, v, n), 0);
    }
  }

  /** A shipped repair byte equals the field value iff an even number of products miss. */
  lemma RepairByteExact(block: Bytes, size: nat, k: nat, i: nat, p: nat)
    requires k <= i && p < size
    ensures EncodedSymbol(0, block, size, k, i).data[p] == EncodedSymbol(1, block, size, k, i).data[p]
        <==> !OddMisses(MatrixRow(k, i), Stripe(block, size, k, p), k)
  {
    DotShipped(MatrixRow(k, i), Stripe(block, size, k, p), k);
    AddBasics(Dot(1, MatrixRow(k, i), Stripe(block, size, k, p), k), 0);
    AddMoves(Dot(1, MatrixRow(k, i), Stripe(block, size, k, p), k));
  }

  lemma AddMoves(a: bv8)
    ensures Add(a, 1) != a
  {}

  // ---------- the inverter ----------

  /** Row i of both matrices is still the i-th unit row. */
  predicate Untouched(s: System, k: nat, i: nat)
    requires IsSystem(s, k)
  {
    i < k && s.a[i] == UnitRow(k, i) && s.b[i] == UnitRow(k, i)
  }

  predicate Erased(s: System, k: nat, i: nat)
    requires IsSystem(s, k)
  {
    i < k && s.a[i] == Zeros(k) && s.b[i] == Zeros(k)
  }

  /** A pass over column n leaves alone a row that is zero there. */
  lemma StepSkipsRow(w: bv8, s: System, next: System, k: nat, n: nat, i: nat)
    requires IsSystem(s, k) && IsSystem(next, k) && n < k && i < k && i != n && s.a[i][n] == 0
    requires Step(w, s, k, n) == Some(next)
    ensures next.a[i] == s.a[i] && next.b[i] == s.b[i]
  {}

  lemma ScaleByZero(u: Vec)
    ensures ScaleRow(0, u, 0) == Zeros(|u|)
  {}

  lemma {:induction false} NoElimination(m: Matrix, k: nat, i: nat, factors: Vec)
    requires IsMatrix(m, k) && i < k == |factors| && m[i] == Zeros(k)
    ensures EliminateWith(0, m, k, i, factors) == m
  {
    forall r | 0 <= r < k && r != i
      ensures AddScaled(0, m[r], m[i], factors[r]) == m[r]
    {
      forall t | 0 <= t < k
        ensures Add(m[r][t], TableMul(0, 0, factors[r])) == m[r][t]
      {
        AddBasics(m[r][t], 0);
      }
    }
  }

  /** A pass whose pivot is 1 does nothing but swap and erase: the inverse of 1 reads 0, and
      an erased row eliminates nothing. */
  lemma StepErases(s: System, k: nat, i: nat, j: nat) returns (next: System)
    requires IsSystem(s, k) && i < k && j == FindPivot(s.a, k, i, i) < k && s.a[j][i] == 1
    ensures IsSystem(next, k) && Step(0, s, k, i) == Some(next)
    ensures next.a == SwapRows(s.a, i, j)[i := Zeros(k)] && next.b == SwapRows(s.b, i, j)[i := Zeros(k)]
  {
    var s1 := Swapped(s, k, i, j);
    LogPow(0);
    assert TableInv(0, 1) == 0;
    ScaleByZero(s1.a[i]);
    ScaleByZero(s1.b[i]);
    var s2 := Scaled(0, s1, k, i);
    NoElimination(s2.a, k, i, Column(s2.a, k, i));
    NoElimination(s2.b, k, i, Column(s2.a, k, i));
    next := Eliminated(0, s2, k, i);
  }

  /** The pass that pivots on an untouched unit row erases it. */
  lemma StepErasesRow(s: System, k: nat, i: nat)
    requires IsSystem(s, k) && Untouched(s, k, i)
    ensures Step(0, s, k, i).Some? && Erased(Step(0, s, k, i).value, k, i)
  {
    assert s.a[i][i] == 1;
    assert FindPivot(s.a, k, i, i) == i;
    var next := StepErases(s, k, i, i);
  }

  lemma StepKeepsUnit(s: System, next: System, k: nat, n: nat, i: nat)
    requires IsSystem(s, k) && IsSystem(next, k) && n < i && Untouched(s, k, i)
    requires Step(0, s, k, n) == Some(next)
    ensures Untouched(next, k, i)
  {
    StepSkipsRow(0, s, next, k, n, i);
  }

  lemma StepKeepsZeros(w: bv8, s: System, next: System, k: nat, n: nat, i: nat)
    requires IsSystem(s, k) && IsSystem(next, k) && i < n < k && ZeroFrom(s.a[i], n)
    requires Step(w, s, k, n) == Some(next)
    ensures ZeroFrom(next.a[i], n + 1) && next.b[i] == s.b[i]
  {
    StepSkipsRow(w, s, next, k, n, i);
  }

  /** A finished row that is zero from column n on is left alone by the remaining passes. */
  lemma {:induction false} RunSkipsRow(w: bv8, s: System, k: nat, n: nat, i: nat)
    requires IsSystem(s, k) && i < n <= k && ZeroFrom(s.a[i], n)
    ensures Run(w, s, k, n).Some? ==> Run(w, s, k, n).value.b[i] == s.b[i]
    decreases k - n
  {
    hide Step, ZeroFrom;
    if n == k {
    } else if Step(w, s, k, n).None? {
    } else {
      var next := RunUnfold(w, s, k, n);
      StepKeepsZeros(w, s, next, k, n, i);
      RunSkipsRow(w, next, k, n + 1, i);
    }
  }

  lemma {:induction false} RunErasesRow(s: System, k: nat, n: nat, i: nat)
    requires IsSystem(s, k) && n <= i && Untouched(s, k, i)
    ensures Run(0, s, k, n).Some? ==> Run(0, s, k, n).value.b[i] == Zeros(k)
    decreases k - n
  {
    if Step(0, s, k, n).Some? {
      var next := Step(0, s, k, n).value;
      if n < i {
        StepKeepsUnit(s, next, k, n, i);
        RunErasesRow(next, k, n + 1, i);
      } else {
        StepErasesRow(s, k, i);
        RunSkipsRow(0, next, k, n + 1, i);
      }
    }
  }

  // ---------- unit rows in any order ----------

  ghost predicate IsUnitRow(row: Vec, k: nat) {
    exists c: nat :: c < k && row == UnitRow(k, c)
  }

  /** Rows n and below are unit rows, one for each column from n on. */
  ghost predicate UnitsFrom(a: Matrix, k: nat, n: nat)
    requires IsMatrix(a, k)
  {
    && (forall r :: n <= r < k ==> IsUnitRow(a[r], k))
    && (forall c: nat :: n <= c < k ==> UnitRow(k, c) in a[n..])
  }

  lemma RowAt(a: Matrix, k: nat, n: nat, c: nat) returns (r: nat)
    requires IsMatrix(a, k) && n <= k && UnitRow(k, c) in a[n..]
    ensures n <= r < k && a[r] == UnitRow(k, c)
  {
    var t :| 0 <= t < |a[n..]| && a[n..][t] == UnitRow(k, c);
    r := n + t;
  }

  lemma PivotOfUnits(a: Matrix, k: nat, n: nat) returns (j: nat)
    requires IsMatrix(a, k) && n < k && UnitsFrom(a, k, n)
    ensures j == FindPivot(a, k, n, n) < k && a[j] == UnitRow(k, n)
  {
    j := FindPivot(a, k, n, n);
    var r := RowAt(a, k, n, n);
    assert a[r][n] == 1;
    assert j <= r;
    var c: nat :| c < k && a[j] == UnitRow(k, c);
    assert c == n;
  }

  /** Erasing the pivot leaves the later unit rows below it. */
  lemma UnitsAfterErase(a: Matrix, k: nat, n: nat, j: nat)
    requires IsMatrix(a, k) && n <= j < k && UnitsFrom(a, k, n) && a[j] == UnitRow(k, n)
    ensures UnitsFrom(SwapRows(a, n, j)[n := Zeros(k)], k, n + 1)
  {
    var next := SwapRows(a, n, j)[n := Zeros(k)];
    forall r | n + 1 <= r < k
      ensures IsUnitRow(next[r], k)
    {
      assert next[r] == if r == j then a[n] else a[r];
    }
    forall c: nat | n + 1 <= c < k
      ensures UnitRow(k, c) in next[n + 1..]
    {
      var r := RowAt(a, k, n, c);
      assert UnitRow(k, c)[c] != UnitRow(k, n)[c];
      var r' := if r == n then j else r;
      assert next[n + 1..][r' - (n + 1)] == UnitRow(k, c);
    }
  }

  ghost predicate ZeroRows(b: Matrix, k: nat, n: nat) {
    n <= |b| && forall r :: 0 <= r < n ==> b[r] == Zeros(k)
  }

  lemma {:induction false} RunOnUnitRows(s: System, k: nat, n: nat)
    requires IsSystem(s, k) && n <= k && UnitsFrom(s.a, k, n) && ZeroRows(s.b, k, n)
    ensures Run(0, s, k, n).Some? && ZeroRows(Run(0, s, k, n).value.b, k, k)
    decreases k - n
  {
    hide UnitsFrom, Step, FindPivot;
    if n < k {
      var j := PivotOfUnits(s.a, k, n);
      assert s.a[j][n] == 1;
      var next := StepErases(s, k, n, j);
      UnitsAfterErase(s.a, k, n, j);
      var same := RunUnfold(0, s, k, n);
      RunOnUnitRows(next, k, n + 1);
    }
  }

  /** Inverting unit rows, in any order, reports success with the zero matrix. */
  lemma UnitRowsShipped(m: Matrix, k: nat)
    requires IsMatrix(m, k) && UnitsFrom(m, k, 0)
    ensures Invert(0, m, k) == Some(seq(k, _ => Zeros(k)))
  {
    hide UnitsFrom, Run;
    var s := System(m, Identity(k));
    RunOnUnitRows(s, k, 0);
    assert Run(0, s, k, 0).value.b == seq(k, _ => Zeros(k));
  }

  /** In particular the identity. */
  lemma IdentityShipped(k: nat)
    ensures Invert(0, Identity(k), k) == Some(seq(k, _ => Zeros(k)))
  {
    forall c: nat | c < k
      ensures UnitRow(k, c) in Identity(k)[0..]
    {
      assert Identity(k)[0..][c] == UnitRow(k, c);
    }
    assert forall r: nat :: r < k ==> Identity(k)[r] == UnitRow(k, r);
    UnitRowsShipped(Identity(k), k);
  }

  lemma {:induction false} DotOfZeros(w: bv8, v: Vec, k: nat)
    requires k <= |v|
    ensures Dot(w, Zeros(|v|), v, k) == 0
  {
    if k > 0 {
      DotOfZeros(w, v, k - 1);
      AddBasics(0, 0);
    }
  }

  // ---------- decoding ----------

  /** A zero row of the inverse decodes to zeros. */
  lemma ZeroRowByte(inverse: Matrix, symbols: seq<Symbol>, size: nat, len: nat, q: nat)
    requires size >= 1 && IsMatrix(inverse, SymbolCount(len, size))
    requires SymbolCount(len, size) <= |symbols| && Readable(symbols, size, SymbolCount(len, size))
    requires q < len && q / size < SymbolCount(len, size)
    requires inverse[q / size] == Zeros(SymbolCount(len, size))
    ensures Recovered(0, inverse, symbols, size, len)[q] == 0
  {
    var k := SymbolCount(len, size);
    DivModFacts(q, size, len);
    DotOfZeros(0, ReceivedStripe(symbols, k, q % size), k);
  }

  lemma SelectedShape(k: nat, idx: seq<nat>)
    requires k <= |idx|
    ensures IsMatrix(Selected(k, idx), k)
  {}

  /** A source symbol received in its own slot comes out as zeros, whatever was sent. */
  lemma OwnSlotErased(symbols: seq<Symbol>, size: nat, len: nat, i: nat, q: nat)
    requires size >= 1 && Readable(symbols, size, SymbolCount(len, size))
    requires i < SymbolCount(len, size) <= |symbols| && symbols[i].index == i
    requires Decode(0, symbols, size, len).Some?
    requires q < len && q / size == i
    ensures Decode(0, symbols, size, len).value[q] == 0
  {
    var k := SymbolCount(len, size);
    var s := System(Selected(k, Indices(symbols)), Identity(k));
    assert Untouched(s, k, i);
    RunErasesRow(s, k, 0, i);
    DivModFacts(q, size, len);
    ZeroRowByte(Invert(0, Selected(k, Indices(symbols)), k).value, symbols, size, len, q);
  }

  /** The first k indices are the source symbols', in any order. */
  ghost predicate SourcesOnly(k: nat, idx: seq<nat>) {
    k <= |idx| && forall r: nat :: r in idx[..k] <==> r < k
  }

  lemma SourceRows(k: nat, idx: seq<nat>)
    requires SourcesOnly(k, idx)
    ensures UnitsFrom(Selected(k, idx), k, 0)
  {
    var m := Selected(k, idx);
    forall r | 0 <= r < k
      ensures IsUnitRow(m[r], k)
    {
      assert idx[..k][r] in idx[..k];
      assert m[r] == UnitRow(k, idx[r]);
    }
    forall c: nat | c < k
      ensures UnitRow(k, c) in m[0..]
    {
      assert c in idx[..k];
      var i :| 0 <= i < k && idx[..k][i] == c;
      assert m[0..][i] == UnitRow(k, c);
    }
  }

  /** With no source symbol lost, whatever their order, the decoder reports success and
      returns zeros. */
  lemma SourcesShipped(symbols: seq<Symbol>, size: nat, len: nat)
    requires size >= 1 && Readable(symbols, size, SymbolCount(len, size))
    requires SourcesOnly(SymbolCount(len, size), Indices(symbols))
    ensures Decode(0, symbols, size, len) == Some(Zeros(len))
  {
    hide Invert, UnitsFrom, Selected, Recovered, Readable;
    var k, idx := SymbolCount(len, size), Indices(symbols);
    SelectedShape(k, idx);
    SourceRows(k, idx);
    UnitRowsShipped(Selected(k, idx), k);
    var inverse := seq(k, _ => Zeros(k));
    assert Decode(0, symbols, size, len) == Some(Recovered(0, inverse, symbols, size, len));
    ZeroMatrixDecodes(inverse, symbols, size, len);
  }

  lemma ZeroMatrixDecodes(inverse: Matrix, symbols: seq<Symbol>, size: nat, len: nat)
    requires size >= 1 && SymbolCount(len, size) <= |symbols| && Readable(symbols, size, SymbolCount(len, size))
    requires inverse == seq(SymbolCount(len, size), _ => Zeros(SymbolCount(len, size)))
    ensures Recovered(0, inverse, symbols, size, len) == Zeros(len)
  {
    hide Readable, Recovered;
    RecoveredLength(0, inverse, symbols, size, len);
    forall q | 0 <= q < len
      ensures Recovered(0, inverse, symbols, size, len)[q] == 0
    {
      InSymbol(q, size, len);
      ZeroRowByte(inverse, symbols, size, len, q);
    }
  }

  lemma InSymbol(q: nat, size: nat, len: nat)
    requires size >= 1 && q < len
    ensures q / size < SymbolCount(len, size)
  {
    DivModFacts(q, size, len);
  }

  predicate AllZero(block: Bytes) {
    forall q :: 0 <= q < |block| ==> block[q] == 0
  }

  /** So with the sources received, in any order, the shipped round trip holds exactly for
      all-zero blocks. */
  lemma SourcesRoundTripExact(received: seq<Symbol>, block: Bytes, size: nat, wanted: int)
    requires size >= 1 && FromEncoder(0, received, block, size, wanted)
    requires SourcesOnly(SymbolCount(|block|, size), Indices(received))
    ensures Readable(received, size, SymbolCount(|block|, size))
    ensures Decode(0, received, size, |block|) == Some(block) <==> AllZero(block)
  {
    FromEncoderReadable(0, received, block, size, wanted, SymbolCount(|block|, size));
    SourcesShipped(received, size, |block|);
    assert AllZero(block) <==> block == Zeros(|block|);
  }

  // ---------- every reception ----------

  /** Column 0 of the encoding matrix holds only zeros and ones. */
  lemma FirstColumn(k: nat, row: nat)
    requires k > 0
    ensures MatrixRow(k, row)[0] == 0 || MatrixRow(k, row)[0] == 1
  {}

  lemma FirstRowErased(k: nat, idx: seq<nat>)
    requires 0 < k <= |idx|
    ensures Invert(0, Selected(k, idx), k).Some? ==> Invert(0, Selected(k, idx), k).value[0] == Zeros(k)
  {
    hide Step, FindPivot;
    var m := Selected(k, idx);
    var s := System(m, Identity(k));
    var j := FindPivot(m, k, 0, 0);
    if Run(0, s, k, 0).Some? {
      var next := RunStep(0, s, k, 0);
      PivotFound(s, k, 0);
      FirstColumn(k, idx[j]);
      var same := StepErases(s, k, 0, j);
      RunSkipsRow(0, next, k, 1, 0);
    }
  }

  lemma PivotFound(s: System, k: nat, i: nat)
    requires IsSystem(s, k) && i < k && Step(0, s, k, i).Some?
    ensures FindPivot(s.a, k, i, i) < k
  {}

  /** Whatever is received, in whatever order, the shipped decoder returns zeros for the whole
      first symbol of the block, or fails. */
  lemma FirstSymbolErased(symbols: seq<Symbol>, size: nat, len: nat, q: nat)
    requires size >= 1 && Readable(symbols, size, SymbolCount(len, size))
    requires Decode(0, symbols, size, len).Some? && q < len && q < size
    ensures Decode(0, symbols, size, len).value[q] == 0
  {
    hide Invert, Selected, Recovered, Readable;
    var k, idx := SymbolCount(len, size), Indices(symbols);
    DivModFacts(q, size, len);
    assert q / size == 0;
    SelectedShape(k, idx);
    FirstRowErased(k, idx);
    ZeroRowByte(Invert(0, Selected(k, idx), k).value, symbols, size, len, q);
  }

  /** So no reception at all gives back a block that is not zero on its first symbol. */
  lemma OnlyZeroStartsReturn(received: seq<Symbol>, block: Bytes, size: nat, q: nat)
    requires size >= 1 && Readable(received, size, SymbolCount(|block|, size))
    requires Decode(0, received, size, |block|) == Some(block) && q < |block| && q < size
    ensures block[q] == 0
  {
    FirstSymbolErased(received, size, |block|, q);
  }

  // ---------- which blocks survive every reception ----------

  lemma DotWithZeros(w: bv8, u: Vec, v: Vec, n: nat)
    requires n <= |u| && n == |v| && v == Zeros(n)
    ensures Dot(w, u, v, n) == 0
  {
    DotComm(w, u, v, n);
    DotOfZeros(w, u[..n], n);
    DotPrefix(w, v, u, n);
  }

  lemma {:induction false} DotPrefix(w: bv8, v: Vec, u: Vec, n: nat)
    requires n <= |u| && n <= |v|
    ensures Dot(w, v, u[..n], n) == Dot(w, v, u, n)
  {
    hide TableMul, Add;
    DotAgrees(w, v, u[..n], u, n);
  }

  lemma {:induction false} DotAgrees(w: bv8, v: Vec, u: Vec, u': Vec, n: nat)
    requires n <= |u| && n <= |u'| && n <= |v| && forall t :: 0 <= t < n ==> u[t] == u'[t]
    ensures Dot(w, v, u, n) == Dot(w, v, u', n)
  {
    if n > 0 {
      DotAgrees(w, v, u, u', n - 1);
    }
  }

  lemma ZeroBlockEncodes(block: Bytes, size: nat, k: nat, i: nat, p: nat)
    requires AllZero(block) && p < size
    ensures EncodedSymbol(0, block, size, k, i).data[p] == 0
  {
    hide Dot;
    if i >= k {
      assert Stripe(block, size, k, p) == Zeros(k);
      DotWithZeros(0, MatrixRow(k, i), Stripe(block, size, k, p), k);
    }
  }

  lemma ZeroSymbolsDecode(inverse: Matrix, symbols: seq<Symbol>, size: nat, len: nat, q: nat)
    requires size >= 1 && IsMatrix(inverse, SymbolCount(len, size)) && q < len
    requires SymbolCount(len, size) <= |symbols| && Readable(symbols, size, SymbolCount(len, size))
    requires forall i, p :: 0 <= i < SymbolCount(len, size) && 0 <= p < size ==> symbols[i].data[p] == 0
    ensures Recovered(0, inverse, symbols, size, len)[q] == 0
  {
    hide Dot;
    var k := SymbolCount(len, size);
    DivModFacts(q, size, len);
    assert ReceivedStripe(symbols, k, q % size) == Zeros(k);
    DotWithZeros(0, inverse[q / size], ReceivedStripe(symbols, k, q % size), k);
  }

  /** Every list of k or more encoded symbols is refused or decoded to the block. */
  ghost predicate SurvivesShipped(block: Bytes, size: nat, wanted: int)
    requires size >= 1
  {
    forall received :: FromEncoder(0, received, block, size, wanted) && SymbolCount(|block|, size) <= |received| ==>
      Readable(received, size, SymbolCount(|block|, size)) &&
      (Decode(0, received, size, |block|) == None || Decode(0, received, size, |block|) == Some(block))
  }

  lemma ZeroBlockSurvives(received: seq<Symbol>, block: Bytes, size: nat, wanted: int)
    requires size >= 1 && AllZero(block) && FromEncoder(0, received, block, size, wanted)
    requires SymbolCount(|block|, size) <= |received|
    ensures Readable(received, size, SymbolCount(|block|, size))
    ensures Decode(0, received, size, |block|) == None || Decode(0, received, size, |block|) == Some(block)
  {
    hide Invert, Selected, Recovered, Readable, AllZero, EncodedSymbol;
    var k := SymbolCount(|block|, size);
    FromEncoderReadable(0, received, block, size, wanted, k);
    SelectedShape(k, Indices(received));
    if Decode(0, received, size, |block|).Some? {
      var inverse := Invert(0, Selected(k, Indices(received)), k).value;
      ReceivedZeros(received, block, size, wanted, k);
      RecoveredLength(0, inverse, received, size, |block|);
      forall q | 0 <= q < |block|
        ensures Recovered(0, inverse, received, size, |block|)[q] == block[q]
      {
        ZeroSymbolsDecode(inverse, received, size, |block|, q);
        ZeroAt(block, q);
      }
      assert Recovered(0, inverse, received, size, |block|) == block;
    }
  }

  lemma ZeroAt(block: Bytes, q: nat)
    requires AllZero(block) && q < |block|
    ensures block[q] == 0
  {}

  lemma ReceivedZeros(received: seq<Symbol>, block: Bytes, size: nat, wanted: int, k: nat)
    requires size >= 1 && AllZero(block) && FromEncoder(0, received, block, size, wanted)
    requires k <= |received| && Readable(received, size, k)
    ensures forall i, p :: 0 <= i < k && 0 <= p < size ==> received[i].data[p] == 0
  {
    hide EncodedSymbol, AllZero;
    forall i, p | 0 <= i < k && 0 <= p < size
      ensures received[i].data[p] == 0
    {
      EncodedShape(0, received, block, size, wanted, i);
      ZeroBlockEncodes(block, size, SymbolCount(|block|, size), received[i].index, p);
    }
  }

  /** The source symbols in their order are one reception. */
  lemma SourcesSent(block: Bytes, size: nat, wanted: int) returns (received: seq<Symbol>)
    requires size >= 1 && Encode(0, block, size, wanted).Some?
    ensures FromEncoder(0, received, block, size, wanted)
    ensures SourcesOnly(SymbolCount(|block|, size), Indices(received))
  {
    hide EncodedSymbol;
    var k := SymbolCount(|block|, size);
    var sent := Encode(0, block, size, wanted).value;
    received := sent[..k];
    forall i | 0 <= i < k
      ensures received[i] in sent && received[i].index == i
    {
      assert received[i] == sent[i] == EncodedSymbol(0, block, size, k, i);
      SymbolIndex(block, size, k, i);
    }
    forall r: nat | r < k
      ensures r in Indices(received)[..k]
    {
      assert Indices(received)[..k][r] == r;
    }
  }

  lemma SymbolIndex(block: Bytes, size: nat, k: nat, i: nat)
    ensures EncodedSymbol(0, block, size, k, i).index == i
  {}

  /** On the shipped table, a block that can be encoded comes back from every reception that
      is not refused exactly when it is all zeros. */
  lemma SurvivesExactly(block: Bytes, size: nat, wanted: int)
    requires size >= 1 && Encode(0, block, size, wanted).Some?
    ensures SurvivesShipped(block, size, wanted) <==> AllZero(block)
  {
    hide Decode, FromEncoder, Encode, Readable, SourcesOnly;
    if AllZero(block) {
      forall received | FromEncoder(0, received, block, size, wanted) && SymbolCount(|block|, size) <= |received|
        ensures Readable(received, size, SymbolCount(|block|, size))
        ensures Decode(0, received, size, |block|) == None || Decode(0, received, size, |block|) == Some(block)
      {
        ZeroBlockSurvives(received, block, size, wanted);
      }
    } else {
      var received := SourcesSent(block, size, wanted);
      SourcesEnough(SymbolCount(|block|, size), received);
      SourcesRoundTripExact(received, block, size, wanted);
      SourcesShipped(received, size, |block|);
    }
  }

  lemma SourcesEnough(k: nat, received: seq<Symbol>)
    requires SourcesOnly(k, Indices(received))
    ensures k <= |received|
  {}
}
