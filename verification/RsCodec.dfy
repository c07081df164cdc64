/** The matrix loops and the encoder/decoder of reed_solomon_fec.h on arrays, each proved
    equal to its specification function for whatever byte exp entry 255 holds. */
module RsCodec {
  import opened Arithmetic
  import opened Options
  import opened Bytes
  import opened GaloisField
  import opened GaloisTables
  import opened LinearAlgebra
  import opened GaussJordan
  import opened Recovery
  import opened ReedSolomon

  function Row(m: array2<bv8>, r: nat): Vec
    requires r < m.Length0
    reads m
  {
    seq(m.Length1, c requires 0 <= c < m.Length1 reads m => m[r, c])
  }

  function Rows(m: array2<bv8>): Matrix
    reads m
  {
    seq(m.Length0, r requires 0 <= r < m.Length0 reads m => Row(m, r))
  }

  /** rs_build_matrix. */
  method BuildMatrix(t: Tables, m: array2<bv8>, n: nat, k: nat)
    requires t.Valid() && m.Length0 == n && m.Length1 == k
    modifies m
    ensures forall row :: 0 <= row < n ==> Row(m, row) == MatrixRow(k, row)
  {
    for row := 0 to n
      invariant t.Valid()
      invariant forall r, c :: 0 <= r < row && 0 <= c < k ==> m[r, c] == MatrixRow(k, r)[c]
    {
      for col := 0 to k
        invariant t.Valid()
        invariant forall r, c :: 0 <= r < row && 0 <= c < k ==> m[r, c] == MatrixRow(k, r)[c]
        invariant forall c :: 0 <= c < col ==> m[row, c] == MatrixRow(k, row)[c]
      {
        if row < k {
          m[row, col] := if row == col then 1 else 0;
        } else {
          m[row, col] := t.gfExp[((row - k + 1) * col) % 255];
        }
      }
    }
  }

  /** The two arrays of the inverter: the matrix being reduced and the growing inverse. */
  ghost predicate IsPair(m: array2<bv8>, id: array2<bv8>, k: nat) {
    m != id && m.Length0 == m.Length1 == id.Length0 == id.Length1 == k
  }

  function Pair(m: array2<bv8>, id: array2<bv8>): System
    reads m, id
  {
    System(Rows(m), Rows(id))
  }

  /** m holds the matrix a, except that in row r the first n entries are those of `row`. */
  ghost predicate Partly(m: array2<bv8>, k: nat, a: Matrix, r: nat, row: Vec, n: nat)
    requires m.Length0 == m.Length1 == k == |row| && IsMatrix(a, k) && r < k && n <= k
    reads m
  {
    && (forall x, c :: 0 <= x < k && 0 <= c < k && x != r ==> m[x, c] == a[x][c])
    && (forall c :: 0 <= c < n ==> m[r, c] == row[c])
    && (forall c :: n <= c < k ==> m[r, c] == a[r][c])
  }

  lemma RowsAre(m: array2<bv8>, k: nat, a: Matrix)
    requires m.Length0 == m.Length1 == k && IsMatrix(a, k)
    requires forall r, c :: 0 <= r < k && 0 <= c < k ==> m[r, c] == a[r][c]
    ensures Rows(m) == a
  {
    forall r | 0 <= r < k
      ensures Row(m, r) == a[r]
    {}
  }

  lemma PartlyAll(m: array2<bv8>, k: nat, a: Matrix, r: nat, row: Vec)
    requires m.Length0 == m.Length1 == k == |row| && IsMatrix(a, k) && r < k
    requires Partly(m, k, a, r, row, k)
    ensures Rows(m) == a[r := row]
  {
    RowsAre(m, k, a[r := row]);
  }

  /** m holds a with the first n entries of rows i and j exchanged. */
  ghost predicate PartlySwapped(m: array2<bv8>, k: nat, a: Matrix, i: nat, j: nat, n: nat)
    requires m.Length0 == m.Length1 == k && IsMatrix(a, k) && i < j < k && n <= k
    reads m
  {
    forall r, c :: 0 <= r < k && 0 <= c < k ==>
      m[r, c] == a[if c >= n then r else if r == i then j else if r == j then i else r][c]
  }

  method SwapEntry(m: array2<bv8>, k: nat, ghost a: Matrix, i: nat, j: nat, col: nat)
    requires m.Length0 == m.Length1 == k && IsMatrix(a, k) && i < j < k && col < k
    requires PartlySwapped(m, k, a, i, j, col)
    modifies m
    ensures PartlySwapped(m, k, a, i, j, col + 1)
  {
    var tmp := m[i, col];
    m[i, col] := m[j, col];
    m[j, col] := tmp;
  }

  method SwapRowPair(m: array2<bv8>, id: array2<bv8>, k: nat, i: nat, j: nat)
    requires IsPair(m, id, k) && i < j < k
    modifies m, id
    ensures Pair(m, id) == Swapped(old(Pair(m, id)), k, i, j)
  {
    ghost var a, b := Rows(m), Rows(id);
    for col := 0 to k
      invariant PartlySwapped(m, k, a, i, j, col) && PartlySwapped(id, k, b, i, j, col)
    {
      SwapEntry(m, k, a, i, j, col);
      SwapEntry(id, k, b, i, j, col);
    }
    RowsAre(m, k, SwapRows(a, i, j));
    RowsAre(id, k, SwapRows(b, i, j));
  }

  /** One write of an inner loop. */
  method Put(m: array2<bv8>, k: nat, ghost a: Matrix, r: nat, ghost row: Vec, n: nat, v: bv8)
    requires m.Length0 == m.Length1 == k == |row| && IsMatrix(a, k) && r < k && n < k
    requires Partly(m, k, a, r, row, n) && v == row[n]
    modifies m
    ensures Partly(m, k, a, r, row, n + 1)
  {
    m[r, n] := v;
  }

  method ScaleRowPair(t: Tables, m: array2<bv8>, id: array2<bv8>, k: nat, i: nat)
    requires t.Valid() && IsPair(m, id, k) && i < k
    modifies m, id
    ensures Pair(m, id) == Scaled(t.entry, old(Pair(m, id)), k, i)
  {
    hide TableMul, TableInv;
    ghost var a, b := Rows(m), Rows(id);
    var inv := t.Inv(m[i, i]);
    ghost var rowA, rowB := ScaleRow(t.entry, a[i], inv), ScaleRow(t.entry, b[i], inv);
    for col := 0 to k
      invariant t.Valid()
      invariant Partly(m, k, a, i, rowA, col) && Partly(id, k, b, i, rowB, col)
    {
      var p := t.Mul(m[i, col], inv);
      Put(m, k, a, i, rowA, col, p);
      p := t.Mul(id[i, col], inv);
      Put(id, k, b, i, rowB, col, p);
    }
    PartlyAll(m, k, a, i, rowA);
    PartlyAll(id, k, b, i, rowB);
  }

  /** Row j gains factor times row i. */
  method EliminateRowPair(t: Tables, m: array2<bv8>, id: array2<bv8>, k: nat, i: nat, j: nat)
    requires t.Valid() && IsPair(m, id, k) && i < k && j < k && i != j
    modifies m, id
    ensures Rows(m) == old(Rows(m)[j := AddScaled(t.entry, Rows(m)[j], Rows(m)[i], m[j, i])])
    ensures Rows(id) == old(Rows(id)[j := AddScaled(t.entry, Rows(id)[j], Rows(id)[i], m[j, i])])
  {
    hide TableMul, Add;
    ghost var a, b := Rows(m), Rows(id);
    var factor := m[j, i];
    ghost var rowA := AddScaled(t.entry, a[j], a[i], factor);
    ghost var rowB := AddScaled(t.entry, b[j], b[i], factor);
    for col := 0 to k
      invariant t.Valid()
      invariant Partly(m, k, a, j, rowA, col) && Partly(id, k, b, j, rowB, col)
    {
      var p := t.Mul(m[i, col], factor);
      Put(m, k, a, j, rowA, col, Add(m[j, col], p));
      p := t.Mul(id[i, col], factor);
      Put(id, k, b, j, rowB, col, Add(id[j, col], p));
    }
    PartlyAll(m, k, a, j, rowA);
    PartlyAll(id, k, b, j, rowB);
  }

  /** EliminateWith, stopped before row n. */
  ghost function EliminatedTo(w: bv8, a: Matrix, k: nat, i: nat, factors: Vec, n: nat): Matrix
    requires IsMatrix(a, k) && i < k == |factors| && n <= k
  {
    seq(k, r requires 0 <= r < k => if r == i || r >= n then a[r] else AddScaled(w, a[r], a[i], factors[r]))
  }

  lemma EliminatedStep(w: bv8, a: Matrix, k: nat, i: nat, factors: Vec, n: nat)
    requires IsMatrix(a, k) && i < k == |factors| && n < k
    ensures var done, next := EliminatedTo(w, a, k, i, factors, n), EliminatedTo(w, a, k, i, factors, n + 1);
      && done[n] == a[n] && done[i] == a[i]
      && next == if n == i then done else done[n := AddScaled(w, done[n], done[i], factors[n])]
  {}

  lemma EliminatedEnds(w: bv8, a: Matrix, k: nat, i: nat, factors: Vec)
    requires IsMatrix(a, k) && i < k == |factors|
    ensures EliminatedTo(w, a, k, i, factors, 0) == a
    ensures EliminatedTo(w, a, k, i, factors, k) == EliminateWith(w, a, k, i, factors)
  {}

  method EliminatePair(t: Tables, m: array2<bv8>, id: array2<bv8>, k: nat, i: nat)
    requires t.Valid() && IsPair(m, id, k) && i < k
    modifies m, id
    ensures Pair(m, id) == Eliminated(t.entry, old(Pair(m, id)), k, i)
  {
    hide AddScaled;
    ghost var a, b := Rows(m), Rows(id);
    ghost var factors := Column(a, k, i);
    EliminatedEnds(t.entry, a, k, i, factors);
    EliminatedEnds(t.entry, b, k, i, factors);
    for j := 0 to k
      invariant t.Valid()
      invariant Rows(m) == EliminatedTo(t.entry, a, k, i, factors, j)
      invariant Rows(id) == EliminatedTo(t.entry, b, k, i, factors, j)
    {
      EliminatedStep(t.entry, a, k, i, factors, j);
      EliminatedStep(t.entry, b, k, i, factors, j);
      if i != j {
        assert m[j, i] == Rows(m)[j][i];
        EliminateRowPair(t, m, id, k, i, j);
      }
    }
  }

  /** The pivot search: the diagonal entry, then the rows below it. */
  method SearchPivot(m: array2<bv8>, k: nat, i: nat) returns (j: nat)
    requires m.Length0 == m.Length1 == k && i < k
    ensures j == FindPivot(Rows(m), k, i, i)
  {
    if m[i, i] != 0 {
      return i;
    }
    j := i + 1;
    while j < k && m[j, i] == 0
      invariant i < j <= k
      invariant FindPivot(Rows(m), k, i, i) == FindPivot(Rows(m), k, i, j)
    {
      j := j + 1;
    }
  }

  /** One turn of the outer loop. */
  method InvertPass(t: Tables, m: array2<bv8>, id: array2<bv8>, k: nat, i: nat) returns (ok: bool)
    requires t.Valid() && IsPair(m, id, k) && i < k
    modifies m, id
    ensures ok <==> Step(t.entry, old(Pair(m, id)), k, i).Some?
    ensures ok ==> Step(t.entry, old(Pair(m, id)), k, i) == Some(Pair(m, id))
  {
    var j := SearchPivot(m, k, i);
    if j == k {
      return false;
    }
    if j != i {
      SwapRowPair(m, id, k, i, j);
    } else {
      assert Swapped(Pair(m, id), k, i, j) == Pair(m, id);
    }
    ScaleRowPair(t, m, id, k, i);
    EliminatePair(t, m, id, k, i);
    ok := true;
  }

  /** The memcpy back into the caller's matrix. */
  method CopyMatrix(m: array2<bv8>, id: array2<bv8>, k: nat)
    requires IsPair(m, id, k)
    modifies m
    ensures Rows(m) == Rows(id)
  {
    forall r, c | 0 <= r < k && 0 <= c < k {
      m[r, c] := id[r, c];
    }
    RowsAre(m, k, Rows(id));
  }

  /** rs_invert_matrix.  On failure the matrix is left part way through. */
  method InvertMatrix(t: Tables, m: array2<bv8>, k: nat) returns (ok: bool)
    requires t.Valid() && m.Length0 == m.Length1 == k
    modifies m
    ensures ok <==> Invert(t.entry, old(Rows(m)), k).Some?
    ensures ok ==> Some(Rows(m)) == Invert(t.entry, old(Rows(m)), k)
  {
    var id := new bv8[k, k]((r, c) => if r == c then 1 else 0);
    RowsAre(id, k, Identity(k));
    ghost var start := Pair(m, id);
    for i := 0 to k
      invariant t.Valid()
      invariant Run(t.entry, start, k, 0) == Run(t.entry, Pair(m, id), k, i)
    {
      ok := InvertPass(t, m, id, k, i);
      if !ok {
        return;
      }
    }
    CopyMatrix(m, id, k);
    ok := true;
  }

  // ---------- rs_encode ----------

  /** The bytes of symbol c that lie inside the block. */
  function CopyLength(len: nat, size: nat, c: nat): nat
    requires size >= 1 && c < SymbolCount(len, size)
  {
    OffsetInside(len, size, c);
    if len - c * size < size then len - c * size else size
  }

  lemma OffsetInside(len: nat, size: nat, c: nat)
    requires size >= 1 && c < SymbolCount(len, size)
    ensures c * size < len
  {
    var k := SymbolCount(len, size);
    assert (k - 1) * size < len;
    assert c * size <= (k - 1) * size by {
      ProductMonotone(c, k - 1, size);
    }
  }

  method SourceSymbol(block: Bytes, size: nat, k: nat, c: nat, ghost w: bv8) returns (s: Symbol)
    requires size >= 1 && k == SymbolCount(|block|, size) && c < k
    ensures s == EncodedSymbol(w, block, size, k, c)
  {
    var data := new bv8[size](_ => 0);
    var offset, copyLen := c * size, CopyLength(|block|, size, c);
    OffsetInside(|block|, size, c);
    forall p | 0 <= p < copyLen {
      data[p] := block[offset + p];
    }
    s := Symbol(c, data[..]);
    assert s.data == EncodedSymbol(w, block, size, k, c).data;
  }

  method RepairSymbol(t: Tables, m: array2<bv8>, sources: seq<Symbol>, ghost block: Bytes, size: nat, k: nat, i: nat)
    returns (s: Symbol)
    requires t.Valid() && k <= i < m.Length0 && m.Length1 == k && Row(m, i) == MatrixRow(k, i)
    requires EncodedSymbols(t.entry, block, size, k, k) <= sources
    ensures s == EncodedSymbol(t.entry, block, size, k, i)
  {
    hide MatrixRow, TableMul, Add;
    var data := new bv8[size](_ => 0);
    ghost var row := MatrixRow(k, i);
    for j := 0 to k
      invariant t.Valid() && t.Apart(data)
      invariant forall p :: 0 <= p < size ==> data[p] == Dot(t.entry, row, Stripe(block, size, k, p), j)
    {
      var coeff := m[i, j];
      assert coeff == Row(m, i)[j] == row[j];
      assert sources[j] == EncodedSymbol(t.entry, block, size, k, j);
      t.MulXorRegion(data, sources[j].data, coeff, size);
    }
    s := Symbol(i, data[..]);
    assert s.data == EncodedSymbol(t.entry, block, size, k, i).data;
  }

  lemma PrefixOfSymbols(w: bv8, block: Bytes, size: nat, k: nat, i: nat)
    requires k <= i
    ensures EncodedSymbols(w, block, size, k, k) <= EncodedSymbols(w, block, size, k, i)
  {}

  method EncodeSources(block: Bytes, size: nat, k: nat, ghost w: bv8) returns (symbols: seq<Symbol>)
    requires size >= 1 && k == SymbolCount(|block|, size)
    ensures symbols == EncodedSymbols(w, block, size, k, k)
  {
    symbols := [];
    for i := 0 to k
      invariant symbols == EncodedSymbols(w, block, size, k, i)
    {
      var s := SourceSymbol(block, size, k, i, w);
      symbols := symbols + [s];
    }
  }

  method EncodeRepairs(t: Tables, m: array2<bv8>, sources: seq<Symbol>, ghost block: Bytes, size: nat, k: nat, n: nat)
    returns (symbols: seq<Symbol>)
    requires t.Valid() && k <= n == m.Length0 && m.Length1 == k
    requires forall row :: 0 <= row < n ==> Row(m, row) == MatrixRow(k, row)
    requires sources == EncodedSymbols(t.entry, block, size, k, k)
    ensures symbols == EncodedSymbols(t.entry, block, size, k, n)
  {
    symbols := sources;
    for i := k to n
      invariant symbols == EncodedSymbols(t.entry, block, size, k, i)
    {
      PrefixOfSymbols(t.entry, block, size, k, i);
      var s := RepairSymbol(t, m, symbols, block, size, k, i);
      symbols := symbols + [s];
    }
  }

  /** rs_encode; `wanted` is the truncated product of k and the repair ratio. */
  method EncodeBlock(t: Tables, block: Bytes, size: nat, wanted: int) returns (r: Option<seq<Symbol>>)
    requires t.Valid() && size >= 1
    ensures r == Encode(t.entry, block, size, wanted)
  {
    var k := (|block| + size - 1) / size;
    var repairCount := wanted;
    if repairCount < 1 {
      repairCount := 1;
    }
    var n := k + repairCount;
    if n > 255 {
      return None;
    }
    var matrix := new bv8[n, k];
    BuildMatrix(t, matrix, n, k);
    var symbols := EncodeSources(block, size, k, t.entry);
    symbols := EncodeRepairs(t, matrix, symbols, block, size, k, n);
    r := Some(symbols);
  }

  // ---------- rs_decode ----------

  /** The decoding submatrix: row i is the 255-row matrix's row for the i-th index. */
  method SelectRows(t: Tables, symbols: seq<Symbol>, k: nat) returns (d: array2<bv8>)
    requires t.Valid() && k <= |symbols| && forall i :: 0 <= i < k ==> symbols[i].index < 255
    ensures fresh(d) && d.Length0 == d.Length1 == k && Rows(d) == Selected(k, Indices(symbols))
  {
    hide MatrixRow;
    var maxN := 255;
    var encodeMatrix := new bv8[maxN, k];
    BuildMatrix(t, encodeMatrix, maxN, k);
    d := new bv8[k, k];
    ghost var m := Selected(k, Indices(symbols));
    for i := 0 to k
      invariant forall row :: 0 <= row < maxN ==> Row(encodeMatrix, row) == MatrixRow(k, row)
      invariant forall r, c :: 0 <= r < i && 0 <= c < k ==> d[r, c] == m[r][c]
    {
      var row := symbols[i].index;
      assert Row(encodeMatrix, row) == m[i];
      for col := 0 to k
        invariant Row(encodeMatrix, row) == m[i]
        invariant forall row :: 0 <= row < maxN ==> Row(encodeMatrix, row) == MatrixRow(k, row)
        invariant forall r, c :: 0 <= r < i && 0 <= c < k ==> d[r, c] == m[r][c]
        invariant forall c :: 0 <= c < col ==> d[i, c] == m[i][c]
      {
        assert encodeMatrix[row, col] == Row(encodeMatrix, row)[col];
        d[i, col] := encodeMatrix[row, col];
      }
    }
    RowsAre(d, k, m);
  }

  /** One recovered symbol, mixed into the reused buffer. */
  method RecoverSymbol(t: Tables, inverse: array2<bv8>, symbols: seq<Symbol>, size: nat, k: nat, orig: nat,
                       temp: array<bv8>)
    requires t.Valid() && t.Apart(temp) && temp.Length == size
    requires inverse.Length0 == inverse.Length1 == k <= |symbols| && Readable(symbols, size, k) && orig < k
    modifies temp
    ensures forall p :: 0 <= p < size ==>
      temp[p] == Dot(t.entry, Row(inverse, orig), ReceivedStripe(symbols, k, p), k)
  {
    ghost var row := Row(inverse, orig);
    forall p | 0 <= p < size {
      temp[p] := 0;
    }
    for recv := 0 to k
      invariant t.Valid() && Row(inverse, orig) == row
      invariant forall p :: 0 <= p < size ==> temp[p] == Dot(t.entry, row, ReceivedStripe(symbols, k, p), recv)
    {
      var coeff := inverse[orig, recv];
      assert coeff == Row(inverse, orig)[recv];
      t.MulXorRegion(temp, symbols[recv].data, coeff, size);
    }
  }

  lemma DivModUnique(c: nat, size: nat, p: nat)
    requires p < size
    ensures (c * size + p) / size == c && (c * size + p) % size == p
  {
    var q := (c * size + p) / size;
    assert q * size + (c * size + p) % size == c * size + p;
    if q < c { ProductMonotone(q + 1, c, size); }
    if q > c { ProductMonotone(c + 1, q, size); }
  }

  /** out[..done] is right, where done covers the first c symbols. */
  ghost predicate RecoveredUpTo(out: array<bv8>, full: Bytes, size: nat, c: nat)
    reads out
  {
    |full| <= out.Length && forall q :: 0 <= q < |full| && q < c * size ==> out[q] == full[q]
  }

  /** The copy of one recovered symbol into the output, cut at the block's end. */
  method PlaceSymbol(out: array<bv8>, temp: array<bv8>, ghost full: Bytes, size: nat, len: nat, c: nat)
    requires size >= 1 && out != temp && temp.Length == size && c < SymbolCount(len, size) && |full| == len
    requires RecoveredUpTo(out, full, size, c)
    requires forall p :: 0 <= p < size && c * size + p < len ==> temp[p] == full[c * size + p]
    modifies out
    ensures RecoveredUpTo(out, full, size, c + 1)
    ensures forall q :: len <= q < out.Length ==> out[q] == old(out[q])
  {
    var offset, copyLen := c * size, CopyLength(len, size, c);
    OffsetInside(len, size, c);
    forall p | 0 <= p < copyLen {
      out[offset + p] := temp[p];
    }
    forall q | 0 <= q < len && q < (c + 1) * size
      ensures out[q] == full[q]
    {
      if q >= offset {
        assert (c + 1) * size == offset + size;
        var p := q - offset;
        assert out[offset + p] == temp[p];
      }
    }
  }

  lemma RecoveredAt(w: bv8, inverse: Matrix, symbols: seq<Symbol>, size: nat, len: nat, k: nat, c: nat, p: nat)
    requires size >= 1 && k == SymbolCount(len, size) <= |symbols| && Readable(symbols, size, k) && IsMatrix(inverse, k)
    requires c < k && p < size && c * size + p < len
    ensures Recovered(w, inverse, symbols, size, len)[c * size + p]
         == Dot(w, inverse[c], ReceivedStripe(symbols, k, p), k)
  {
    hide Dot, ReceivedStripe;
    DivModUnique(c, size, p);
  }

  lemma SymbolsCover(len: nat, size: nat)
    requires size >= 1
    ensures len <= SymbolCount(len, size) * size
  {}

  /** The recovery loop over source symbols. */
  method Assemble(t: Tables, inverse: array2<bv8>, symbols: seq<Symbol>, size: nat, len: nat, k: nat, out: array<bv8>)
    requires t.Valid() && t.Apart(out) && size >= 1 && len <= out.Length
    requires k == SymbolCount(len, size) <= |symbols| && Readable(symbols, size, k)
    requires inverse.Length0 == inverse.Length1 == k
    modifies out
    ensures out[..len] == Recovered(t.entry, Rows(inverse), symbols, size, len)
    ensures forall q :: len <= q < out.Length ==> out[q] == old(out[q])
  {
    hide Dot, Recovered, ReceivedStripe, SymbolCount, Readable;
    ghost var full := Recovered(t.entry, Rows(inverse), symbols, size, len);
    RecoveredLength(t.entry, Rows(inverse), symbols, size, len);
    forall q | 0 <= q < len {
      out[q] := 0;
    }
    var temp := new bv8[size];
    for c := 0 to k
      invariant RecoveredUpTo(out, full, size, c)
      invariant forall q :: len <= q < out.Length ==> out[q] == old(out[q])
    {
      RecoverSymbol(t, inverse, symbols, size, k, c, temp);
      forall p | 0 <= p < size && c * size + p < len
        ensures temp[p] == full[c * size + p]
      {
        RecoveredAt(t.entry, Rows(inverse), symbols, size, len, k, c, p);
      }
      PlaceSymbol(out, temp, full, size, len, c);
    }
    SymbolsCover(len, size);
  }

  /** rs_decode into the caller's buffer. */
  method DecodeBlock(t: Tables, symbols: seq<Symbol>, size: nat, len: nat, out: array<bv8>) returns (ok: bool)
    requires t.Valid() && t.Apart(out) && size >= 1 && len <= out.Length
    requires Readable(symbols, size, SymbolCount(len, size))
    modifies out
    ensures ok <==> Decode(t.entry, symbols, size, len).Some?
    ensures ok ==> Decode(t.entry, symbols, size, len) == Some(out[..len])
    ensures !ok ==> out[..] == old(out[..])
    ensures forall q :: len <= q < out.Length ==> out[q] == old(out[q])
  {
    var k := (len + size - 1) / size;
    if |symbols| < k {
      return false;
    }
    var inverse := SelectRows(t, symbols, k);
    ok := InvertMatrix(t, inverse, k);
    if !ok {
      return;
    }
    Assemble(t, inverse, symbols, size, len, k, out);
  }
}
