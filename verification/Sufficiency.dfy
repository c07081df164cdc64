/** For which codes any k of the n symbols are enough to decode. */
module Sufficiency {
  import opened Options
  import opened Bytes
  import opened GaloisField
  import opened LinearAlgebra
  import opened GaussJordan
  import opened Recovery
  import opened Minors
  import opened SmallMinors
  import opened MinorSizes
  import opened ReedSolomon

  /** k different symbols of the n that are sent. */
  predicate KOfN(k: nat, n: nat, idx: seq<nat>) {
    |idx| == k && Distinct(idx) && Below(idx, n)
  }

  /** Whichever k symbols arrive, in whatever order, their rows are nonsingular. */
  ghost predicate AnyKOfN(k: nat, n: nat) {
    forall idx :: KOfN(k, n, idx) ==> !Singular(Selected(k, idx), k)
  }

  // ---------- from received indices to a minor ----------

  function Lost(k: nat, idx: seq<nat>): set<nat> {
    set c: nat | c < k && c !in idx
  }

  function RepairIndex(k: nat, s: nat): nat {
    k + s
  }

  /** The repair symbols held, numbered from 0. */
  function Held(k: nat, n: nat, idx: seq<nat>): set<nat>
    requires k <= n
  {
    set s: nat | s < n - k && RepairIndex(k, s) in idx
  }

  lemma KernelOfHeld(k: nat, n: nat, idx: seq<nat>, rows: seq<nat>, x: Vec)
    requires k <= n && KOfN(k, n, idx) && Covers(rows, Held(k, n, idx)) && |x| == k
    ensures InKernel(Selected(k, idx), k, x) <==> SupportedOn(x, Lost(k, idx)) && Annihilates(k, Shifted(rows, 1), x)
  {
    hide Dot, InKernel;
    SelectedKernel(k, idx, x);
    assert idx[..k] == idx;
    if InKernel(Selected(k, idx), k, x) {
      KernelGivesHeld(k, n, idx, rows, x);
    }
    if SupportedOn(x, Lost(k, idx)) && Annihilates(k, Shifted(rows, 1), x) {
      HeldGivesKernel(k, n, idx, rows, x);
    }
  }

  lemma KernelGivesHeld(k: nat, n: nat, idx: seq<nat>, rows: seq<nat>, x: Vec)
    requires k <= n && KOfN(k, n, idx) && Covers(rows, Held(k, n, idx)) && |x| == k
    requires forall r :: r in idx ==> Dot(1, MatrixRow(k, r), x, k) == 0
    ensures SupportedOn(x, Lost(k, idx)) && Annihilates(k, Shifted(rows, 1), x)
  {
    hide Dot, Entry;
    forall c: nat | c < k && c !in Lost(k, idx)
      ensures x[c] == 0
    {
      DotUnit(k, c, x);
    }
    forall s | s in Shifted(rows, 1)
      ensures Dot(1, RepairRow(k, s), x, k) == 0
    {
      var i :| 0 <= i < |rows| && Shifted(rows, 1)[i] == s;
      assert rows[i] in rows && RepairIndex(k, rows[i]) in idx;
      assert MatrixRow(k, k + rows[i]) == RepairRow(k, s);
    }
  }

  lemma HeldGivesKernel(k: nat, n: nat, idx: seq<nat>, rows: seq<nat>, x: Vec)
    requires k <= n && KOfN(k, n, idx) && Covers(rows, Held(k, n, idx)) && |x| == k
    requires SupportedOn(x, Lost(k, idx)) && Annihilates(k, Shifted(rows, 1), x)
    ensures forall r :: r in idx ==> Dot(1, MatrixRow(k, r), x, k) == 0
  {
    hide Dot, Entry;
    forall r | r in idx
      ensures Dot(1, MatrixRow(k, r), x, k) == 0
    {
      if r < k {
        DotUnit(k, r, x);
      } else {
        assert RepairIndex(k, r - k) in idx && r - k in Held(k, n, idx);
        assert r - k in rows;
        var i :| 0 <= i < |rows| && rows[i] == r - k;
        assert Shifted(rows, 1)[i] == r - k + 1;
      }
    }
  }

  lemma SingularIsAmbivalent(k: nat, n: nat, idx: seq<nat>, rows: seq<nat>)
    requires k <= n && KOfN(k, n, idx) && Covers(rows, Held(k, n, idx))
    ensures Singular(Selected(k, idx), k) <==> Ambivalent(k, Shifted(rows, 1), Lost(k, idx))
  {
    hide InKernel, Selected, SupportedOn, Annihilates, KOfN;
    SelectedSquare(k, n, idx);
    forall x: Vec | |x| == k
      ensures InKernel(Selected(k, idx), k, x)
          <==> (SupportedOn(x, Lost(k, idx)) && Annihilates(k, Shifted(rows, 1), x))
    {
      KernelOfHeld(k, n, idx, rows, x);
    }
    if Singular(Selected(k, idx), k) {
      var x :| InKernel(Selected(k, idx), k, x) && x != Zeros(k);
      KernelLength(Selected(k, idx), k, x);
    }
  }

  lemma SelectedSquare(k: nat, n: nat, idx: seq<nat>)
    requires KOfN(k, n, idx)
    ensures |idx| == k && IsMatrix(Selected(k, idx), k)
  {}

  lemma KernelLength(m: Matrix, k: nat, x: Vec)
    requires IsMatrix(m, k) && InKernel(m, k, x)
    ensures |x| == k
  {}

  // ---------- counting ----------

  lemma {:induction false} Enumerate(s: set<nat>, n: nat) returns (q: seq<nat>)
    requires forall c :: c in s ==> c < n
    ensures Increasing(q) && Below(q, n) && Covers(q, s)
  {
    if n == 0 {
      q := [];
    } else if n - 1 in s {
      q := Enumerate(s - {n - 1}, n - 1);
      q := q + [n - 1];
    } else {
      q := Enumerate(s, n - 1);
    }
  }

  lemma CoverSize(q: seq<nat>, s: set<nat>)
    requires Increasing(q) && Covers(q, s)
    ensures Distinct(q) && |q| == |s| && Elements(q) == s
  {
    ElementsSize(q);
    ElementsCovered(q);
    assert Elements(q) == s;
  }

  function Range(k: nat): set<nat> {
    if k == 0 then {} else Range(k - 1) + {k - 1}
  }

  lemma {:induction false} RangeIs(k: nat)
    ensures |Range(k)| == k && forall c: nat :: c in Range(k) <==> c < k
  {
    if k > 0 {
      RangeIs(k - 1);
    }
  }

  lemma DisjointSize(a: set<nat>, b: set<nat>, c: set<nat>)
    requires a !! b && a + b == c
    ensures |c| == |a| + |b|
  {}

  function Sources(k: nat, s: set<nat>): set<nat> {
    set c | c in s && c < k
  }

  function Repairs(k: nat, s: set<nat>): set<nat> {
    set c | c in s && c >= k
  }

  lemma SplitSize(k: nat, s: set<nat>)
    ensures |s| == |Sources(k, s)| + |Repairs(k, s)|
  {
    DisjointSize(Sources(k, s), Repairs(k, s), s);
  }

  lemma LostSize(k: nat, idx: seq<nat>)
    ensures |Sources(k, Elements(idx))| + |Lost(k, idx)| == k
  {
    RangeIs(k);
    ElementsCovered(idx);
    DisjointSize(Sources(k, Elements(idx)), Lost(k, idx), Range(k));
  }

  /** The numbers k + q[i]. */
  lemma RaisedSize(q: seq<nat>, k: nat)
    requires Increasing(q)
    ensures |Elements(Shifted(q, k))| == |q|
  {
    ElementsSize(Shifted(q, k));
  }

  /** As many repair symbols are held as source symbols are lost. */
  lemma HeldIsLost(k: nat, n: nat, idx: seq<nat>, rows: seq<nat>, cols: seq<nat>)
    requires k <= n && KOfN(k, n, idx)
    requires Increasing(rows) && Covers(rows, Held(k, n, idx)) && Increasing(cols) && Covers(cols, Lost(k, idx))
    ensures |rows| == |cols|
  {
    hide Lost, Held, Sources, Covers, Elements, Increasing;
    var all := Elements(idx);
    ElementsSize(idx);
    SplitSize(k, all);
    LostSize(k, idx);
    CoverSize(cols, Lost(k, idx));
    RaisedSize(rows, k);
    ElementsCovered(idx);
    RepairsAre(idx, k);
    RaisedCovers(k, n, idx, rows, Repairs(k, all));
  }

  lemma RepairsAre(idx: seq<nat>, k: nat)
    ensures forall c :: c in Repairs(k, Elements(idx)) <==> c in idx && c >= k
  {}

  lemma RaisedCovers(k: nat, n: nat, idx: seq<nat>, rows: seq<nat>, repairs: set<nat>)
    requires k <= n && Below(idx, n) && Covers(rows, Held(k, n, idx))
    requires forall c :: c in repairs <==> c in idx && c >= k
    ensures Elements(Shifted(rows, k)) == repairs
  {
    forall c | c in repairs
      ensures c in Elements(Shifted(rows, k))
    {
      assert RepairIndex(k, c - k) in idx && c - k in Held(k, n, idx);
      assert c - k in rows;
      var i :| 0 <= i < |rows| && rows[i] == c - k;
      assert Shifted(rows, k)[i] == c;
    }
    forall c | c in Elements(Shifted(rows, k))
      ensures c in repairs
    {
      var i :| 0 <= i < |rows| && Shifted(rows, k)[i] == c;
      assert rows[i] in rows;
    }
  }

  // ---------- from a minor to received indices ----------

  /** The indices that lose the columns cols and hold the repair symbols rows. */
  lemma Reception(k: nat, n: nat, rows: seq<nat>, cols: seq<nat>) returns (idx: seq<nat>)
    requires k <= n && IsMinor(rows, cols, k, n - k)
    ensures KOfN(k, n, idx) && Covers(rows, Held(k, n, idx)) && Covers(cols, Lost(k, idx))
  {
    hide KOfN, Covers, Held, Lost, Increasing, Distinct;
    var all := Lost(k, cols) + Elements(Shifted(rows, k));
    ReceptionSize(k, rows, cols, all);
    RaisedIs(rows, k, n);
    AllBelow(k, n, cols, all, Elements(Shifted(rows, k)));
    idx := Enumerate(all, n);
    CoverSize(idx, all);
    assert KOfN(k, n, idx) by { IsKOfN(k, n, idx); }
    ReceptionHolds(k, n, rows, cols, idx, all);
  }

  lemma IsKOfN(k: nat, n: nat, idx: seq<nat>)
    requires |idx| == k && Distinct(idx) && Below(idx, n)
    ensures KOfN(k, n, idx)
  {}

  lemma AllBelow(k: nat, n: nat, cols: seq<nat>, all: set<nat>, repairs: set<nat>)
    requires k <= n && all == Lost(k, cols) + repairs && forall c :: c in repairs ==> k <= c < n
    ensures forall c :: c in all ==> c < n
  {}

  lemma ReceptionSize(k: nat, rows: seq<nat>, cols: seq<nat>, all: set<nat>)
    requires |rows| == |cols| && Increasing(rows) && Increasing(cols) && Below(cols, k)
    requires all == Lost(k, cols) + Elements(Shifted(rows, k))
    ensures |all| == k
  {
    ColumnsAreSources(k, cols);
    LostSize(k, cols);
    ElementsSize(cols);
    RaisedSize(rows, k);
    RaisedAbove(rows, k);
    DisjointSize(Lost(k, cols), Elements(Shifted(rows, k)), all);
  }

  lemma ColumnsAreSources(k: nat, cols: seq<nat>)
    requires Below(cols, k)
    ensures Sources(k, Elements(cols)) == Elements(cols)
  {}

  lemma RaisedAbove(rows: seq<nat>, k: nat)
    ensures forall c :: c in Elements(Shifted(rows, k)) ==> c >= k
  {}

  lemma ReceptionHolds(k: nat, n: nat, rows: seq<nat>, cols: seq<nat>, idx: seq<nat>, all: set<nat>)
    requires k <= n && Below(rows, n - k) && Below(cols, k) && Covers(idx, all)
    requires all == Lost(k, cols) + Elements(Shifted(rows, k))
    ensures Covers(rows, Held(k, n, idx)) && Covers(cols, Lost(k, idx))
  {
    hide Elements;
    RaisedIs(rows, k, n);
    forall s: nat
      ensures s in rows <==> s in Held(k, n, idx)
    {
      assert RepairIndex(k, s) in all <==> RepairIndex(k, s) in idx;
    }
    forall c: nat
      ensures c in cols <==> c in Lost(k, idx)
    {
      assert c in all <==> c in idx;
    }
  }

  lemma RaisedIs(rows: seq<nat>, k: nat, n: nat)
    requires k <= n && Below(rows, n - k)
    ensures forall c :: c in Elements(Shifted(rows, k)) ==> k <= c < n
    ensures forall s: nat :: s in rows <==> RepairIndex(k, s) in Elements(Shifted(rows, k))
  {
    forall s: nat | s in rows
      ensures RepairIndex(k, s) in Elements(Shifted(rows, k))
    {
      var i :| 0 <= i < |rows| && rows[i] == s;
      assert Shifted(rows, k)[i] == k + s;
    }
  }

  // ---------- the exact condition ----------

  lemma ShiftedDegenerate(rows: seq<nat>, cols: seq<nat>)
    requires |rows| == |cols|
    ensures Degenerate(Shifted(rows, 1), cols) <==> Degenerate(rows, cols)
  {
    hide Degenerate;
    if Degenerate(rows, cols) {
      ShiftUp(rows, cols, 1);
    }
    if Degenerate(Shifted(rows, 1), cols) {
      ShiftDown(rows, cols, 1);
    }
  }

  /** The selected rows are singular exactly when the minor of the held repair symbols and the
      lost columns is. */
  lemma SelectedIsMinor(k: nat, n: nat, idx: seq<nat>, rows: seq<nat>, cols: seq<nat>)
    requires k <= n && KOfN(k, n, idx) && IsMinor(rows, cols, k, n - k)
    requires Covers(rows, Held(k, n, idx)) && Covers(cols, Lost(k, idx))
    ensures Singular(Selected(k, idx), k) <==> Degenerate(rows, cols)
  {
    hide Degenerate, Singular, Selected, Ambivalent, Covers;
    SelectedSquare(k, n, idx);
    SingularIsAmbivalent(k, n, idx, rows);
    AmbivalentExact(k, Shifted(rows, 1), cols, Lost(k, idx));
    ShiftedDegenerate(rows, cols);
  }

  lemma MinorOf(k: nat, n: nat, idx: seq<nat>) returns (rows: seq<nat>, cols: seq<nat>)
    requires k <= n && KOfN(k, n, idx)
    ensures IsMinor(rows, cols, k, n - k) && Covers(rows, Held(k, n, idx)) && Covers(cols, Lost(k, idx))
  {
    rows := Enumerate(Held(k, n, idx), n - k);
    cols := Enumerate(Lost(k, idx), k);
    HeldIsLost(k, n, idx, rows, cols);
  }

  lemma AnyKOfNIsMinors(k: nat, n: nat)
    requires k <= n
    ensures AnyKOfN(k, n) <==> NoDegenerate(k, n - k)
  {
    hide Degenerate, Singular, Selected, Covers, KOfN, IsMinor;
    if NoDegenerate(k, n - k) {
      forall idx | KOfN(k, n, idx)
        ensures |idx| == k && IsMatrix(Selected(k, idx), k) && !Singular(Selected(k, idx), k)
      {
        SelectedSquare(k, n, idx);
        var rows, cols := MinorOf(k, n, idx);
        SelectedIsMinor(k, n, idx, rows, cols);
      }
    }
    if AnyKOfN(k, n) {
      forall rows, cols | IsMinor(rows, cols, k, n - k)
        ensures |rows| == |cols| && !Degenerate(rows, cols)
      {
        MinorShape(rows, cols, k, n - k);
        var idx := Reception(k, n, rows, cols);
        SelectedSquare(k, n, idx);
        SelectedIsMinor(k, n, idx, rows, cols);
      }
    }
  }

  lemma MinorShape(rows: seq<nat>, cols: seq<nat>, k: nat, r: nat)
    requires IsMinor(rows, cols, k, r)
    ensures |rows| == |cols|
  {}

  /** Any k of the n symbols of a legal code decode exactly when k or n - k is at most 3, or
      one is 4 and the other at most 21, or both are 5. */
  lemma AnyKOfNExact(k: nat, n: nat)
    requires k <= n <= 255
    ensures AnyKOfN(k, n) <==> GoodSize(k, n - k)
  {
    hide AnyKOfN, NoDegenerate, GoodSize;
    AnyKOfNIsMinors(k, n);
    SizesExact(k, n - k);
  }

  // ---------- the codec ----------

  /** Every list of k different encoded symbols decodes to the block. */
  ghost predicate AnyKDecode(block: Bytes, size: nat, wanted: int)
    requires size >= 1
  {
    forall received :: FromEncoder(1, received, block, size, wanted) && |received| == SymbolCount(|block|, size)
                       && Distinct(Indices(received)) ==>
      Readable(received, size, SymbolCount(|block|, size)) && Decode(1, received, size, |block|) == Some(block)
  }

  lemma IndicesAreKOfN(received: seq<Symbol>, block: Bytes, size: nat, wanted: int)
    requires size >= 1 && FromEncoder(1, received, block, size, wanted)
    requires |received| == SymbolCount(|block|, size) && Distinct(Indices(received))
    ensures KOfN(SymbolCount(|block|, size), SymbolCount(|block|, size) + RepairCount(wanted), Indices(received))
  {
    hide EncodedSymbol;
    var k := SymbolCount(|block|, size);
    var n := k + RepairCount(wanted);
    forall i | 0 <= i < |received|
      ensures Indices(received)[i] < n
    {
      var t :| 0 <= t < n && received[i] == Encode(1, block, size, wanted).value[t];
      IndexOf(1, block, size, k, t);
    }
  }

  lemma IndexOf(w: bv8, block: Bytes, size: nat, k: nat, i: nat)
    ensures EncodedSymbol(w, block, size, k, i).index == i
  {}

  /** The encoded symbols of these indices. */
  lemma Picked(idx: seq<nat>, block: Bytes, size: nat, wanted: int) returns (received: seq<Symbol>)
    requires size >= 1 && Encode(1, block, size, wanted).Some?
    requires Below(idx, SymbolCount(|block|, size) + RepairCount(wanted))
    ensures FromEncoder(1, received, block, size, wanted) && Indices(received) == idx
  {
    hide EncodedSymbol;
    var sent := Encode(1, block, size, wanted).value;
    received := seq(|idx|, i requires 0 <= i < |idx| => sent[idx[i]]);
    forall i | 0 <= i < |idx|
      ensures received[i] in sent && received[i].index == idx[i]
    {
      IndexOf(1, block, size, SymbolCount(|block|, size), idx[i]);
    }
  }

  lemma DecodesWhenAny(received: seq<Symbol>, block: Bytes, size: nat, wanted: int)
    requires size >= 1 && FromEncoder(1, received, block, size, wanted)
    requires |received| == SymbolCount(|block|, size) && Distinct(Indices(received))
    requires AnyKOfN(SymbolCount(|block|, size), SymbolCount(|block|, size) + RepairCount(wanted))
    ensures Readable(received, size, SymbolCount(|block|, size))
    ensures Decode(1, received, size, |block|) == Some(block)
  {
    hide Decode, FromEncoder, Readable, Singular, Selected, KOfN;
    DecodeExact(received, block, size, wanted);
    IndicesAreKOfN(received, block, size, wanted);
  }

  lemma SomeSingular(k: nat, n: nat) returns (idx: seq<nat>)
    requires !AnyKOfN(k, n)
    ensures KOfN(k, n, idx) && Singular(Selected(k, idx), k)
  {
    hide Singular;
    idx :| KOfN(k, n, idx) && Singular(Selected(k, idx), k);
  }

  /** With the repaired table, any k of the encoded symbols of a block decode to it exactly for
      the sizes above. */
  lemma AnyKDecodeExact(block: Bytes, size: nat, wanted: int)
    requires size >= 1 && Encode(1, block, size, wanted).Some?
    ensures AnyKDecode(block, size, wanted) <==> GoodSize(SymbolCount(|block|, size), RepairCount(wanted))
  {
    hide Decode, FromEncoder, Readable, Singular, Selected, GoodSize, RepairCount, EncodedSymbols;
    var k, n := SymbolCount(|block|, size), SymbolCount(|block|, size) + RepairCount(wanted);
    AnyKOfNExact(k, n);
    if AnyKOfN(k, n) {
      forall received | FromEncoder(1, received, block, size, wanted) && |received| == k && Distinct(Indices(received))
        ensures Readable(received, size, k) && Decode(1, received, size, |block|) == Some(block)
      {
        DecodesWhenAny(received, block, size, wanted);
      }
    } else {
      var idx := SomeSingular(k, n);
      var received := Picked(idx, block, size, wanted);
      assert |received| == |Indices(received)| == k;
      DecodeExact(received, block, size, wanted);
    }
  }
}
