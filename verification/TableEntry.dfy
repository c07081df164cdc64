/** Which byte the codec needs in exp entry 255: each property below holds of all inputs exactly
    when the entry is 1. */
module TableEntry {
  import opened Options
  import opened Bytes
  import opened GaloisField
  import opened LinearAlgebra
  import opened GaussJordan
  import opened Recovery
  import opened ReedSolomon

  // ---------- the field laws ----------

  ghost predicate Associative(w: bv8) {
    forall a, b, c :: TableMul(w, a, TableMul(w, b, c)) == TableMul(w, TableMul(w, a, b), c)
  }

  ghost predicate Distributive(w: bv8) {
    forall a, b, c :: TableMul(w, a, Add(b, c)) == Add(TableMul(w, a, b), TableMul(w, a, c))
  }

  ghost predicate HasInverses(w: bv8) {
    forall a :: a != 0 ==> TableMul(w, a, TableInv(w, a)) == 1
  }

  lemma LogsOf(i: nat)
    requires i < 255
    ensures Pow(i) != 0 && Log(Pow(i)) == i
  {
    PowNonzero(i);
    LogPow(i);
  }

  /** The product of 2 and its inverse reads the entry; the neighbouring products do not. */
  lemma EntryProducts(w: bv8)
    ensures TableMul(w, Pow(1), Pow(254)) == w
    ensures TableMul(w, Pow(254), Pow(2)) == Pow(1) && TableMul(w, Pow(1), Pow(1)) == Pow(2)
  {
    LogsOf(1);
    LogsOf(2);
    LogsOf(254);
    PowEqual(256, 1);
  }

  /** Multiplying by a power below the last fixes it only for the factor 1. */
  lemma FixedPower(w: bv8, i: nat)
    requires 0 < i < 127
    ensures TableMul(w, w, Pow(i)) == Pow(i) <==> w == 1
  {
    LogsOf(i);
    TableMulOne(w, Pow(i));
    if w != 0 && w != 1 {
      LogPow(0);
      var n := Log(w);
      assert Pow(n) == w;
      assert n != 0;
      PowEqual(n + i, i);
      PowEqual(n, i);
      PowEqual(n, 255);
    }
  }

  lemma AssociativeNeedsOne(w: bv8)
    ensures Associative(w) <==> w == 1
  {
    if w == 1 {
      forall a, b, c
        ensures TableMul(1, a, TableMul(1, b, c)) == TableMul(1, TableMul(1, a, b), c)
      {
        MulAssoc(a, b, c);
      }
    } else {
      EntryProducts(w);
      FixedPower(w, 2);
    }
  }

  lemma DistributiveNeedsOne(w: bv8)
    ensures Distributive(w) <==> w == 1
  {
    if w == 1 {
      forall a, b, c
        ensures TableMul(1, a, Add(b, c)) == Add(TableMul(1, a, b), TableMul(1, a, c))
      {
        MulAdd(a, b, c);
      }
    } else {
      SumAvoidsEntry(w);
    }
  }

  /** 2*(b + 1) with 2*b in the entry: only the product 2*b reads it. */
  lemma SumAvoidsEntry(w: bv8)
    requires w != 1
    ensures var a, b, c: bv8 := Pow(1), Pow(254), 1;
      TableMul(w, a, Add(b, c)) != Add(TableMul(w, a, b), TableMul(w, a, c))
  {
    hide Add, TableMul;
    var a, b, c: bv8 := Pow(1), Pow(254), 1;
    EntryProducts(w);
    EntryProducts(1);
    PowEqual(254, 0);
    AddZeroIff(b, c);
    AddCancelsOne(b);
    SameAsField(w, a, Add(b, c));
    SameAsField(w, a, c);
    MulAdd(a, b, c);
    AddCancel(w, TableMul(w, a, c));
    AddDistinct(w, 1, TableMul(w, a, c));
  }

  lemma AddCancelsOne(b: bv8)
    ensures Add(b, 1) != b
  {}

  lemma AddDistinct(p: bv8, q: bv8, r: bv8)
    ensures Add(p, r) == Add(q, r) <==> p == q
  {}

  /** A product with 2 reads the entry only for Pow(254). */
  lemma SameAsField(w: bv8, a: bv8, b: bv8)
    requires a == Pow(1) && b != Pow(254)
    ensures TableMul(w, a, b) == Mul(a, b)
  {
    LogsOf(1);
    if b != 0 {
      LogPow(0);
      assert Pow(Log(b)) == b;
    }
  }

  lemma InversesNeedOne(w: bv8)
    ensures HasInverses(w) <==> w == 1
  {
    if w == 1 {
      forall a: bv8 | a != 0
        ensures TableMul(1, a, TableInv(1, a)) == 1
      {
        MulInverse(a);
      }
    } else {
      LogPow(0);
      TableMulOne(w, TableInv(w, 1));
      assert TableMul(w, 1, TableInv(w, 1)) == w;
    }
  }

  // ---------- the inverter ----------

  /** Whatever it returns is the inverse, over the field. */
  ghost predicate Sound(w: bv8) {
    forall m, k :: IsMatrix(m, k) && Invert(w, m, k).Some? ==> Product(Invert(w, m, k).value, m, k) == Identity(k)
  }

  /** It fails on the singular matrices, and on no others. */
  ghost predicate Complete(w: bv8) {
    forall m, k :: IsMatrix(m, k) ==> (Invert(w, m, k).None? <==> Singular(m, k))
  }

  lemma InvertOne(w: bv8)
    ensures Invert(w, Identity(1), 1) == Some([[w]])
  {
    LogPow(0);
    var s := System(Identity(1), Identity(1));
    assert Identity(1)[0] == [1];
    assert s.a == [[1]] && s.b == [[1]];
    assert FindPivot(s.a, 1, 0, 0) == 0;
    var s1 := Swapped(s, 1, 0, 0);
    assert s1 == s;
    assert TableInv(w, 1) == w;
    assert ScaleRow(w, [1], w) == [w];
    var s2 := Scaled(w, s1, 1, 0);
    assert s2.b == [[w]];
    assert Eliminated(w, s2, 1, 0).b == [[w]];
    var next := RunUnfold(w, s, 1, 0);
  }

  lemma SoundNeedsOne(w: bv8)
    ensures Sound(w) <==> w == 1
  {
    if w == 1 {
      forall m, k | IsMatrix(m, k) && Invert(w, m, k).Some?
        ensures Product(Invert(w, m, k).value, m, k) == Identity(k)
      {
        InvertIsInverse(m, k);
      }
    } else {
      InvertOne(w);
      OneByOneProduct(w);
      assert IsMatrix(Identity(1), 1);
    }
  }

  lemma OneByOneProduct(w: bv8)
    requires w != 1
    ensures Product([[w]], Identity(1), 1) != Identity(1)
  {
    var u := Column(Identity(1), 1, 0);
    assert u == [1];
    MulBasics(w, 1);
    AddBasics(w, 0);
    assert Dot(1, [w], u, 0) == 0;
    assert Dot(1, [w], u, 1) == w;
    assert Product([[w]], Identity(1), 1)[0][0] == w;
    assert Identity(1)[0][0] == 1;
  }

  /** The rows of repair symbol 2 of a two-symbol block, received twice. */
  const REPEATED: Matrix := [[1, 2], [1, 2]]

  /** Unless the entry is 1, the first pass misses the entry below its pivot, and the second
      finds a pivot that is not there. */
  lemma RepeatedAccepted(w: bv8)
    requires w != 1
    ensures Invert(w, REPEATED, 2).Some?
  {
    var s := System(REPEATED, Identity(2));
    RepeatedStep(w, s);
    var next := RunUnfold(w, s, 2, 0);
    assert FindPivot(next.a, 2, 1, 1) == 1;
    var end := RunUnfold(w, next, 2, 1);
  }

  lemma RepeatedStep(w: bv8, s: System)
    requires w != 1 && s == System(REPEATED, Identity(2)) && IsSystem(s, 2)
    ensures Step(w, s, 2, 0).Some? && Step(w, s, 2, 0).value.a[1][1] != 0
  {
    assert FindPivot(s.a, 2, 0, 0) == 0;
    var s1 := Swapped(s, 2, 0, 0);
    assert s1 == s;
    LogPow(0);
    assert TableInv(w, 1) == w;
    var s2 := Scaled(w, s1, 2, 0);
    var p := TableMul(w, 2, w);
    assert s2.a[0][1] == p && s2.a[1] == [1, 2];
    TableMulOne(w, p);
    TableMulComm(w, 1, p);
    var s3 := Eliminated(w, s2, 2, 0);
    assert s3.a[1][1] == Add(2, p);
    TwoTimesEntry(w);
    AddZeroIff(2, p);
  }

  lemma TwoTimesEntry(w: bv8)
    requires w != 1
    ensures TableMul(w, 2, w) != 2
  {
    FixedPower(w, 1);
    TableMulComm(w, 2, w);
    assert Pow(1) == 2;
  }

  lemma RepeatedSingular()
    ensures Singular(REPEATED, 2)
  {
    EqualRowsFail(REPEATED, 2, 0, 1);
    InvertComplete(REPEATED, 2);
  }

  lemma CompleteNeedsOne(w: bv8)
    ensures Complete(w) <==> w == 1
  {
    if w == 1 {
      forall m, k | IsMatrix(m, k)
        ensures Invert(w, m, k).None? <==> Singular(m, k)
      {
        InvertComplete(m, k);
      }
    } else {
      RepeatedAccepted(w);
      RepeatedSingular();
      assert IsMatrix(REPEATED, 2);
    }
  }

  // ---------- the decoder ----------

  /** Two of the first k symbols carry the same index. */
  ghost predicate Repeats(symbols: seq<Symbol>, size: nat, len: nat) {
    && size >= 1 && SymbolCount(len, size) <= |symbols| && Readable(symbols, size, SymbolCount(len, size))
    && exists i: nat, j: nat :: i < j < SymbolCount(len, size) && symbols[i].index == symbols[j].index
  }

  ghost predicate RejectsRepeats(w: bv8) {
    forall symbols: seq<Symbol>, size: nat, len: nat ::
      Repeats(symbols, size, len) ==> Decode(w, symbols, size, len) == None
  }

  /** A block of two one-byte symbols, of which repair symbol 2 arrives twice. */
  lemma RepeatAccepted(w: bv8) returns (symbols: seq<Symbol>)
    requires w != 1
    ensures Repeats(symbols, 1, 2) && Decode(w, symbols, 1, 2).Some?
  {
    hide Invert, MatrixRow, Recovered, Dot;
    symbols := [Symbol(2, [7]), Symbol(2, [7])];
    assert SymbolCount(2, 1) == 2;
    assert symbols[0].index == symbols[1].index;
    RepairRowTwo();
    assert Indices(symbols) == [2, 2];
    assert Selected(2, Indices(symbols)) == REPEATED;
    RepeatedAccepted(w);
  }

  lemma RepairRowTwo()
    ensures MatrixRow(2, 2) == [1, 2]
  {
    assert Pow(0) == 1 && Pow(1) == 2;
    assert MatrixRow(2, 2) == [Entry(1, 0), Entry(1, 1)];
  }

  /** A repeated index always makes the decoder fail exactly when the entry is 1. */
  lemma RejectsRepeatsNeedsOne(w: bv8)
    ensures RejectsRepeats(w) <==> w == 1
  {
    if w == 1 {
      forall symbols: seq<Symbol>, size: nat, len: nat | Repeats(symbols, size, len)
        ensures Decode(w, symbols, size, len) == None
      {
        var i: nat, j: nat :| i < j < SymbolCount(len, size) && symbols[i].index == symbols[j].index;
        RepeatFails(symbols, size, len, i, j);
      }
    } else {
      var symbols := RepeatAccepted(w);
    }
  }

  /** The decoder never returns anything but the encoded block. */
  ghost predicate RoundTrips(w: bv8) {
    forall received, block, size: nat, wanted ::
      size >= 1 && FromEncoder(w, received, block, size, wanted) && SymbolCount(|block|, size) <= |received| ==>
        Readable(received, size, SymbolCount(|block|, size)) &&
        (Decode(w, received, size, |block|) == None || Decode(w, received, size, |block|) == Some(block))
  }

  /** Any k symbols of an encoded block are decoded to it, unless their rows are singular,
      and then refused. */
  ghost predicate DecodesExactly(w: bv8) {
    forall received, block, size: nat, wanted ::
      size >= 1 && FromEncoder(w, received, block, size, wanted) && SymbolCount(|block|, size) <= |received| ==>
        Readable(received, size, SymbolCount(|block|, size)) &&
        Decode(w, received, size, |block|)
          == if Singular(Selected(SymbolCount(|block|, size), Indices(received)), SymbolCount(|block|, size))
             then None else Some(block)
  }

  /** The first k symbols are sources and, for the lost ones, as many consecutive repairs. */
  ghost predicate MadeUp(received: seq<Symbol>, len: nat, size: nat) {
    size >= 1 && exists lost, first :: Received(SymbolCount(len, size), Indices(received), lost, first, 1)
  }

  /** Losses made up by consecutive repair symbols are always recovered. */
  ghost predicate RecoversLosses(w: bv8) {
    forall received, block, size: nat, wanted ::
      size >= 1 && FromEncoder(w, received, block, size, wanted) && MadeUp(received, |block|, size) ==>
        Readable(received, size, SymbolCount(|block|, size)) && Decode(w, received, size, |block|) == Some(block)
  }

  /** The one-byte block [1], received intact, decodes to the table entry w. */
  lemma OneByteBlock(w: bv8) returns (received: seq<Symbol>)
    ensures FromEncoder(w, received, [1], 1, 1) && |received| == 1 && Readable(received, 1, 1)
    ensures Decode(w, received, 1, 1) == Some([w]) && MadeUp(received, 1, 1)
  {
    var sent := Encode(w, [1], 1, 1).value;
    received := [sent[0]];
    assert received[0] == EncodedSymbol(w, [1], 1, 1, 0);
    assert received[0].data[0] == 1;
    assert Selected(1, Indices(received)) == Identity(1);
    InvertOne(w);
    LogPow(0);
    assert ReceivedStripe(received, 1, 0) == [1];
    AddBasics(TableMul(w, w, 1), 0);
    assert Dot(w, [w], [1], 1) == w;
    assert Decode(w, received, 1, 1).value == [w];
    assert SymbolCount(1, 1) == 1;
    assert Indices(received)[..1] == [0];
    assert Received(1, Indices(received), {}, 1, 1);
  }

  lemma RoundTripNeedsOne(w: bv8)
    ensures RoundTrips(w) <==> w == 1
  {
    if w == 1 {
      forall received, block, size: nat, wanted |
        size >= 1 && FromEncoder(w, received, block, size, wanted) && SymbolCount(|block|, size) <= |received|
        ensures Readable(received, size, SymbolCount(|block|, size))
        ensures Decode(w, received, size, |block|) == None || Decode(w, received, size, |block|) == Some(block)
      {
        DecodeExact(received, block, size, wanted);
      }
    } else {
      var received := OneByteBlock(w);
      assert SymbolCount(|[1 as bv8]|, 1) == 1;
      assert Decode(w, received, 1, |[1 as bv8]|) != Some([1]);
    }
  }

  lemma DecodesExactlyNeedsOne(w: bv8)
    ensures DecodesExactly(w) <==> w == 1
  {
    if w == 1 {
      forall received, block, size: nat, wanted |
        size >= 1 && FromEncoder(w, received, block, size, wanted) && SymbolCount(|block|, size) <= |received|
        ensures Readable(received, size, SymbolCount(|block|, size))
        ensures Decode(w, received, size, |block|)
          == if Singular(Selected(SymbolCount(|block|, size), Indices(received)), SymbolCount(|block|, size))
             then None else Some(block)
      {
        DecodeExact(received, block, size, wanted);
      }
    } else {
      var received := OneByteBlock(w);
      assert SymbolCount(|[1 as bv8]|, 1) == 1;
      assert Decode(w, received, 1, |[1 as bv8]|) == Some([w]);
    }
  }

  lemma RecoversLossesNeedsOne(w: bv8)
    ensures RecoversLosses(w) <==> w == 1
  {
    if w == 1 {
      forall received, block, size: nat, wanted |
        size >= 1 && FromEncoder(w, received, block, size, wanted) && MadeUp(received, |block|, size)
        ensures Readable(received, size, SymbolCount(|block|, size))
        ensures Decode(w, received, size, |block|) == Some(block)
      {
        var lost, first :| Received(SymbolCount(|block|, size), Indices(received), lost, first, 1);
        LossRecovery(received, block, size, wanted, lost, first);
      }
    } else {
      var received := OneByteBlock(w);
      assert SymbolCount(|[1 as bv8]|, 1) == 1;
      assert Decode(w, received, 1, |[1 as bv8]|) != Some([1]);
    }
  }
}
