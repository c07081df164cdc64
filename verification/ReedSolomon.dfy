/** rs_encode and rs_decode as functions of the block, and the exact round-trip theorem. */
module ReedSolomon {
  import opened Options
  import opened Bytes
  import opened GaloisField
  import opened LinearAlgebra
  import opened GaussJordan
  import opened Recovery

  /** A FEC symbol; its `len` field is |data|. */
  datatype Symbol = Symbol(index: nat, data: Bytes)

  /** Source symbols of a block: the quotient rounded up. */
  function SymbolCount(len: nat, size: nat): nat
    requires size >= 1
  {
    (len + size - 1) / size
  }

  /** Byte p of source symbol c: a byte of the block, or padding past its end. */
  function SourceByte(block: Bytes, size: nat, c: nat, p: nat): bv8 {
    if c * size + p < |block| then block[c * size + p] else 0
  }

  /** Byte p of every source symbol. */
  function Stripe(block: Bytes, size: nat, k: nat, p: nat): Vec {
    seq(k, c requires 0 <= c => SourceByte(block, size, c, p))
  }

  ghost function EncodedSymbol(w: bv8, block: Bytes, size: nat, k: nat, i: nat): Symbol {
    Symbol(i, seq(size, p requires 0 <= p =>
      if i < k then SourceByte(block, size, i, p)
      else Dot(w, MatrixRow(k, i), Stripe(block, size, k, p), k)))
  }

  /** The first n symbols. */
  ghost function EncodedSymbols(w: bv8, block: Bytes, size: nat, k: nat, n: nat): seq<Symbol> {
    seq(n, i requires 0 <= i => EncodedSymbol(w, block, size, k, i))
  }

  /** `wanted` is (int)(k * repair_ratio); the source raises it to at least one. */
  function RepairCount(wanted: int): nat {
    if wanted < 1 then 1 else wanted
  }

  ghost function Encode(w: bv8, block: Bytes, size: nat, wanted: int): Option<seq<Symbol>>
    requires size >= 1
  {
    var k := SymbolCount(|block|, size);
    var n := k + RepairCount(wanted);
    if n > 255 then None
    else Some(EncodedSymbols(w, block, size, k, n))
  }

  function Indices(symbols: seq<Symbol>): seq<nat> {
    seq(|symbols|, i requires 0 <= i < |symbols| => symbols[i].index)
  }

  /** The first k symbols are whole and name rows of the decoder's 255-row matrix. */
  predicate Readable(symbols: seq<Symbol>, size: nat, k: nat) {
    k <= |symbols| ==> forall i :: 0 <= i < k ==> |symbols[i].data| >= size && symbols[i].index < 255
  }

  function ReceivedStripe(symbols: seq<Symbol>, k: nat, p: nat): Vec
    requires k <= |symbols| && forall i :: 0 <= i < k ==> p < |symbols[i].data|
  {
    seq(k, i requires 0 <= i < k => symbols[i].data[p])
  }

  lemma ProductLess(a: nat, k: nat, size: nat)
    requires a * size < k * size
    ensures a < k
  {}

  lemma DivModFacts(q: nat, size: nat, len: nat)
    requires size >= 1 && q < len
    ensures q / size < SymbolCount(len, size) && q % size < size && (q / size) * size + q % size == q
  {
    var k := SymbolCount(len, size);
    assert len <= k * size;
    ProductLess(q / size, k, size);
  }

  ghost function Recovered(w: bv8, inverse: Matrix, symbols: seq<Symbol>, size: nat, len: nat): Bytes
    requires size >= 1 && IsMatrix(inverse, SymbolCount(len, size))
    requires SymbolCount(len, size) <= |symbols| && Readable(symbols, size, SymbolCount(len, size))
  {
    var k := SymbolCount(len, size);
    seq(len, q requires 0 <= q < len =>
      DivModFacts(q, size, len);
      Dot(w, inverse[q / size], ReceivedStripe(symbols, k, q % size), k))
  }

  lemma RecoveredLength(w: bv8, inverse: Matrix, symbols: seq<Symbol>, size: nat, len: nat)
    requires size >= 1 && IsMatrix(inverse, SymbolCount(len, size))
    requires SymbolCount(len, size) <= |symbols| && Readable(symbols, size, SymbolCount(len, size))
    ensures |Recovered(w, inverse, symbols, size, len)| == len
  {}

  ghost function Decode(w: bv8, symbols: seq<Symbol>, size: nat, len: nat): Option<Bytes>
    requires size >= 1 && Readable(symbols, size, SymbolCount(len, size))
  {
    var k := SymbolCount(len, size);
    if |symbols| < k then None
    else
      var inverse := Invert(w, Selected(k, Indices(symbols)), k);
      if inverse.None? then None else Some(Recovered(w, inverse.value, symbols, size, len))
  }

  // ---------- what is sent ----------

  /** The data of the first n symbols, joined. */
  function Data(symbols: seq<Symbol>, n: nat): Bytes
    requires n <= |symbols|
  {
    if n == 0 then [] else Data(symbols, n - 1) + symbols[n - 1].data
  }

  function Padded(block: Bytes, size: nat): Bytes
    requires size >= 1
  {
    block + Zeros(PaddingLength(|block|, size))
  }

  function PaddingLength(len: nat, size: nat): nat
    requires size >= 1
  {
    SymbolsHold(len, size);
    SymbolCount(len, size) * size - len
  }

  /** The symbols hold the block, and one fewer would not. */
  lemma SymbolsHold(len: nat, size: nat)
    requires size >= 1
    ensures var k := SymbolCount(len, size); len <= k * size < len + size
  {}

  lemma SourceIsPadded(w: bv8, block: Bytes, size: nat, i: nat, p: nat)
    requires size >= 1 && i < SymbolCount(|block|, size) && p < size
    ensures i * size + p < |Padded(block, size)|
    ensures EncodedSymbol(w, block, size, SymbolCount(|block|, size), i).data[p] == Padded(block, size)[i * size + p]
  {
    hide SymbolCount;
    SymbolsHold(|block|, size);
    InPadded(i, SymbolCount(|block|, size), size, p);
  }

  lemma InPadded(i: nat, k: nat, size: nat, p: nat)
    requires i < k && p < size
    ensures i * size + p < k * size
  {
    assert (i + 1) * size <= k * size;
  }

  lemma NextPiece(n: nat, size: nat)
    ensures (n + 1) * size == n * size + size
  {}

  lemma {:induction false} JoinedData(w: bv8, block: Bytes, size: nat, symbols: seq<Symbol>, n: nat)
    requires size >= 1 && n <= SymbolCount(|block|, size) <= |symbols|
    requires forall i :: 0 <= i < SymbolCount(|block|, size) ==>
      symbols[i] == EncodedSymbol(w, block, size, SymbolCount(|block|, size), i)
    ensures n * size <= |Padded(block, size)| && Data(symbols, n) == Padded(block, size)[..n * size]
  {
    hide SymbolCount, EncodedSymbol, Padded;
    if n > 0 {
      JoinedData(w, block, size, symbols, n - 1);
      NextPiece(n - 1, size);
      var d := symbols[n - 1].data;
      SymbolSize(w, block, size, SymbolCount(|block|, size), n - 1);
      SourceIsPadded(w, block, size, n - 1, size - 1);
      forall p | 0 <= p < size
        ensures (n - 1) * size + p < |Padded(block, size)| && d[p] == Padded(block, size)[(n - 1) * size + p]
      {
        SourceIsPadded(w, block, size, n - 1, p);
      }
      assert Padded(block, size)[..n * size] == Padded(block, size)[..(n - 1) * size] + d;
    } else {
      assert n * size == 0;
    }
  }

  lemma SymbolSize(w: bv8, block: Bytes, size: nat, k: nat, i: nat)
    ensures |EncodedSymbol(w, block, size, k, i).data| == size && EncodedSymbol(w, block, size, k, i).index == i
  {}

  /** The encoder gives k + repair symbols, numbered from 0 and all of the symbol size; the
      first k, joined, are the block padded with zeros. */
  lemma SourcesExact(w: bv8, block: Bytes, size: nat, wanted: int)
    requires size >= 1 && Encode(w, block, size, wanted).Some?
    ensures var k, sent := SymbolCount(|block|, size), Encode(w, block, size, wanted).value;
      && |sent| == k + RepairCount(wanted) <= 255
      && (forall i :: 0 <= i < |sent| ==> sent[i].index == i && |sent[i].data| == size)
      && Data(sent, k) == block + Zeros(k * size - |block|)
  {
    hide EncodedSymbol, SymbolCount;
    var k, sent := SymbolCount(|block|, size), Encode(w, block, size, wanted).value;
    forall i | 0 <= i < |sent|
      ensures sent[i] == EncodedSymbol(w, block, size, k, i) && sent[i].index == i && |sent[i].data| == size
    {
      SymbolSize(w, block, size, k, i);
    }
    JoinedData(w, block, size, sent, k);
    SymbolsHold(|block|, size);
    assert Padded(block, size)[..k * size] == Padded(block, size);
  }

  /** Byte p of every source symbol, in the padded block. */
  function PaddedStripe(block: Bytes, size: nat, p: nat): Vec
    requires size >= 1 && p < size
  {
    seq(SymbolCount(|block|, size), c requires 0 <= c < SymbolCount(|block|, size) =>
      SourceIsPadded(0, block, size, c, p);
      Padded(block, size)[c * size + p])
  }

  /** A repair symbol is its row of generator powers applied to the padded block. */
  lemma RepairExact(w: bv8, block: Bytes, size: nat, wanted: int, i: nat, p: nat)
    requires size >= 1 && Encode(w, block, size, wanted).Some? && p < size
    requires SymbolCount(|block|, size) <= i < SymbolCount(|block|, size) + RepairCount(wanted)
    ensures var k := SymbolCount(|block|, size);
      Encode(w, block, size, wanted).value[i].data[p]
        == Dot(w, RepairRow(k, i - k + 1), PaddedStripe(block, size, p), k)
  {
    hide Dot, SymbolCount;
    var k := SymbolCount(|block|, size);
    forall c | 0 <= c < k
      ensures Stripe(block, size, k, p)[c] == PaddedStripe(block, size, p)[c]
    {
      SourceIsPadded(w, block, size, c, p);
    }
    assert Stripe(block, size, k, p) == PaddedStripe(block, size, p);
  }

  // ---------- the round trip ----------

  /** `received` holds symbols of the encoded block, in any order, repeats allowed. */
  ghost predicate FromEncoder(w: bv8, received: seq<Symbol>, block: Bytes, size: nat, wanted: int)
    requires size >= 1
  {
    && Encode(w, block, size, wanted).Some?
    && forall i :: 0 <= i < |received| ==> received[i] in Encode(w, block, size, wanted).value
  }

  lemma EncodedShape(w: bv8, received: seq<Symbol>, block: Bytes, size: nat, wanted: int, i: nat)
    requires size >= 1 && FromEncoder(w, received, block, size, wanted) && i < |received|
    ensures received[i] == EncodedSymbol(w, block, size, SymbolCount(|block|, size), received[i].index)
    ensures received[i].index < 255
  {}

  lemma FromEncoderReadable(w: bv8, received: seq<Symbol>, block: Bytes, size: nat, wanted: int, k: nat)
    requires size >= 1 && FromEncoder(w, received, block, size, wanted)
    ensures Readable(received, size, k)
  {}

  /** Every encoded byte, source or repair, is its matrix row applied to the stripe. */
  lemma EncodedByte(block: Bytes, size: nat, k: nat, i: nat, p: nat)
    requires p < size
    ensures EncodedSymbol(1, block, size, k, i).data[p] == Dot(1, MatrixRow(k, i), Stripe(block, size, k, p), k)
  {
    if i < k {
      DotUnit(k, i, Stripe(block, size, k, p));
    }
  }

  /** At every byte position the received symbols are m applied to the block's stripe. */
  ghost predicate Consistent(symbols: seq<Symbol>, block: Bytes, size: nat, k: nat, m: Matrix)
    requires k <= |symbols| && IsMatrix(m, k) && Readable(symbols, size, k)
  {
    forall p: nat :: p < size ==> Apply(1, m, Stripe(block, size, k, p)) == ReceivedStripe(symbols, k, p)
  }

  lemma FromEncoderConsistent(received: seq<Symbol>, block: Bytes, size: nat, wanted: int, k: nat)
    requires size >= 1 && FromEncoder(1, received, block, size, wanted)
    requires k == SymbolCount(|block|, size) <= |received| && Readable(received, size, k)
    ensures Consistent(received, block, size, k, Selected(k, Indices(received)))
  {
    forall p: nat | p < size
      ensures Apply(1, Selected(k, Indices(received)), Stripe(block, size, k, p)) == ReceivedStripe(received, k, p)
    {
      forall i | 0 <= i < k
        ensures received[i].data[p] == Dot(1, MatrixRow(k, received[i].index), Stripe(block, size, k, p), k)
      {
        EncodedShape(1, received, block, size, wanted, i);
        EncodedByte(block, size, k, received[i].index, p);
      }
    }
  }

  lemma StripeRecovered(m: Matrix, k: nat, inverse: Matrix, x: Vec, y: Vec, c: nat)
    requires IsMatrix(m, k) && |x| == |y| == k && c < k
    requires Invert(1, m, k) == Some(inverse) && Apply(1, m, x) == y
    ensures Dot(1, inverse[c], y, k) == x[c]
  {
    InvertSound(m, k, x, y);
    assert Apply(1, inverse, y)[c] == x[c];
  }

  lemma RecoveredByte(symbols: seq<Symbol>, block: Bytes, size: nat, k: nat, m: Matrix, inverse: Matrix, q: nat)
    requires size >= 1 && k == SymbolCount(|block|, size) <= |symbols| && Readable(symbols, size, k)
    requires IsMatrix(m, k) && Invert(1, m, k) == Some(inverse) && Consistent(symbols, block, size, k, m)
    requires q < |block|
    ensures Recovered(1, inverse, symbols, size, |block|)[q] == block[q]
  {
    hide Dot, Invert;
    DivModFacts(q, size, |block|);
    var c, p := q / size, q % size;
    StripeRecovered(m, k, inverse, Stripe(block, size, k, p), ReceivedStripe(symbols, k, p), c);
    assert Stripe(block, size, k, p)[c] == block[q];
  }

  lemma RecoveredIsBlock(symbols: seq<Symbol>, block: Bytes, size: nat, k: nat, m: Matrix, inverse: Matrix)
    requires size >= 1 && k == SymbolCount(|block|, size) <= |symbols| && Readable(symbols, size, k)
    requires IsMatrix(m, k) && Invert(1, m, k) == Some(inverse) && Consistent(symbols, block, size, k, m)
    ensures Recovered(1, inverse, symbols, size, |block|) == block
  {
    forall q | 0 <= q < |block|
      ensures Recovered(1, inverse, symbols, size, |block|)[q] == block[q]
    {
      RecoveredByte(symbols, block, size, k, m, inverse, q);
    }
  }

  /** With the repaired table, decoding any k or more encoded symbols returns the block,
      padding removed, exactly when the selected matrix is nonsingular, and fails otherwise. */
  lemma DecodeExact(received: seq<Symbol>, block: Bytes, size: nat, wanted: int)
    requires size >= 1 && FromEncoder(1, received, block, size, wanted)
    requires SymbolCount(|block|, size) <= |received|
    ensures Readable(received, size, SymbolCount(|block|, size))
    ensures Decode(1, received, size, |block|)
         == if Singular(Selected(SymbolCount(|block|, size), Indices(received)), SymbolCount(|block|, size))
            then None else Some(block)
  {
    var k := SymbolCount(|block|, size);
    FromEncoderReadable(1, received, block, size, wanted, k);
    var m := Selected(k, Indices(received));
    InvertComplete(m, k);
    if Invert(1, m, k).Some? {
      FromEncoderConsistent(received, block, size, wanted, k);
      RecoveredIsBlock(received, block, size, k, m, Invert(1, m, k).value);
    }
  }

  /** Exact loss recovery for repair symbols in progression of step d: the decoder returns
      the block unless 255 divides d*(c'-c) for two lost columns, and then it fails. */
  lemma ProgressionRecovery(received: seq<Symbol>, block: Bytes, size: nat, wanted: int,
                            lost: set<nat>, first: nat, d: nat)
    requires size >= 1 && FromEncoder(1, received, block, size, wanted)
    requires Received(SymbolCount(|block|, size), Indices(received), lost, first, d)
    ensures Readable(received, size, SymbolCount(|block|, size))
    ensures Decode(1, received, size, |block|) == if Ambiguous(lost, d) then None else Some(block)
  {
    DecodeExact(received, block, size, wanted);
    ProgressionExact(SymbolCount(|block|, size), Indices(received), lost, first, d);
  }

  /** Loss recovery: losing any set of source symbols and holding as many repair symbols
      with consecutive indices, in any order, always gives back the block. */
  lemma LossRecovery(received: seq<Symbol>, block: Bytes, size: nat, wanted: int, lost: set<nat>, first: nat)
    requires size >= 1 && FromEncoder(1, received, block, size, wanted)
    requires Received(SymbolCount(|block|, size), Indices(received), lost, first, 1)
    ensures Readable(received, size, SymbolCount(|block|, size))
    ensures Decode(1, received, size, |block|) == Some(block)
  {
    DecodeExact(received, block, size, wanted);
    ConsecutiveRecovers(SymbolCount(|block|, size), Indices(received), lost, first);
  }

  /** With the repaired table, a repeated index among the first k received symbols makes the
      decoder fail. */
  lemma RepeatFails(symbols: seq<Symbol>, size: nat, len: nat, i: nat, j: nat)
    requires size >= 1 && Readable(symbols, size, SymbolCount(len, size))
    requires i < j < SymbolCount(len, size) <= |symbols| && symbols[i].index == symbols[j].index
    ensures Decode(1, symbols, size, len) == None
  {
    EqualRowsFail(Selected(SymbolCount(len, size), Indices(symbols)), SymbolCount(len, size), i, j);
  }
}
