/** The receiving order (RS decode, then authenticated decryption) applied to what the sender
    prepares: which blocks, and which whole files, come back. */
module EndToEnd {
  import opened Options
  import opened Bytes
  import opened ReedSolomon
  import opened Recovery
  import GaussJordan
  import opened MmapReader
  import Aead
  import ShippedTable

  /** Source symbols of a block of len bytes after encryption adds its tag. */
  function Needed(len: nat, size: nat): nat
    requires size >= 1
  {
    SymbolCount(len + 16, size)
  }

  ghost function ReceiveBlock(w: bv8, symbols: seq<Symbol>, size: nat, key: Bytes, b: nat, len: nat): Option<Bytes>
    requires size >= 1 && |key| == 32 && Readable(symbols, size, Needed(len, size))
  {
    match Decode(w, symbols, size, len + 16)
    case None => None
    case Some(enc) => Aead.Decrypt(enc, key, Aead.Nonce(b))
  }

  /** The first symbols leave the decoding matrix singular. */
  ghost predicate Stuck(symbols: seq<Symbol>, size: nat, len: nat)
    requires size >= 1
  {
    Needed(len, size) <= |symbols| &&
    GaussJordan.Singular(Selected(Needed(len, size), Indices(symbols)), Needed(len, size))
  }

  /** At least k symbols of the b-th block, in any order. */
  ghost predicate Enough(w: bv8, symbols: seq<Symbol>, block: Bytes, key: Bytes, b: nat, size: nat, wanted: int)
    requires size >= 1 && |key| == 32
  {
    && FromEncoder(w, symbols, Aead.Encrypt(block, key, Aead.Nonce(b)), size, wanted)
    && Needed(|block|, size) <= |symbols|
  }

  /** Through encryption, encoding, any loss and reordering, decoding and decryption, a block
      comes back unchanged exactly when the received rows are nonsingular. */
  lemma BlockRestoredExact(symbols: seq<Symbol>, block: Bytes, key: Bytes, b: nat, size: nat, wanted: int)
    requires size >= 1 && |key| == 32 && Enough(1, symbols, block, key, b, size, wanted)
    ensures Readable(symbols, size, Needed(|block|, size))
    ensures ReceiveBlock(1, symbols, size, key, b, |block|)
         == if Stuck(symbols, size, |block|) then None else Some(block)
  {
    hide Aead.Encrypt, Aead.Decrypt, FromEncoder, Readable, Decode;
    DecodeExact(symbols, Aead.Encrypt(block, key, Aead.Nonce(b)), size, wanted);
    Aead.DecryptExact(Aead.Encrypt(block, key, Aead.Nonce(b)), block, key, Aead.Nonce(b));
  }

  /** With any source symbols lost and as many consecutive repair symbols held, in any order,
      the block always comes back. */
  lemma BlockSurvivesLoss(symbols: seq<Symbol>, block: Bytes, key: Bytes, b: nat, size: nat, wanted: int,
                          lost: set<nat>, first: nat)
    requires size >= 1 && |key| == 32 && Enough(1, symbols, block, key, b, size, wanted)
    requires Received(Needed(|block|, size), Indices(symbols), lost, first, 1)
    ensures Readable(symbols, size, Needed(|block|, size))
    ensures ReceiveBlock(1, symbols, size, key, b, |block|) == Some(block)
  {
    hide ReceiveBlock, Received, GaussJordan.Singular, Selected;
    BlockRestoredExact(symbols, block, key, b, size, wanted);
    ConsecutiveRecovers(Needed(|block|, size), Indices(symbols), lost, first);
  }

  /** On the shipped table, a block whose source symbols all arrive, in any order, comes back
      exactly when its ciphertext and tag happen to be all zeros. */
  lemma BlockShippedExact(symbols: seq<Symbol>, block: Bytes, key: Bytes, b: nat, size: nat, wanted: int)
    requires size >= 1 && |key| == 32 && Enough(0, symbols, block, key, b, size, wanted)
    requires ShippedTable.SourcesOnly(Needed(|block|, size), Indices(symbols))
    ensures Readable(symbols, size, Needed(|block|, size))
    ensures ReceiveBlock(0, symbols, size, key, b, |block|) == Some(block)
        <==> Aead.Encrypt(block, key, Aead.Nonce(b)) == Zeros(|block| + 16)
  {
    hide Aead.Encrypt, Aead.Decrypt, Decode;
    var enc := Aead.Encrypt(block, key, Aead.Nonce(b));
    FromEncoderReadable(0, symbols, enc, size, wanted, Needed(|block|, size));
    ShippedTable.SourcesShipped(symbols, size, |block| + 16);
    Aead.DecryptExact(Zeros(|block| + 16), block, key, Aead.Nonce(b));
  }

  /** On the shipped table, no reception of any symbols, lost, repeated or reordered, returns a
      block whose ciphertext is not all zeros on its first symbol. */
  lemma BlockShippedBound(symbols: seq<Symbol>, block: Bytes, key: Bytes, b: nat, size: nat, len: nat, q: nat)
    requires size >= 1 && |key| == 32 && Readable(symbols, size, Needed(len, size))
    requires ReceiveBlock(0, symbols, size, key, b, len) == Some(block)
    requires q < size && q < len + 16
    ensures |block| == len && Aead.Encrypt(block, key, Aead.Nonce(b))[q] == 0
  {
    hide Aead.Encrypt, Aead.Decrypt, Decode, Readable;
    var enc := Decode(0, symbols, size, len + 16).value;
    Aead.DecryptExact(enc, block, key, Aead.Nonce(b));
    DecodedLength(symbols, size, len + 16);
    ShippedTable.FirstSymbolErased(symbols, size, len + 16, q);
  }

  lemma DecodedLength(symbols: seq<Symbol>, size: nat, len: nat)
    requires size >= 1 && Readable(symbols, size, SymbolCount(len, size))
    requires Decode(0, symbols, size, len).Some?
    ensures |Decode(0, symbols, size, len).value| == len
  {}

  // ---------- whole files ----------

  /** What a receiver that knows the file size expects of block b. */
  function BlockLength(fileSize: nat, blockSize: nat, b: nat): nat {
    if b * blockSize < fileSize then Min(blockSize, fileSize - b * blockSize) else 0
  }

  lemma BlockLengthIs(file: Bytes, blockSize: nat, b: nat)
    ensures |Block(file, b, blockSize).GetOr([])| == BlockLength(|file|, blockSize, b)
  {}

  ghost predicate AllReadable(received: seq<seq<Symbol>>, size: nat, blockSize: nat, fileSize: nat)
    requires size >= 1
  {
    forall b: nat :: b < |received| ==> Readable(received[b], size, Needed(BlockLength(fileSize, blockSize, b), size))
  }

  /** The first n blocks received and joined; None once a block cannot be decoded. */
  ghost function Rejoined(received: seq<seq<Symbol>>, size: nat, key: Bytes, blockSize: nat, fileSize: nat,
                          n: nat): Option<Bytes>
    requires size >= 1 && |key| == 32 && n <= |received| && AllReadable(received, size, blockSize, fileSize)
  {
    if n == 0 then Some([])
    else
      match (Rejoined(received, size, key, blockSize, fileSize, n - 1),
             ReceiveBlock(1, received[n - 1], size, key, n - 1, BlockLength(fileSize, blockSize, n - 1)))
      case (Some(before), Some(block)) => Some(before + block)
      case _ => None
  }

  /** Enough symbols of every block. */
  ghost predicate EnoughOfAll(received: seq<seq<Symbol>>, file: Bytes, key: Bytes, blockSize: nat,
                              size: nat, wanted: int)
    requires size >= 1 && |key| == 32
  {
    forall b: nat :: b < |received| ==>
      Enough(1, received[b], Block(file, b, blockSize).GetOr([]), key, b, size, wanted)
  }

  ghost predicate StuckBelow(received: seq<seq<Symbol>>, size: nat, blockSize: nat, fileSize: nat, n: nat)
    requires size >= 1 && n <= |received|
  {
    exists b: nat :: b < n && Stuck(received[b], size, BlockLength(fileSize, blockSize, b))
  }

  lemma NoneStuck(received: seq<seq<Symbol>>, size: nat, blockSize: nat, fileSize: nat)
    requires size >= 1
    ensures !StuckBelow(received, size, blockSize, fileSize, 0)
  {}

  lemma StuckBelowStep(received: seq<seq<Symbol>>, size: nat, blockSize: nat, fileSize: nat, n: nat)
    requires size >= 1 && 0 < n <= |received|
    ensures StuckBelow(received, size, blockSize, fileSize, n)
        <==> (StuckBelow(received, size, blockSize, fileSize, n - 1)
              || Stuck(received[n - 1], size, BlockLength(fileSize, blockSize, n - 1)))
  {
    hide Stuck, BlockLength;
  }

  lemma ReceivedBlock(received: seq<seq<Symbol>>, file: Bytes, key: Bytes, blockSize: nat,
                      size: nat, wanted: int, b: nat)
    requires size >= 1 && |key| == 32 && EnoughOfAll(received, file, key, blockSize, size, wanted) && b < |received|
    ensures Readable(received[b], size, Needed(BlockLength(|file|, blockSize, b), size))
    ensures ReceiveBlock(1, received[b], size, key, b, BlockLength(|file|, blockSize, b))
         == if Stuck(received[b], size, BlockLength(|file|, blockSize, b)) then None
            else Some(Block(file, b, blockSize).GetOr([]))
  {
    hide Enough, Readable, Block, BlockLength, Stuck, ReceiveBlock;
    BlockLengthIs(file, blockSize, b);
    BlockRestoredExact(received[b], Block(file, b, blockSize).GetOr([]), key, b, size, wanted);
  }

  lemma AllReadableFromEnough(received: seq<seq<Symbol>>, file: Bytes, key: Bytes, blockSize: nat,
                              size: nat, wanted: int)
    requires size >= 1 && |key| == 32 && EnoughOfAll(received, file, key, blockSize, size, wanted)
    ensures AllReadable(received, size, blockSize, |file|)
  {
    hide EnoughOfAll, Readable, BlockLength;
    forall b: nat | b < |received|
      ensures Readable(received[b], size, Needed(BlockLength(|file|, blockSize, b), size))
    {
      ReceivedBlock(received, file, key, blockSize, size, wanted, b);
    }
  }

  lemma {:induction false} PrefixRestored(received: seq<seq<Symbol>>, file: Bytes, key: Bytes, blockSize: nat,
                                          size: nat, wanted: int, n: nat)
    requires size >= 1 && |key| == 32 && EnoughOfAll(received, file, key, blockSize, size, wanted) && n <= |received|
    requires AllReadable(received, size, blockSize, |file|)
    ensures Rejoined(received, size, key, blockSize, |file|, n)
         == if StuckBelow(received, size, blockSize, |file|, n) then None else Some(Joined(file, blockSize, n))
  {
    hide EnoughOfAll, StuckBelow, Block, BlockLength, Stuck, ReceiveBlock;
    if n > 0 {
      PrefixRestored(received, file, key, blockSize, size, wanted, n - 1);
      ReceivedBlock(received, file, key, blockSize, size, wanted, n - 1);
      StuckBelowStep(received, size, blockSize, |file|, n);
    } else {
      NoneStuck(received, size, blockSize, |file|);
    }
  }

  /** End to end: whatever is lost and reordered, if at least k symbols of every block arrive,
      the joined blocks are the file exactly when no block is left with a singular matrix. */
  lemma FileRestoredExact(received: seq<seq<Symbol>>, file: Bytes, key: Bytes, blockSize: nat, size: nat, wanted: int)
    requires size >= 1 && blockSize >= 1 && |key| == 32
    requires (|file| + blockSize - 1) / blockSize < 0x1_0000_0000
    requires |received| == TotalBlocks(|file|, blockSize)
    requires EnoughOfAll(received, file, key, blockSize, size, wanted)
    ensures AllReadable(received, size, blockSize, |file|)
    ensures Rejoined(received, size, key, blockSize, |file|, |received|)
         == if StuckBelow(received, size, blockSize, |file|, |received|) then None else Some(file)
  {
    hide Rejoined, StuckBelow, EnoughOfAll, AllReadable;
    AllReadableFromEnough(received, file, key, blockSize, size, wanted);
    PrefixRestored(received, file, key, blockSize, size, wanted, |received|);
    PartitionExact(file, blockSize);
  }
}
