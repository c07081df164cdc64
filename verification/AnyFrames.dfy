/** When any k of the frames of a file are enough: the sender's own repair count. */
module AnyFrames {
  import opened Options
  import opened Bytes
  import opened ReedSolomon
  import opened Protocol
  import opened SendThread
  import opened SendTrace
  import opened EndToEnd
  import opened Sufficiency
  import opened Minors
  import opened MinorSizes
  import Aead
  import GaussJordan
  import Recovery

  const ANY_K_ENCRYPTED := 29400  // 21 symbols of 1400 bytes

  function Sources(len: nat): nat {
    SymbolCount(len, SYMBOL_SIZE)
  }

  function Sent(len: nat): nat {
    Sources(len) + RepairCount(WantedRepairs(len))
  }

  /** With one repair symbol for five source symbols, and at least one, any k of the n symbols
      of an encrypted block are enough exactly up to 21 source symbols. */
  lemma SenderAnyK(len: nat)
    requires len <= LARGEST_ENCRYPTED
    ensures AnyKOfN(Sources(len), Sent(len)) <==> len <= ANY_K_ENCRYPTED
  {
    hide AnyKOfN;
    AnyKOfNExact(Sources(len), Sent(len));
  }

  /** k frames of the file's one block, all with different symbol indices. */
  ghost predicate DifferentFrames(ds: seq<Bytes>, mode: bv8, file: Bytes, key: Bytes, id: u32)
    requires |key| == 32
  {
    && |ds| == Needed(|file|, SYMBOL_SIZE) && Distinct(Indices(Collect(ds)))
    && forall i :: 0 <= i < |ds| ==> Carries(ds[i], 1, mode, file, key, id, 0)
  }

  /** Whichever such frames arrive, in whatever order, the file comes back. */
  ghost predicate AnyFramesDeliver(mode: bv8, file: Bytes, key: Bytes, id: u32)
    requires |key| == 32
  {
    forall ds :: DifferentFrames(ds, mode, file, key, id) ==>
      Readable(Collect(ds), SYMBOL_SIZE, Needed(|file|, SYMBOL_SIZE)) &&
      ReceiveBlock(1, Collect(ds), SYMBOL_SIZE, key, 0, |file|) == Some(file)
  }

  lemma SomeNeeded(len: nat)
    ensures Needed(len, SYMBOL_SIZE) > 0
  {}

  lemma FileCollected(ds: seq<Bytes>, mode: bv8, file: Bytes, key: Bytes, id: u32)
    requires |key| == 32 && 0 < |file| && |file| + 16 <= LARGEST_ENCRYPTED
    requires DifferentFrames(ds, mode, file, key, id)
    ensures FromEncoder(1, Collect(ds), Aead.Encrypt(file, key, Aead.Nonce(0)), SYMBOL_SIZE, WantedRepairs(|file| + 16))
  {
    hide Carries, SymbolOf, BlockAt, FromEncoder, Distinct, EncryptedBlock, Collect, Indices, Needed, Aead.Encrypt;
    FirstBlock(file);
    assert BlockAt(file, 0) == file;
    SomeNeeded(|file|);
    EncryptedBlockIs(file, key, 0);
    CollectedFromEncoder(ds, 1, mode, file, key, id, 0);
  }

  lemma FileDatagrams(ds: seq<Bytes>, mode: bv8, file: Bytes, key: Bytes, id: u32)
    requires |key| == 32 && 0 < |file| && |file| + 16 <= LARGEST_ENCRYPTED
    requires DifferentFrames(ds, mode, file, key, id)
    ensures KOfN(Sources(|file| + 16), Sent(|file| + 16), Indices(Collect(ds)))
    ensures Readable(Collect(ds), SYMBOL_SIZE, Needed(|file|, SYMBOL_SIZE))
    ensures ReceiveBlock(1, Collect(ds), SYMBOL_SIZE, key, 0, |file|)
         == if Stuck(Collect(ds), SYMBOL_SIZE, |file|) then None else Some(file)
  {
    hide ReceiveBlock, Readable, FromEncoder, Stuck, KOfN, DifferentFrames, Collect, Indices, Distinct, Aead.Encrypt;
    FileCollected(ds, mode, file, key, id);
    FramesLength(ds, mode, file, key, id);
    var enc := Aead.Encrypt(file, key, Aead.Nonce(0));
    IndicesAreKOfN(Collect(ds), enc, SYMBOL_SIZE, WantedRepairs(|file| + 16));
    BlockRestoredExact(Collect(ds), file, key, 0, SYMBOL_SIZE, WantedRepairs(|file| + 16));
  }

  lemma StuckIsSingular(symbols: seq<Symbol>, len: nat)
    requires |symbols| == Sources(len + 16)
    ensures Stuck(symbols, SYMBOL_SIZE, len)
        <==> GaussJordan.Singular(Recovery.Selected(Sources(len + 16), Indices(symbols)), Sources(len + 16))
  {
    hide GaussJordan.Singular, Recovery.Selected;
  }

  lemma SentFrames(mode: bv8, file: Bytes, key: Bytes)
    requires |key| == 32 && mode != RAPTORQ && |file| + 16 <= LARGEST_ENCRYPTED
    ensures |BlockFrames(1, mode, file, key, 0)| == Sent(|file| + 16)
  {
    hide BlockAt, Aead.Encrypt;
    FirstBlock(file);
  }

  /** The frames that carry the symbols of these indices. */
  lemma FramesPicked(idx: seq<nat>, mode: bv8, file: Bytes, key: Bytes, id: u32) returns (ds: seq<Bytes>)
    requires |key| == 32 && mode != RAPTORQ && |file| + 16 <= LARGEST_ENCRYPTED
    requires KOfN(Sources(|file| + 16), Sent(|file| + 16), idx)
    ensures DifferentFrames(ds, mode, file, key, id) && Indices(Collect(ds)) == idx
  {
    hide BlockFrames, DataDatagram, Carries, SymbolOf;
    SentFrames(mode, file, key);
    var frames := BlockFrames(1, mode, file, key, 0);
    BlockFramesSized(1, mode, file, key, 0);
    ds := seq(|idx|, i requires 0 <= i < |idx| => DataDatagram(id, 1 + idx[i], frames[idx[i]]));
    forall i | 0 <= i < |idx|
      ensures Carries(ds[i], 1, mode, file, key, id, 0) && SymbolOf(ds[i]).index == idx[i]
    {
      IntactFrame(1, mode, file, key, id, idx[i]);
    }
    assert Indices(Collect(ds)) == idx;
  }

  /** With the repaired table, any k frames of a file that is sent give it back exactly up to
      29384 bytes. */
  lemma FileAnyFramesExact(mode: bv8, file: Bytes, key: Bytes, id: u32)
    requires |key| == 32 && mode != RAPTORQ && 0 < |file| && |file| + 16 <= LARGEST_ENCRYPTED
    ensures AnyFramesDeliver(mode, file, key, id) <==> |file| + 16 <= ANY_K_ENCRYPTED
  {
    hide DifferentFrames, ReceiveBlock, Readable, Stuck, Sources, Sent, KOfN, Collect, Indices;
    hide GaussJordan.Singular, Recovery.Selected;
    var k, n := Sources(|file| + 16), Sent(|file| + 16);
    SenderAnyK(|file| + 16);
    if AnyKOfN(k, n) {
      forall ds | DifferentFrames(ds, mode, file, key, id)
        ensures Readable(Collect(ds), SYMBOL_SIZE, Needed(|file|, SYMBOL_SIZE))
        ensures ReceiveBlock(1, Collect(ds), SYMBOL_SIZE, key, 0, |file|) == Some(file)
      {
        FileDatagrams(ds, mode, file, key, id);
        FramesLength(ds, mode, file, key, id);
        StuckIsSingular(Collect(ds), |file|);
      }
    } else {
      var idx := SomeSingular(k, n);
      var ds := FramesPicked(idx, mode, file, key, id);
      FileDatagrams(ds, mode, file, key, id);
      FramesLength(ds, mode, file, key, id);
      StuckIsSingular(Collect(ds), |file|);
    }
  }

  lemma FramesLength(ds: seq<Bytes>, mode: bv8, file: Bytes, key: Bytes, id: u32)
    requires |key| == 32 && DifferentFrames(ds, mode, file, key, id)
    ensures |Collect(ds)| == Sources(|file| + 16) == Needed(|file|, SYMBOL_SIZE) && Distinct(Indices(Collect(ds)))
  {
    hide Carries, SymbolOf;
  }
}
