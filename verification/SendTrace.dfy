/** What every run's trace looks like from the receiving side, and when a file gets through. */
module SendTrace {
  import opened Options
  import opened Bytes
  import opened ReedSolomon
  import opened Protocol
  import opened SendThread
  import opened EndToEnd
  import Aead
  import MmapReader
  import Recovery
  import ShippedTable

  // ---------- headers ----------

  lemma DatagramReads(id: u32, seqNum: nat, kind: bv8, payload: Bytes)
    requires |payload| < 0x1_0000
    ensures ReadHeader(Datagram(id, seqNum, kind, payload))
         == Some(Header(id, seqNum % 0x1_0000_0000, kind, |payload|))
    ensures Datagram(id, seqNum, kind, payload)[HEADER_SIZE..] == payload
  {
    hide WriteHeader, ReadHeader;
    var h := Header(id, seqNum % 0x1_0000_0000, kind, |payload|);
    assert Datagram(id, seqNum, kind, payload)[..HEADER_SIZE] == WriteHeader(h);
    HeaderExact(Datagram(id, seqNum, kind, payload), h);
  }

  function KindAt(i: nat, n: nat): bv8 {
    if i == 0 then FILE_HEADER else if i == n - 1 then COMPLETE else DATA_SYMBOL
  }

  /** In every run the i-th frame reads back with sequence number i (mod 2^32), starting with
      FILE_HEADER, ending with COMPLETE, and carrying a payload of the length it announces. */
  lemma HeadersReadBack(trace: seq<Bytes>, id: u32, name: Bytes, all: seq<DataFrame>, size: nat, mode: bv8,
                        sent: nat, i: nat)
    requires IsRun(trace, id, name, all, size, mode, sent) && i < |trace|
    ensures |trace| == sent + 2 && HEADER_SIZE <= |trace[i]| <= 1472
    ensures ReadHeader(trace[i])
         == Some(Header(id, i % 0x1_0000_0000, KindAt(i, |trace|), |trace[i]| - HEADER_SIZE))
  {
    hide Datagram, ReadHeader, FilePayload, DataPayload, MmapReader.TotalBlocks;
    var first := FilePayload(size, MmapReader.TotalBlocks(size, BLOCK_SIZE), mode, name);
    if i == 0 {
      DatagramReads(id, 0, FILE_HEADER, first);
      DatagramLength(id, 0, FILE_HEADER, first);
    } else if i == sent + 1 {
      DatagramReads(id, 1 + sent, COMPLETE, []);
      DatagramLength(id, 1 + sent, COMPLETE, []);
    } else {
      var f := all[i - 1];
      assert trace[i] == DataDatagram(id, i, f);
      DatagramReads(id, i, DATA_SYMBOL, FramePayload(f));
      DatagramLength(id, i, DATA_SYMBOL, FramePayload(f));
    }
  }

  lemma DatagramLength(id: u32, seqNum: nat, kind: bv8, payload: Bytes)
    requires |payload| < 0x1_0000
    ensures |Datagram(id, seqNum, kind, payload)| == HEADER_SIZE + |payload|
  {}

  /** The first frame of every run announces the file: its size, block count, FEC mode and
      name. */
  lemma RunAnnounces(trace: seq<Bytes>, id: u32, name: Bytes, all: seq<DataFrame>, size: nat, mode: bv8, sent: nat)
    requires IsRun(trace, id, name, all, size, mode, sent) && size < Pow256(8)
    ensures |trace| > 0 && |trace[0]| >= HEADER_SIZE
    ensures ParseFile(trace[0][HEADER_SIZE..])
         == Some((size, MmapReader.TotalBlocks(size, BLOCK_SIZE), mode, name))
  {
    hide Datagram, FilePayload, ParseFile, MmapReader.TotalBlocks;
    var first := FilePayload(size, MmapReader.TotalBlocks(size, BLOCK_SIZE), mode, name);
    DatagramReads(id, 0, FILE_HEADER, first);
    DatagramLength(id, 0, FILE_HEADER, first);
    FileRoundTrip(size, MmapReader.TotalBlocks(size, BLOCK_SIZE), mode, name);
  }

  /** Below 2^52 bytes, the announced count is the number of 1 MiB blocks, the last one begun. */
  lemma BlockCount(size: nat)
    requires size < 0xF_FFFF_FFF0_0000
    ensures var n := MmapReader.TotalBlocks(size, BLOCK_SIZE);
      size <= n * 0x10_0000 < size + 0x10_0000
  {}

  // ---------- order of the data frames ----------

  predicate Before(f: DataFrame, g: DataFrame) {
    f.block < g.block || (f.block == g.block && f.symbol.index < g.symbol.index)
  }

  ghost predicate Increasing(frames: seq<DataFrame>) {
    forall i, j :: 0 <= i < j < |frames| ==> Before(frames[i], frames[j])
  }

  predicate BlocksBelow(frames: seq<DataFrame>, n: nat) {
    forall i :: 0 <= i < |frames| ==> frames[i].block < n
  }

  lemma IncreasingAppend(a: seq<DataFrame>, b: seq<DataFrame>, n: nat)
    requires Increasing(a) && Increasing(b) && BlocksBelow(a, n)
    requires forall i :: 0 <= i < |b| ==> b[i].block == n
    ensures Increasing(a + b) && BlocksBelow(a + b, n + 1)
  {}

  lemma BlockFramesIncreasing(w: bv8, mode: bv8, file: Bytes, key: Bytes, b: nat)
    requires |key| == 32
    ensures Increasing(BlockFrames(w, mode, file, key, b))
    ensures forall i :: 0 <= i < |BlockFrames(w, mode, file, key, b)| ==>
      BlockFrames(w, mode, file, key, b)[i].block == b
  {
    hide BlockSymbols, EncryptedBlock;
    BlockSymbolsShape(w, mode, EncryptedBlock(file, key, b));
  }

  lemma NoFrames()
    ensures Increasing([]) && BlocksBelow([], 0)
  {}

  /** Data frames are strictly increasing in (block, symbol). */
  lemma {:induction false} FramesIncreasing(w: bv8, mode: bv8, file: Bytes, key: Bytes, n: nat)
    requires |key| == 32
    ensures Increasing(Frames(w, mode, file, key, n)) && BlocksBelow(Frames(w, mode, file, key, n), n)
  {
    hide BlockFrames, Increasing, BlocksBelow;
    if n > 0 {
      FramesIncreasing(w, mode, file, key, n - 1);
      BlockFramesIncreasing(w, mode, file, key, n - 1);
      IncreasingAppend(Frames(w, mode, file, key, n - 1), BlockFrames(w, mode, file, key, n - 1), n - 1);
    } else {
      NoFrames();
    }
  }

  /** No two blocks of a file are encrypted under the same nonce. */
  lemma NoncesDistinct(file: Bytes, a: nat, b: nat)
    requires a < b < FileBlocks(file)
    ensures Aead.Nonce(a) != Aead.Nonce(b)
  {
    LoadSizes();
    Aead.NonceInjective(a, b);
  }

  // ---------- which blocks get any frames ----------

  const LARGEST_ENCRYPTED := 298200  // 213 symbols of 1400 bytes

  /** With the 0.2 repair ratio the encoder accepts exactly up to 213 source symbols. */
  lemma EncodeAccepts(w: bv8, enc: Bytes)
    ensures Encode(w, enc, SYMBOL_SIZE, WantedRepairs(|enc|)).Some? <==> |enc| <= LARGEST_ENCRYPTED
    ensures Encode(w, enc, SYMBOL_SIZE, WantedRepairs(|enc|)).Some? ==>
      Encode(w, enc, SYMBOL_SIZE, WantedRepairs(|enc|)).value != []
  {}

  /** One repair symbol for every five source symbols, and at least one. */
  lemma RepairsExact(encLen: nat)
    ensures var k, r := SymbolCount(encLen, SYMBOL_SIZE), RepairCount(WantedRepairs(encLen));
      && encLen <= k * 1400 < encLen + 1400
      && (if k < 5 then r == 1 else 5 * r <= k < 5 * r + 5)
  {}

  /** Some data frame carries the b-th block. */
  ghost predicate Carried(w: bv8, mode: bv8, file: Bytes, key: Bytes, b: nat)
    requires |key| == 32
  {
    BlockFrames(w, mode, file, key, b) != []
  }

  /** A block is carried exactly when the mode is not RaptorQ, which is 1, and the block has at
      most 298184 bytes; a full 1 MiB block is silently skipped. */
  lemma BlockCarriedExact(w: bv8, mode: bv8, file: Bytes, key: Bytes, b: nat)
    requires |key| == 32
    ensures Carried(w, mode, file, key, b) <==> mode != 1 && |BlockAt(file, b)| + 16 <= LARGEST_ENCRYPTED
  {
    hide Encode, BlockAt, Aead.Encrypt;
    EncodeAccepts(w, EncryptedBlock(file, key, b));
  }

  ghost predicate AllCarried(w: bv8, mode: bv8, file: Bytes, key: Bytes)
    requires |key| == 32
  {
    forall b: nat :: b < FileBlocks(file) ==> Carried(w, mode, file, key, b)
  }

  /** Every block of the file is carried exactly when the mode is not RaptorQ and the file has
      at most 298184 bytes (or its 32-bit block count is zero). */
  lemma FileCarriedExact(w: bv8, mode: bv8, file: Bytes, key: Bytes)
    requires |key| == 32
    ensures AllCarried(w, mode, file, key)
        <==> FileBlocks(file) == 0 || (mode != 1 && |file| + 16 <= LARGEST_ENCRYPTED)
  {
    hide Carried, BlockAt, FileBlocks;
    FirstBlock(file);
    BlockCarriedExact(w, mode, file, key, 0);
  }

  lemma FirstBlock(file: Bytes)
    ensures |BlockAt(file, 0)| == MmapReader.Min(|file|, BLOCK_SIZE)
    ensures |file| <= BLOCK_SIZE ==> BlockAt(file, 0) == file && FileBlocks(file) <= 1
  {}

  // ---------- end to end ----------

  /** The symbol a data frame carries. */
  function SymbolOf(d: Bytes): Symbol {
    if |d| < HEADER_SIZE then Symbol(0, [])
    else
      match ParseData(d[HEADER_SIZE..])
      case None => Symbol(0, [])
      case Some((block, index, data)) => Symbol(index, data)
  }

  function Collect(ds: seq<Bytes>): seq<Symbol> {
    seq(|ds|, i requires 0 <= i < |ds| => SymbolOf(ds[i]))
  }

  /** d is a data frame of block b, with any sequence number, from a run over the file. */
  ghost predicate Carries(d: Bytes, w: bv8, mode: bv8, file: Bytes, key: Bytes, id: u32, b: nat)
    requires |key| == 32
  {
    exists f: DataFrame, sq: nat ::
      f in BlockFrames(w, mode, file, key, b) && |f.symbol.data| == SYMBOL_SIZE && d == DataDatagram(id, sq, f)
  }

  /** Every data frame of a trace carries its block. */
  lemma TraceCarries(trace: seq<Bytes>, w: bv8, mode: bv8, file: Bytes, key: Bytes, id: u32, name: Bytes,
                     sent: nat, i: nat)
    returns (b: nat)
    requires |key| == 32 && IsRun(trace, id, name, AllFrames(w, mode, file, key), |file|, mode, sent)
    requires 0 < i < |trace| - 1
    ensures b < FileBlocks(file) && Carries(trace[i], w, mode, file, key, id, b)
  {
    hide BlockFrames, Datagram, FilePayload;
    var all := AllFrames(w, mode, file, key);
    var f := all[i - 1];
    assert trace[i] == DataDatagram(id, i, f);
    b := FrameOrigin(w, mode, file, key, FileBlocks(file), i - 1);
  }

  lemma {:induction false} FrameOrigin(w: bv8, mode: bv8, file: Bytes, key: Bytes, n: nat, i: nat) returns (b: nat)
    requires |key| == 32 && i < |Frames(w, mode, file, key, n)|
    ensures b < n && Frames(w, mode, file, key, n)[i] in BlockFrames(w, mode, file, key, b)
  {
    hide BlockFrames;
    var before := Frames(w, mode, file, key, n - 1);
    if i < |before| {
      b := FrameOrigin(w, mode, file, key, n - 1, i);
    } else {
      b := n - 1;
    }
  }

  lemma CarriedSymbol(d: Bytes, w: bv8, mode: bv8, file: Bytes, key: Bytes, id: u32, b: nat)
    requires |key| == 32 && b < 0x1_0000_0000 && Carries(d, w, mode, file, key, id, b)
    ensures mode != RAPTORQ
    ensures var enc := EncryptedBlock(file, key, b); var r := Encode(w, enc, SYMBOL_SIZE, WantedRepairs(|enc|));
      r.Some? && SymbolOf(d) in r.value
  {
    hide EncryptedBlock, Encode, DataPayload, ParseData, Datagram;
    var f: DataFrame, sq: nat :|
      f in BlockFrames(w, mode, file, key, b) && |f.symbol.data| == SYMBOL_SIZE && d == DataDatagram(id, sq, f);
    BlockSymbolsShape(w, mode, EncryptedBlock(file, key, b));
    DataRoundTrip(f.block, f.symbol.index, f.symbol.data);
    DatagramReads(id, sq, DATA_SYMBOL, FramePayload(f));
    DatagramLength(id, sq, DATA_SYMBOL, FramePayload(f));
    assert SymbolOf(d) == f.symbol;
  }

  lemma CollectedFromEncoder(ds: seq<Bytes>, w: bv8, mode: bv8, file: Bytes, key: Bytes, id: u32, b: nat)
    requires |key| == 32 && b < 0x1_0000_0000 && |ds| > 0
    requires forall i :: 0 <= i < |ds| ==> Carries(ds[i], w, mode, file, key, id, b)
    ensures var enc := EncryptedBlock(file, key, b);
      FromEncoder(w, Collect(ds), enc, SYMBOL_SIZE, WantedRepairs(|enc|))
  {
    hide EncryptedBlock, Encode, SymbolOf, Carries;
    CarriedSymbol(ds[0], w, mode, file, key, id, b);
    var enc := EncryptedBlock(file, key, b);
    forall i | 0 <= i < |ds|
      ensures SymbolOf(ds[i]) in Encode(w, enc, SYMBOL_SIZE, WantedRepairs(|enc|)).value
    {
      CarriedSymbol(ds[i], w, mode, file, key, id, b);
    }
  }

  /** From the wire back to a block: once at least k data frames of block b are held, in any
      order and with any repeats, the receiver gets exactly the block of the file, unless
      their rows are singular. */
  lemma BlockDelivered(ds: seq<Bytes>, mode: bv8, file: Bytes, key: Bytes, id: u32, b: nat)
    requires |key| == 32 && b < FileBlocks(file) && 0 < Needed(|BlockAt(file, b)|, SYMBOL_SIZE) <= |ds|
    requires forall i :: 0 <= i < |ds| ==> Carries(ds[i], 1, mode, file, key, id, b)
    ensures Readable(Collect(ds), SYMBOL_SIZE, Needed(|BlockAt(file, b)|, SYMBOL_SIZE))
    ensures ReceiveBlock(1, Collect(ds), SYMBOL_SIZE, key, b, |BlockAt(file, b)|)
         == if Stuck(Collect(ds), SYMBOL_SIZE, |BlockAt(file, b)|) then None else Some(BlockAt(file, b))
  {
    hide Carries, FromEncoder, ReceiveBlock, Stuck, Readable, BlockAt, SymbolOf;
    CollectedFromEncoder(ds, 1, mode, file, key, id, b);
    EncryptedBlockIs(file, key, b);
    BlockRestoredExact(Collect(ds), BlockAt(file, b), key, b, SYMBOL_SIZE,
                       WantedRepairs(|EncryptedBlock(file, key, b)|));
  }

  /** A file of at most 298184 bytes survives any loss of source frames made up by as many
      consecutive repair frames. */
  lemma FileDelivered(ds: seq<Bytes>, mode: bv8, file: Bytes, key: Bytes, id: u32, lost: set<nat>, first: nat)
    requires |key| == 32 && 0 < |file| && |file| + 16 <= LARGEST_ENCRYPTED
    requires forall i :: 0 <= i < |ds| ==> Carries(ds[i], 1, mode, file, key, id, 0)
    requires Recovery.Received(Needed(|file|, SYMBOL_SIZE), Indices(Collect(ds)), lost, first, 1)
    ensures Readable(Collect(ds), SYMBOL_SIZE, Needed(|file|, SYMBOL_SIZE))
    ensures ReceiveBlock(1, Collect(ds), SYMBOL_SIZE, key, 0, |file|) == Some(file)
  {
    hide Carries, ReceiveBlock, Readable, BlockAt, SymbolOf, Recovery.Received, FromEncoder;
    FirstBlock(file);
    HeldEnough(Indices(Collect(ds)), Needed(|file|, SYMBOL_SIZE), lost, first);
    CollectedFromEncoder(ds, 1, mode, file, key, id, 0);
    EncryptedBlockIs(file, key, 0);
    BlockSurvivesLoss(Collect(ds), file, key, 0, SYMBOL_SIZE, WantedRepairs(|EncryptedBlock(file, key, 0)|),
                      lost, first);
  }

  lemma HeldEnough(idx: seq<nat>, k: nat, lost: set<nat>, first: nat)
    requires Recovery.Received(k, idx, lost, first, 1)
    ensures k <= |idx|
  {}

  // ---------- a run from which nothing is lost ----------

  lemma OneBlockFrames(w: bv8, mode: bv8, file: Bytes, key: Bytes)
    requires |key| == 32 && 0 < |file| <= BLOCK_SIZE
    ensures AllFrames(w, mode, file, key) == BlockFrames(w, mode, file, key, 0)
  {
    hide BlockFrames;
    FramesStart(w, mode, file, key);
    assert FileBlocks(file) == 1;
  }

  lemma IntactFrame(w: bv8, mode: bv8, file: Bytes, key: Bytes, id: u32, i: nat)
    requires |key| == 32 && i < |BlockFrames(w, mode, file, key, 0)|
    ensures |BlockFrames(w, mode, file, key, 0)[i].symbol.data| == SYMBOL_SIZE
    ensures var d := DataDatagram(id, 1 + i, BlockFrames(w, mode, file, key, 0)[i]);
      Carries(d, w, mode, file, key, id, 0) && SymbolOf(d).index == i
  {
    hide BlockSymbols, EncryptedBlock, DataPayload, ParseData, Datagram;
    BlockSymbolsShape(w, mode, EncryptedBlock(file, key, 0));
    var f := BlockFrames(w, mode, file, key, 0)[i];
    DataRoundTrip(f.block, f.symbol.index, f.symbol.data);
    DatagramReads(id, 1 + i, DATA_SYMBOL, FramePayload(f));
    DatagramLength(id, 1 + i, DATA_SYMBOL, FramePayload(f));
  }

  lemma EnoughSent(w: bv8, mode: bv8, file: Bytes, key: Bytes)
    requires |key| == 32 && mode != RAPTORQ && |file| + 16 <= LARGEST_ENCRYPTED
    ensures |BlockFrames(w, mode, file, key, 0)| >= Needed(|file|, SYMBOL_SIZE)
  {
    hide BlockAt, Aead.Encrypt;
    FirstBlock(file);
  }

  /** The i-th datagram carries symbol i of block 0. */
  ghost predicate InOrder(ds: seq<Bytes>, w: bv8, mode: bv8, file: Bytes, key: Bytes, id: u32)
    requires |key| == 32
  {
    forall i :: 0 <= i < |ds| ==> Carries(ds[i], w, mode, file, key, id, 0) && SymbolOf(ds[i]).index == i
  }

  lemma FullTrace(trace: seq<Bytes>, id: u32, name: Bytes, all: seq<DataFrame>, size: nat, mode: bv8)
    requires IsRun(trace, id, name, all, size, mode, |all|)
    ensures |trace| == 2 + |all| && Sized(all)
    ensures forall i :: 0 <= i < |all| ==> trace[1..|trace| - 1][i] == DataDatagram(id, 1 + i, all[i])
  {
    hide Datagram, FilePayload;
    assert all[..|all|] == all;
  }

  /** The data frames of an uncancelled run over a file of at most 298184 bytes. */
  lemma IntactRun(trace: seq<Bytes>, w: bv8, mode: bv8, file: Bytes, key: Bytes, id: u32, name: Bytes)
    requires |key| == 32 && mode != RAPTORQ && 0 < |file| && |file| + 16 <= LARGEST_ENCRYPTED
    requires IsRun(trace, id, name, AllFrames(w, mode, file, key), |file|, mode, |AllFrames(w, mode, file, key)|)
    ensures |trace| >= 2 + Needed(|file|, SYMBOL_SIZE)
    ensures InOrder(trace[1..|trace| - 1], w, mode, file, key, id)
  {
    hide BlockFrames, AllFrames, IsRun, DataDatagram, Carries, SymbolOf, Needed;
    OneBlockFrames(w, mode, file, key);
    EnoughSent(w, mode, file, key);
    var all := BlockFrames(w, mode, file, key, 0);
    FullTrace(trace, id, name, all, |file|, mode);
    var ds := trace[1..|trace| - 1];
    forall i | 0 <= i < |ds|
      ensures Carries(ds[i], w, mode, file, key, id, 0) && SymbolOf(ds[i]).index == i
    {
      assert ds[i] == DataDatagram(id, 1 + i, all[i]);
      IntactFrame(w, mode, file, key, id, i);
    }
  }

  /** With the repaired table a loss-free run of at most 298184 bytes gives the file back. */
  lemma IntactRunDelivers(trace: seq<Bytes>, mode: bv8, file: Bytes, key: Bytes, id: u32, name: Bytes)
    requires |key| == 32 && mode != RAPTORQ && 0 < |file| && |file| + 16 <= LARGEST_ENCRYPTED
    requires IsRun(trace, id, name, AllFrames(1, mode, file, key), |file|, mode, |AllFrames(1, mode, file, key)|)
    ensures var got := Collect(trace[1..|trace| - 1]);
      Readable(got, SYMBOL_SIZE, Needed(|file|, SYMBOL_SIZE))
      && ReceiveBlock(1, got, SYMBOL_SIZE, key, 0, |file|) == Some(file)
  {
    hide AllFrames, IsRun, Carries, SymbolOf, ReceiveBlock, Readable;
    IntactRun(trace, 1, mode, file, key, id, name);
    var ds, k := trace[1..|trace| - 1], Needed(|file|, SYMBOL_SIZE);
    NothingLost(Indices(Collect(ds)), k);
    FileDelivered(ds, mode, file, key, id, {}, k);
  }

  lemma NothingLost(idx: seq<nat>, k: nat)
    requires k <= |idx| && forall i :: 0 <= i < k ==> idx[i] == i
    ensures Recovery.Received(k, idx, {}, k, 1)
  {
    forall r: nat | r < k
      ensures r in idx[..k]
    {
      assert idx[..k][r] == r;
    }
  }

  /** With the shipped table, holding the source frames of block 0 in any order, the file comes
      back exactly when its ciphertext and tag are all zeros. */
  lemma FileShipped(ds: seq<Bytes>, mode: bv8, file: Bytes, key: Bytes, id: u32)
    requires |key| == 32 && 0 < |file| && |file| + 16 <= LARGEST_ENCRYPTED
    requires forall i :: 0 <= i < |ds| ==> Carries(ds[i], 0, mode, file, key, id, 0)
    requires ShippedTable.SourcesOnly(Needed(|file|, SYMBOL_SIZE), Indices(Collect(ds)))
    ensures Readable(Collect(ds), SYMBOL_SIZE, Needed(|file|, SYMBOL_SIZE))
    ensures ReceiveBlock(0, Collect(ds), SYMBOL_SIZE, key, 0, |file|) == Some(file)
        <==> Aead.Encrypt(file, key, Aead.Nonce(0)) == Zeros(|file| + 16)
  {
    hide Carries, SymbolOf, ReceiveBlock, Readable, FromEncoder, BlockAt, Aead.Encrypt, ShippedTable.SourcesOnly;
    FirstBlock(file);
    SourcesHeld(Indices(Collect(ds)), Needed(|file|, SYMBOL_SIZE));
    CollectedFromEncoder(ds, 0, mode, file, key, id, 0);
    EncryptedBlockIs(file, key, 0);
    BlockShippedExact(Collect(ds), file, key, 0, SYMBOL_SIZE, WantedRepairs(|EncryptedBlock(file, key, 0)|));
  }

  lemma SourcesHeld(idx: seq<nat>, k: nat)
    requires ShippedTable.SourcesOnly(k, idx)
    ensures k <= |idx|
  {}

  lemma OrderedSources(idx: seq<nat>, k: nat)
    requires k <= |idx| && forall i :: 0 <= i < k ==> idx[i] == i
    ensures ShippedTable.SourcesOnly(k, idx)
  {
    forall r: nat | r < k
      ensures r in idx[..k]
    {
      assert idx[..k][r] == r;
    }
  }

  /** In particular the data frames of an uncancelled run. */
  lemma IntactRunShipped(trace: seq<Bytes>, mode: bv8, file: Bytes, key: Bytes, id: u32, name: Bytes)
    requires |key| == 32 && mode != RAPTORQ && 0 < |file| && |file| + 16 <= LARGEST_ENCRYPTED
    requires IsRun(trace, id, name, AllFrames(0, mode, file, key), |file|, mode, |AllFrames(0, mode, file, key)|)
    ensures var got := Collect(trace[1..|trace| - 1]);
      Readable(got, SYMBOL_SIZE, Needed(|file|, SYMBOL_SIZE))
      && (ReceiveBlock(0, got, SYMBOL_SIZE, key, 0, |file|) == Some(file)
          <==> Aead.Encrypt(file, key, Aead.Nonce(0)) == Zeros(|file| + 16))
  {
    hide AllFrames, IsRun, Carries, SymbolOf, ReceiveBlock, Readable, Aead.Encrypt, ShippedTable.SourcesOnly;
    IntactRun(trace, 0, mode, file, key, id, name);
    var ds := trace[1..|trace| - 1];
    OrderedSources(Indices(Collect(ds)), Needed(|file|, SYMBOL_SIZE));
    FileShipped(ds, mode, file, key, id);
  }

  /** With the shipped table, no datagrams of any origin make the receiver return a block whose
      ciphertext is not all zeros on its first symbol. */
  lemma WireShippedBound(ds: seq<Bytes>, block: Bytes, key: Bytes, b: nat, len: nat, q: nat)
    requires |key| == 32 && Readable(Collect(ds), SYMBOL_SIZE, Needed(len, SYMBOL_SIZE))
    requires ReceiveBlock(0, Collect(ds), SYMBOL_SIZE, key, b, len) == Some(block)
    requires q < SYMBOL_SIZE && q < len + 16
    ensures |block| == len && Aead.Encrypt(block, key, Aead.Nonce(b))[q] == 0
  {
    hide Collect, ReceiveBlock, Readable, Aead.Encrypt;
    BlockShippedBound(Collect(ds), block, key, b, SYMBOL_SIZE, len, q);
  }
}
