/** send_thread_func of turbolink_engine.cpp: what one run puts on the wire, with the active
    flag cleared at an arbitrary poll. */
module SendThread {
  import opened Options
  import opened Bytes
  import opened GaloisTables
  import opened ReedSolomon
  import opened Protocol
  import Aead
  import MmapReader
  import RsCodec

  const RAPTORQ: bv8 := 1

  // ---------- what a run would send ----------

  datatype DataFrame = DataFrame(block: nat, symbol: Symbol)

  /** (int)(k * 0.2f) for the k symbols of an encrypted block. */
  function WantedRepairs(encLen: nat): nat {
    SymbolCount(encLen, SYMBOL_SIZE) / 5
  }

  function BlockAt(file: Bytes, b: nat): Bytes {
    MmapReader.Block(file, b, BLOCK_SIZE).GetOr([])
  }

  function EncryptedBlock(file: Bytes, key: Bytes, b: nat): (e: Bytes)
    requires |key| == 32
    ensures |e| == |BlockAt(file, b)| + 16
  {
    Aead.Encrypt(BlockAt(file, b), key, Aead.Nonce(b))
  }

  /** The symbols of one encrypted block; a failed encode leaves the list empty. */
  ghost function BlockSymbols(w: bv8, mode: bv8, enc: Bytes): seq<Symbol> {
    if mode == RAPTORQ then [] else Encode(w, enc, SYMBOL_SIZE, WantedRepairs(|enc|)).GetOr([])
  }

  ghost function BlockFrames(w: bv8, mode: bv8, file: Bytes, key: Bytes, b: nat): seq<DataFrame>
    requires |key| == 32
  {
    FramesOf(b, BlockSymbols(w, mode, EncryptedBlock(file, key, b)))
  }

  function FramesOf(b: nat, symbols: seq<Symbol>): seq<DataFrame> {
    seq(|symbols|, i requires 0 <= i < |symbols| => DataFrame(b, symbols[i]))
  }

  /** The data frames of the first n blocks. */
  ghost function Frames(w: bv8, mode: bv8, file: Bytes, key: Bytes, n: nat): seq<DataFrame>
    requires |key| == 32
  {
    if n == 0 then [] else Frames(w, mode, file, key, n - 1) + BlockFrames(w, mode, file, key, n - 1)
  }

  lemma {:induction false} FramesPrefix(w: bv8, mode: bv8, file: Bytes, key: Bytes, m: nat, n: nat)
    requires |key| == 32 && m <= n
    ensures Frames(w, mode, file, key, m) <= Frames(w, mode, file, key, n)
  {
    hide BlockFrames;
    if m < n {
      FramesPrefix(w, mode, file, key, m, n - 1);
    }
  }

  function FileBlocks(file: Bytes): nat {
    MmapReader.TotalBlocks(|file|, BLOCK_SIZE)
  }

  /** The data frames of an uncancelled run. */
  ghost function AllFrames(w: bv8, mode: bv8, file: Bytes, key: Bytes): seq<DataFrame>
    requires |key| == 32
  {
    Frames(w, mode, file, key, FileBlocks(file))
  }

  lemma FramesStart(w: bv8, mode: bv8, file: Bytes, key: Bytes)
    requires |key| == 32
    ensures Frames(w, mode, file, key, 0) == []
  {}

  /** Part of the next block keeps the frames a prefix of the whole run's; all of it
      completes them. */
  lemma FramesStep(w: bv8, mode: bv8, file: Bytes, key: Bytes, b: nat, total: nat, done: nat)
    requires |key| == 32 && b < total && done <= |BlockFrames(w, mode, file, key, b)|
    ensures Frames(w, mode, file, key, b) + BlockFrames(w, mode, file, key, b)[..done]
         <= Frames(w, mode, file, key, total)
    ensures done == |BlockFrames(w, mode, file, key, b)| ==>
      Frames(w, mode, file, key, b) + BlockFrames(w, mode, file, key, b)[..done] == Frames(w, mode, file, key, b + 1)
    ensures |Frames(w, mode, file, key, b)| + done <= |Frames(w, mode, file, key, b + 1)|
  {
    hide BlockFrames;
    FramesPrefix(w, mode, file, key, b + 1, total);
  }

  /** Where a run whose flag reads false from poll `cancelAt` on stops: every poll that reads
      true enters a block or sends a frame, and the frames sent reach into the last block
      entered and not past it. */
  ghost predicate StopsAt(w: bv8, mode: bv8, file: Bytes, key: Bytes, cancelAt: nat, started: nat, sent: nat)
    requires |key| == 32
  {
    && started <= FileBlocks(file)
    && started + sent == MmapReader.Min(cancelAt, FileBlocks(file) + |AllFrames(w, mode, file, key)|)
    && sent <= |Frames(w, mode, file, key, started)|
    && (started > 0 ==> |Frames(w, mode, file, key, started - 1)| <= sent)
  }

  lemma StopReached(w: bv8, mode: bv8, file: Bytes, key: Bytes, cancelAt: nat, polls: nat, started: nat, sent: nat)
    requires |key| == 32 && started <= FileBlocks(file) && sent <= |AllFrames(w, mode, file, key)|
    requires started + sent == if polls <= cancelAt then polls else cancelAt
    requires polls <= cancelAt ==> started == FileBlocks(file) && sent == |AllFrames(w, mode, file, key)|
    requires sent <= |Frames(w, mode, file, key, started)|
    requires started > 0 ==> |Frames(w, mode, file, key, started - 1)| <= sent
    ensures StopsAt(w, mode, file, key, cancelAt, started, sent)
  {
    hide Frames, AllFrames, FileBlocks;
  }

  /** So the poll at which the flag is cleared determines the blocks entered and the frames
      sent. */
  lemma StopUnique(w: bv8, mode: bv8, file: Bytes, key: Bytes, cancelAt: nat,
                   started: nat, sent: nat, started': nat, sent': nat)
    requires |key| == 32
    requires StopsAt(w, mode, file, key, cancelAt, started, sent)
    requires StopsAt(w, mode, file, key, cancelAt, started', sent')
    ensures started == started' && sent == sent'
  {
    hide Frames, AllFrames, FileBlocks;
    if started < started' {
      FramesPrefix(w, mode, file, key, started, started' - 1);
    } else if started' < started {
      FramesPrefix(w, mode, file, key, started', started - 1);
    }
  }

  lemma BlockAtIs(file: Bytes, b: nat)
    ensures BlockAt(file, b) == MmapReader.Block(file, b, BLOCK_SIZE).GetOr([])
  {}

  // ---------- the wire ----------

  function Datagram(id: u32, seqNum: nat, kind: bv8, payload: Bytes): Bytes
    requires |payload| < 0x1_0000
  {
    WriteHeader(Header(id, seqNum % 0x1_0000_0000, kind, |payload|)) + payload
  }

  function FramePayload(f: DataFrame): Bytes {
    DataPayload(f.block, f.symbol.index, f.symbol.data)
  }

  function DataDatagram(id: u32, seqNum: nat, f: DataFrame): Bytes
    requires |f.symbol.data| <= SYMBOL_SIZE
  {
    Datagram(id, seqNum, DATA_SYMBOL, FramePayload(f))
  }

  predicate Sized(frames: seq<DataFrame>) {
    forall i :: 0 <= i < |frames| ==> |frames[i].symbol.data| == SYMBOL_SIZE
  }

  /** The data frames numbered from 1. */
  function DataDatagrams(id: u32, frames: seq<DataFrame>): seq<Bytes>
    requires Sized(frames)
  {
    seq(|frames|, i requires 0 <= i < |frames| => DataDatagram(id, 1 + i, frames[i]))
  }

  lemma NoDatagrams(id: u32)
    ensures Sized([]) && DataDatagrams(id, []) == []
  {}

  lemma DatagramsAppend(id: u32, frames: seq<DataFrame>, f: DataFrame)
    requires Sized(frames) && |f.symbol.data| == SYMBOL_SIZE
    ensures Sized(frames + [f])
    ensures DataDatagrams(id, frames + [f]) == DataDatagrams(id, frames) + [DataDatagram(id, 1 + |frames|, f)]
  {
    hide DataDatagram;
  }

  lemma FramesOfStep(b: nat, symbols: seq<Symbol>, i: nat)
    ensures FramesOf(b, symbols[..0]) == []
    ensures i < |symbols| ==>
      FramesOf(b, symbols[..i + 1]) == FramesOf(b, symbols[..i]) + [DataFrame(b, symbols[i])]
  {}

  /** FILE_HEADER, the data frames, COMPLETE. */
  function Trace(id: u32, filePayload: Bytes, frames: seq<DataFrame>): seq<Bytes>
    requires |filePayload| <= MAX_PACKET - HEADER_SIZE && Sized(frames)
  {
    [Datagram(id, 0, FILE_HEADER, filePayload)] + DataDatagrams(id, frames)
    + [Datagram(id, 1 + |frames|, COMPLETE, [])]
  }

  /** The trace of a run that sent the first `sent` of the data frames `all`. */
  predicate IsRun(trace: seq<Bytes>, id: u32, name: Bytes, all: seq<DataFrame>, size: nat, mode: bv8, sent: nat)
  {
    && 15 + |name| <= MAX_PACKET - HEADER_SIZE && Sized(all) && sent <= |all|
    && trace == Trace(id, FilePayload(size, MmapReader.TotalBlocks(size, BLOCK_SIZE), mode, name), all[..sent])
  }

  lemma RunIs(trace: seq<Bytes>, id: u32, name: Bytes, all: seq<DataFrame>, size: nat, mode: bv8,
              frames: seq<DataFrame>)
    requires 15 + |name| <= MAX_PACKET - HEADER_SIZE && Sized(all) && Sized(frames) && frames <= all
    requires var payload := FilePayload(size, MmapReader.TotalBlocks(size, BLOCK_SIZE), mode, name);
      trace == [Datagram(id, 0, FILE_HEADER, payload)] + DataDatagrams(id, frames)
               + [Datagram(id, 1 + |frames|, COMPLETE, [])]
    ensures IsRun(trace, id, name, all, size, mode, |frames|)
  {
    hide Datagram, FilePayload, DataDatagrams, MmapReader.TotalBlocks;
    assert all[..|frames|] == frames;
  }

  lemma BlockSymbolsShape(w: bv8, mode: bv8, enc: Bytes)
    ensures |BlockSymbols(w, mode, enc)| <= 255
    ensures forall i :: 0 <= i < |BlockSymbols(w, mode, enc)| ==>
      BlockSymbols(w, mode, enc)[i].index == i && |BlockSymbols(w, mode, enc)[i].data| == SYMBOL_SIZE
  {}

  lemma BlockFramesSized(w: bv8, mode: bv8, file: Bytes, key: Bytes, b: nat)
    requires |key| == 32
    ensures Sized(BlockFrames(w, mode, file, key, b))
  {
    hide BlockSymbols, EncryptedBlock;
    BlockSymbolsShape(w, mode, EncryptedBlock(file, key, b));
  }

  lemma SizedAppend(a: seq<DataFrame>, b: seq<DataFrame>)
    requires Sized(a) && Sized(b)
    ensures Sized(a + b)
  {}

  lemma SizedEmpty()
    ensures Sized([])
  {}

  lemma {:induction false} FramesSized(w: bv8, mode: bv8, file: Bytes, key: Bytes, n: nat)
    requires |key| == 32
    ensures Sized(Frames(w, mode, file, key, n))
  {
    hide BlockFrames, Sized;
    if n > 0 {
      FramesSized(w, mode, file, key, n - 1);
      BlockFramesSized(w, mode, file, key, n - 1);
      SizedAppend(Frames(w, mode, file, key, n - 1), BlockFrames(w, mode, file, key, n - 1));
    } else {
      SizedEmpty();
    }
  }

  lemma EncryptedBlockIs(file: Bytes, key: Bytes, b: nat)
    requires |key| == 32
    ensures EncryptedBlock(file, key, b) == Aead.Encrypt(BlockAt(file, b), key, Aead.Nonce(b))
  {}

  // ---------- the thread ----------

  class Sender {
    const id: u32
    const file: Bytes
    const name: Bytes
    const key: Bytes
    const mode: bv8
    const cancelAt: nat  // the poll of the active flag from which it reads false
    var polls: nat
    var seqNum: nat
    var bytesSent: nat
    var trace: seq<Bytes>

    constructor (id: u32, file: Bytes, name: Bytes, key: Bytes, mode: bv8, cancelAt: nat)
      requires |key| == 32 && 15 + |name| <= MAX_PACKET - HEADER_SIZE
      ensures this.id == id && this.file == file && this.name == name && this.key == key
      ensures this.mode == mode && this.cancelAt == cancelAt
      ensures polls == seqNum == bytesSent == 0 && trace == []
    {
      this.id, this.file, this.name, this.key, this.mode, this.cancelAt := id, file, name, key, mode, cancelAt;
      polls, seqNum, bytesSent, trace := 0, 0, 0, [];
    }

    method Poll() returns (active: bool)
      modifies this`polls
      ensures polls == old(polls) + 1 && (active <==> polls <= cancelAt)
    {
      active := polls < cancelAt;
      polls := polls + 1;
    }

    method BuildFrame(sq: nat, kind: bv8, payload: Bytes) returns (frame: Bytes)
      requires HEADER_SIZE + |payload| <= MAX_PACKET
      ensures frame == Datagram(id, sq, kind, payload)
    {
      hide WriteHeader;
      var header: Header := Header(id, sq % 0x1_0000_0000, kind, |payload|);
      var n := HEADER_SIZE + |payload|;
      var buf := new bv8[MAX_PACKET];
      TlWriteHeader(buf, id, sq % 0x1_0000_0000, kind, |payload|);
      assert buf[..HEADER_SIZE] == WriteHeader(header);
      CopyInto(buf, HEADER_SIZE, payload);
      assert buf[..HEADER_SIZE] == WriteHeader(header);
      frame := buf[..n];
      assert frame == buf[..HEADER_SIZE] + buf[HEADER_SIZE..n];
    }

    /** tl_udp_send_frame: an oversized frame is refused, anything else goes out. */
    method SendFrame(sq: nat, kind: bv8, payload: Bytes)
      requires |payload| < 0x1_0000
      modifies this`trace
      ensures trace == if HEADER_SIZE + |payload| > MAX_PACKET then old(trace)
                       else old(trace) + [Datagram(id, sq, kind, payload)]
    {
      if HEADER_SIZE + |payload| > MAX_PACKET {
        return;
      }
      var frame := BuildFrame(sq, kind, payload);
      trace := trace + [frame];
    }

    /** The data frames on the wire so far, after the file header. */
    ghost predicate Sent(start: Bytes, frames: seq<DataFrame>)
      reads this`seqNum, this`trace
    {
      && Sized(frames) && seqNum == 1 + |frames|
      && trace == [start] + DataDatagrams(id, frames)
    }

    /** The inner loop over the symbols of one block. */
    method SendSymbols(b: nat, symbols: seq<Symbol>, ghost start: Bytes, ghost before: seq<DataFrame>)
      returns (ghost done: nat)
      requires Sent(start, before) && polls <= cancelAt
      requires forall i :: 0 <= i < |symbols| ==> |symbols[i].data| == SYMBOL_SIZE
      modifies this`polls, this`seqNum, this`trace
      ensures done <= |symbols| && polls >= old(polls)
      ensures polls <= cancelAt ==> done == |symbols|
      ensures old(polls) + done == if polls <= cancelAt then polls else cancelAt
      ensures Sent(start, before + FramesOf(b, symbols[..done]))
    {
      hide Datagram, DataPayload, DataDatagrams, FramesOf, Sized;
      FramesOfStep(b, symbols, 0);
      done := 0;
      var i := 0;
      ghost var sent := before;
      while i < |symbols|
        invariant i == done <= |symbols| && polls >= old(polls)
        invariant sent == before + FramesOf(b, symbols[..i])
        invariant old(polls) + done == polls <= cancelAt && Sent(start, sent)
      {
        var active := Poll();
        if !active {
          break;
        }
        ghost var f := DataFrame(b, symbols[i]);
        assert FramePayload(f) == DataPayload(b, symbols[i].index, symbols[i].data);
        SendFrame(seqNum, DATA_SYMBOL, DataPayload(b, symbols[i].index, symbols[i].data));
        seqNum := seqNum + 1;
        DatagramsAppend(id, sent, f);
        FramesOfStep(b, symbols, i);
        sent := sent + [f];
        assert FramesOf(b, symbols[..i + 1]) == FramesOf(b, symbols[..i]) + [f];
        i := i + 1;
        done := i;
      }
    }

    /** Steps A to C for one block: compress (pass-through), encrypt, encode. */
    method PrepareBlock(t: Tables, b: nat) returns (symbols: seq<Symbol>, blockLen: nat)
      requires t.Valid() && |key| == 32 && MmapReader.Block(file, b, BLOCK_SIZE).Some?
      ensures symbols == BlockSymbols(t.entry, mode, EncryptedBlock(file, key, b))
      ensures blockLen == |BlockAt(file, b)|
    {
      hide BlockSymbols, EncryptedBlock, BlockAt;
      var block := FetchBlock(b);
      blockLen := |block|;
      var enc := EncryptBlock(block, b);
      EncryptedBlockIs(file, key, b);
      symbols := EncodeSymbols(t, enc);
    }

    /** One turn of the block loop. */
    method SendBlock(t: Tables, b: nat, ghost start: Bytes, ghost before: seq<DataFrame>) returns (ghost done: nat)
      requires t.Valid() && |key| == 32 && Sent(start, before) && polls <= cancelAt
      requires MmapReader.Block(file, b, BLOCK_SIZE).Some?
      modifies this`polls, this`seqNum, this`trace, this`bytesSent
      ensures done <= |BlockFrames(t.entry, mode, file, key, b)| && polls >= old(polls)
      ensures polls <= cancelAt ==> done == |BlockFrames(t.entry, mode, file, key, b)|
      ensures old(polls) + done == if polls <= cancelAt then polls else cancelAt
      ensures Sent(start, before + BlockFrames(t.entry, mode, file, key, b)[..done])
      ensures bytesSent == old(bytesSent) + |BlockAt(file, b)|
    {
      hide Sent, BlockSymbols, EncryptedBlock, BlockAt, MmapReader.Block;
      ghost var w := t.entry;
      var symbols, blockLen := PrepareBlock(t, b);
      BlockSymbolsShape(w, mode, EncryptedBlock(file, key, b));
      done := SendSymbols(b, symbols, start, before);
      assert BlockFrames(w, mode, file, key, b)[..done] == FramesOf(b, symbols[..done]);
      bytesSent := bytesSent + blockLen;
    }

    method FetchBlock(b: nat) returns (block: Bytes)
      requires MmapReader.Block(file, b, BLOCK_SIZE).Some?
      ensures block == BlockAt(file, b)
    {
      var mapping := new MmapReader.Mapping(file);
      var fetched := mapping.GetBlock(b, BLOCK_SIZE);
      block := fetched.value;
    }

    method EncryptBlock(block: Bytes, b: nat) returns (enc: Bytes)
      requires |key| == 32
      ensures enc == Aead.Encrypt(block, key, Aead.Nonce(b))
    {
      hide Aead.Encrypt, Aead.Nonce;
      var nonce := new bv8[12];
      Aead.TlMakeNonce(nonce, b);
      var buffer := new bv8[|block| + Aead.TAG_SIZE];
      var n := Aead.TlEncrypt(buffer, block, key, nonce[..]);
      enc := buffer[..n];
    }

    method EncodeSymbols(t: Tables, enc: Bytes) returns (symbols: seq<Symbol>)
      requires t.Valid()
      ensures symbols == BlockSymbols(t.entry, mode, enc)
    {
      if mode == RAPTORQ {
        return [];
      }
      var r := RsCodec.EncodeBlock(t, enc, SYMBOL_SIZE, WantedRepairs(|enc|));
      symbols := r.GetOr([]);
    }

    /** The block loop.  `started` counts the blocks entered. */
    method SendBlocks(t: Tables, total: nat, ghost start: Bytes) returns (started: nat, ghost frames: seq<DataFrame>)
      requires t.Valid() && |key| == 32 && total == FileBlocks(file) && Sent(start, [])
      requires polls == bytesSent == 0
      modifies this`polls, this`seqNum, this`trace, this`bytesSent
      ensures Sent(start, frames) && frames <= AllFrames(t.entry, mode, file, key)
      ensures started <= total && bytesSent == MmapReader.Min(started * BLOCK_SIZE, |file|)
      ensures started + |frames| == if polls <= cancelAt then polls else cancelAt
      ensures polls <= cancelAt ==> started == total && frames == AllFrames(t.entry, mode, file, key)
      ensures |frames| <= |Frames(t.entry, mode, file, key, started)|
      ensures started > 0 ==> |Frames(t.entry, mode, file, key, started - 1)| <= |frames|
    {
      hide Frames, BlockFrames, Datagram, BlockAt, Sent, MmapReader.TotalBlocks, MmapReader.Block, MmapReader.Min;
      ghost var w := t.entry;
      ghost var all := Frames(w, mode, file, key, total);
      started := 0;
      frames := [];
      FramesStart(w, mode, file, key);
      MmapReader.CoveredStart(file, BLOCK_SIZE);
      while started < total
        invariant started <= total && t.Valid() && t.entry == w
        invariant Sent(start, frames) && frames <= all
        invariant bytesSent == MmapReader.Min(started * BLOCK_SIZE, |file|)
        invariant polls <= cancelAt ==> frames == Frames(w, mode, file, key, started)
        invariant started + |frames| == if polls <= cancelAt then polls else cancelAt
        invariant |frames| <= |Frames(w, mode, file, key, started)|
        invariant started > 0 ==> |Frames(w, mode, file, key, started - 1)| <= |frames|
        decreases total - started
      {
        var active := Poll();
        if !active {
          break;
        }
        MmapReader.BlocksPresent(file, BLOCK_SIZE, started);
        MmapReader.CoveredStep(file, BLOCK_SIZE, started);
        BlockAtIs(file, started);
        ghost var done := SendBlock(t, started, start, frames);
        FramesStep(w, mode, file, key, started, total, done);
        frames := frames + BlockFrames(w, mode, file, key, started)[..done];
        started := started + 1;
      }
    }

    /** The whole run.  `started` counts the blocks entered, `sent` the data frames sent. */
    method Run(t: Tables) returns (started: nat, sent: nat)
      requires t.Valid() && |key| == 32 && 15 + |name| <= MAX_PACKET - HEADER_SIZE
      requires polls == seqNum == bytesSent == 0 && trace == []
      modifies this`polls, this`seqNum, this`trace, this`bytesSent
      ensures IsRun(trace, id, name, AllFrames(t.entry, mode, file, key), |file|, mode, sent)
      ensures started <= FileBlocks(file) && bytesSent == MmapReader.Min(started * BLOCK_SIZE, |file|)
      ensures StopsAt(t.entry, mode, file, key, cancelAt, started, sent)
      ensures started + sent == if polls <= cancelAt then polls else cancelAt
      ensures polls <= cancelAt ==> started == FileBlocks(file) && sent == |AllFrames(t.entry, mode, file, key)|
      ensures started == FileBlocks(file) && (|file| + BLOCK_SIZE - 1) / BLOCK_SIZE < 0x1_0000_0000 ==>
        bytesSent == |file|
    {
      hide Frames, Datagram, DataDatagrams, FilePayload, IsRun, StopsAt, MmapReader.TotalBlocks, MmapReader.Min;
      ghost var w := t.entry;
      var total := MmapReader.TotalBlocks(|file|, BLOCK_SIZE);
      FramesSized(w, mode, file, key, total);
      var payload := FilePayload(|file|, total, mode, name);
      SendFrame(0, FILE_HEADER, payload);
      NoDatagrams(id);
      seqNum := 1;
      ghost var frames;
      started, frames := SendBlocks(t, total, trace[0]);
      sent := seqNum - 1;
      SendFrame(seqNum, COMPLETE, []);
      seqNum := seqNum + 1;
      RunIs(trace, id, name, AllFrames(w, mode, file, key), |file|, mode, frames);
      StopReached(w, mode, file, key, cancelAt, polls, started, sent);
      MmapReader.CoveredEnd(file, BLOCK_SIZE);
    }
  }
}
