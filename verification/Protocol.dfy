/** The frame header and payload layouts of protocol.h, little-endian as memcpy leaves them. */
module Protocol {
  import opened Options
  import opened Bytes

  const MAGIC := 0x544C4E4B
  const MAX_PACKET := 1472
  const HEADER_SIZE := 15
  const BLOCK_SIZE := 1048576
  const SYMBOL_SIZE := 1400

  const FILE_HEADER: bv8 := 1
  const DATA_SYMBOL: bv8 := 2
  const COMPLETE: bv8 := 5

  type u32 = x: int | 0 <= x < 0x1_0000_0000
  type u16 = x: int | 0 <= x < 0x1_0000

  datatype Header = Header(transferId: u32, seqNum: u32, kind: bv8, payloadLen: u16)

  function WriteHeader(h: Header): (b: Bytes)
    ensures |b| == HEADER_SIZE
  {
    WriteFields(MAGIC, h)
  }

  function WriteFields(magic: u32, h: Header): (b: Bytes)
    ensures |b| == HEADER_SIZE
  {
    StoreLE(magic, 4) + StoreLE(h.transferId, 4) + StoreLE(h.seqNum, 4) + [h.kind] + StoreLE(h.payloadLen, 2)
  }

  /** None is -1: a short buffer or the wrong magic. */
  function ReadHeader(b: Bytes): Option<Header> {
    if |b| < HEADER_SIZE then None
    else if LoadLE(b[0..4]) != MAGIC then None
    else
      LoadSizes();
      Some(Header(LoadLE(b[4..8]), LoadLE(b[8..12]), b[12], LoadLE(b[13..15])))
  }

  lemma LoadSizes()
    ensures Pow256(4) == 0x1_0000_0000 && Pow256(2) == 0x1_0000 && Pow256(8) == 0x1_0000_0000_0000_0000
  {}

  /** Reading accepts exactly the buffers that start with a written header, and returns its
      fields. */
  lemma HeaderExact(b: Bytes, h: Header)
    ensures ReadHeader(b) == Some(h) <==> |b| >= HEADER_SIZE && b[..HEADER_SIZE] == WriteHeader(h)
  {
    hide StoreLE, LoadLE, Pow256;
    LoadSizes();
    if |b| >= HEADER_SIZE {
      assert b[..HEADER_SIZE] == b[0..4] + b[4..8] + b[8..12] + [b[12]] + b[13..15];
      FieldExact(b[0..4], MAGIC);
      FieldExact(b[4..8], h.transferId);
      FieldExact(b[8..12], h.seqNum);
      FieldExact(b[13..15], h.payloadLen);
      var w := WriteHeader(h);
      assert w[0..4] == StoreLE(MAGIC, 4) && w[4..8] == StoreLE(h.transferId, 4);
      assert w[8..12] == StoreLE(h.seqNum, 4) && w[13..15] == StoreLE(h.payloadLen, 2);
      if b[..HEADER_SIZE] == w {
        assert b[0..4] == w[0..4] && b[4..8] == w[4..8] && b[8..12] == w[8..12] && b[13..15] == w[13..15];
      }
    }
  }

  /** A field reads as x exactly when it holds the bytes of x. */
  lemma FieldExact(s: Bytes, x: nat)
    requires x < Pow256(|s|)
    ensures LoadLE(s) == x <==> s == StoreLE(x, |s|)
  {
    hide StoreLE, LoadLE;
    LoadStore(x, |s|);
    StoreLoad(s);
  }

  /** tl_write_header. */
  method TlWriteHeader(buf: array<bv8>, transferId: u32, seqNum: u32, kind: bv8, payloadLen: u16)
    requires buf.Length >= HEADER_SIZE
    modifies buf
    ensures buf[..HEADER_SIZE] == WriteHeader(Header(transferId, seqNum, kind, payloadLen))
    ensures forall i :: HEADER_SIZE <= i < buf.Length ==> buf[i] == old(buf[i])
  {
    hide StoreLE;
    var magic, id, sq, pl := StoreLE(MAGIC, 4), StoreLE(transferId, 4), StoreLE(seqNum, 4), StoreLE(payloadLen, 2);
    forall i | 0 <= i < 4 { buf[i] := magic[i]; }
    forall i | 0 <= i < 4 { buf[4 + i] := id[i]; }
    forall i | 0 <= i < 4 { buf[8 + i] := sq[i]; }
    buf[12] := kind;
    forall i | 0 <= i < 2 { buf[13 + i] := pl[i]; }
    assert buf[..HEADER_SIZE] == magic + id + sq + [kind] + pl;
  }

  /** The caller's tl_frame_header_t. */
  class FrameHeader {
    var magic: u32
    var transferId: u32
    var seqNum: u32
    var kind: bv8
    var payloadLen: u16

    constructor ()
    {
      magic, transferId, seqNum, kind, payloadLen := 0, 0, 0, 0, 0;
    }

    function Fields(): Header
      reads this
    {
      Header(transferId, seqNum, kind, payloadLen)
    }
  }

  /** tl_read_header.  A wrong magic is noticed only after every field has been copied. */
  method TlReadHeader(buf: array<bv8>, len: nat, out: FrameHeader) returns (rc: int)
    requires len <= buf.Length
    modifies out
    ensures rc == 0 || rc == -1
    ensures ReadHeader(buf[..len]) == if rc == 0 then Some(out.Fields()) else None
    ensures len < HEADER_SIZE ==> unchanged(out)
    ensures len >= HEADER_SIZE ==> WriteFields(out.magic, out.Fields()) == buf[..HEADER_SIZE]
  {
    hide LoadLE, StoreLE, Pow256;
    if len < HEADER_SIZE {
      return -1;
    }
    LoadSizes();
    ghost var b := buf[..len];
    assert b[0..4] == buf[0..4] && b[4..8] == buf[4..8] && b[8..12] == buf[8..12] && b[13..15] == buf[13..15];
    out.magic := LoadLE(buf[0..4]);
    out.transferId := LoadLE(buf[4..8]);
    out.seqNum := LoadLE(buf[8..12]);
    out.kind := buf[12];
    out.payloadLen := LoadLE(buf[13..15]);
    StoreLoad(buf[0..4]);
    StoreLoad(buf[4..8]);
    StoreLoad(buf[8..12]);
    StoreLoad(buf[13..15]);
    assert buf[..HEADER_SIZE] == buf[0..4] + buf[4..8] + buf[8..12] + [buf[12]] + buf[13..15];
    rc := if out.magic != MAGIC then -1 else 0;
  }

  // ---------- payloads ----------

  function FilePayload(fileSize: nat, totalBlocks: u32, fecMode: bv8, name: Bytes): (p: Bytes)
    ensures |p| == 15 + |name|
  {
    StoreLE(fileSize, 8) + StoreLE(totalBlocks, 4) + [fecMode] + StoreLE(|name|, 2) + name
  }

  function DataPayload(block: nat, index: nat, data: Bytes): (p: Bytes)
    ensures |p| == 10 + |data|
  {
    StoreLE(block, 4) + StoreLE(index, 4) + StoreLE(|data|, 2) + data
  }

  /** The fields of a data payload, as its packed struct lays them out. */
  function ParseData(p: Bytes): Option<(nat, nat, Bytes)> {
    if |p| < 10 then None
    else
      var n := LoadLE(p[8..10]);
      if |p| < 10 + n then None
      else Some((LoadLE(p[0..4]), LoadLE(p[4..8]), p[10..10 + n]))
  }

  lemma DataRoundTrip(block: u32, index: u32, data: Bytes)
    requires |data| < 0x1_0000
    ensures ParseData(DataPayload(block, index, data)) == Some((block, index, data))
  {
    hide StoreLE, LoadLE, Pow256;
    LoadSizes();
    LoadStore(block, 4);
    LoadStore(index, 4);
    LoadStore(|data|, 2);
    var p := DataPayload(block, index, data);
    assert p[0..4] == StoreLE(block, 4) && p[4..8] == StoreLE(index, 4);
    assert p[8..10] == StoreLE(|data|, 2) && p[10..10 + |data|] == data;
  }

  /** The fields of a file header payload, as its packed struct and the name after it lay them
      out. */
  function ParseFile(p: Bytes): Option<(nat, nat, bv8, Bytes)> {
    if |p| < 15 then None
    else
      var n := LoadLE(p[13..15]);
      if |p| < 15 + n then None
      else Some((LoadLE(p[0..8]), LoadLE(p[8..12]), p[12], p[15..15 + n]))
  }

  lemma FileRoundTrip(fileSize: nat, totalBlocks: u32, fecMode: bv8, name: Bytes)
    requires fileSize < Pow256(8) && |name| < 0x1_0000
    ensures ParseFile(FilePayload(fileSize, totalBlocks, fecMode, name)) == Some((fileSize, totalBlocks, fecMode, name))
  {
    hide StoreLE, LoadLE, Pow256;
    LoadSizes();
    LoadStore(fileSize, 8);
    LoadStore(totalBlocks, 4);
    LoadStore(|name|, 2);
    var p := FilePayload(fileSize, totalBlocks, fecMode, name);
    assert p[0..8] == StoreLE(fileSize, 8) && p[8..12] == StoreLE(totalBlocks, 4);
    assert p[13..15] == StoreLE(|name|, 2) && p[15..15 + |name|] == name;
  }

  // ---------- the bytes on the wire ----------

  lemma {:induction false} StoreZero(n: nat)
    ensures StoreLE(0, n) == Zeros(n)
  {
    if n > 0 {
      StoreZero(n - 1);
      StoreUnfold(0, n);
    }
  }

  lemma StoreSmall(x: nat, n: nat)
    requires x < 256 && n > 0
    ensures StoreLE(x, n) == [ByteOf(x)] + Zeros(n - 1)
  {
    hide ByteOf, StoreLE;
    StoreUnfold(x, n);
    StoreZero(n - 1);
  }

  lemma MagicBytes()
    ensures StoreLE(MAGIC, 4) == [0x4B, 0x4E, 0x4C, 0x54]
  {
    hide ByteOf, StoreLE;
    StoreUnfold(0x544C4E4B, 4);
    StoreUnfold(0x544C4E, 3);
    StoreUnfold(0x544C, 2);
    StoreUnfold(0x54, 1);
    MagicDigits();
  }

  lemma MagicDigits()
    ensures ByteOf(0x544C4E4B) == 0x4B && ByteOf(0x544C4E) == 0x4E && ByteOf(0x544C) == 0x4C && ByteOf(0x54) == 0x54
  {
    hide ByteOf;
    LowByte(0x544C4E4B, 0x4B);
    LowByte(0x544C4E, 0x4E);
    LowByte(0x544C, 0x4C);
    LowByte(0x54, 0x54);
  }

  lemma LowByte(x: nat, v: nat)
    requires v < 256 && x % 256 == v
    ensures ByteOf(x) == v as bv8
  {}

  lemma SmallDigits()
    ensures ByteOf(0x102) == 2 && ByteOf(1) == 1 && ByteOf(2) == 2 && ByteOf(100) == 100
  {}

  lemma SmallStores()
    ensures StoreLE(1, 2) == [1, 0] && StoreLE(1, 4) == [1, 0, 0, 0] && StoreLE(2, 4) == [2, 0, 0, 0]
    ensures StoreLE(0x102, 2) == [2, 1] && StoreLE(100, 8) == [100, 0, 0, 0, 0, 0, 0, 0]
  {
    hide ByteOf, StoreLE;
    SmallDigits();
    StoreSmall(1, 2);
    StoreSmall(1, 4);
    StoreSmall(2, 4);
    StoreSmall(100, 8);
    StoreUnfold(0x102, 2);
    StoreUnfold(1, 1);
  }

  /** Every header starts with the magic, and its kind byte is 1, 2 or 5. */
  lemma HeaderBytes(h: Header)
    ensures WriteHeader(h)[..4] == [0x4B, 0x4E, 0x4C, 0x54] && WriteHeader(h)[12] == h.kind
    ensures FILE_HEADER == 1 && DATA_SYMBOL == 2 && COMPLETE == 5
  {
    hide StoreLE;
    MagicBytes();
  }

  /** One header and one payload of each kind, byte by byte. */
  lemma WireExamples()
    ensures WriteHeader(Header(1, 2, DATA_SYMBOL, 0x102))
         == [0x4B, 0x4E, 0x4C, 0x54, 1, 0, 0, 0, 2, 0, 0, 0, 2, 2, 1]
    ensures FilePayload(100, 1, 0, [0x61]) == [100, 0, 0, 0, 0, 0, 0, 0, 1, 0, 0, 0, 0, 1, 0, 0x61]
    ensures DataPayload(1, 2, [7]) == [1, 0, 0, 0, 2, 0, 0, 0, 1, 0, 7]
  {
    hide StoreLE;
    MagicBytes();
    SmallStores();
  }
}
