/** tl_mmap_get_block of mmap_reader.h and the partition of a file into blocks. */
module MmapReader {
  import opened Arithmetic
  import opened Options
  import opened Bytes

  /** The mapped file; map.size is |data|. */
  class Mapping {
    var data: Bytes

    constructor (contents: Bytes)
      ensures data == contents
    {
      data := contents;
    }

    /** The returned pointer and *out_len, as the bytes they delimit; None is NULL. */
    method GetBlock(index: nat, blockSize: nat) returns (block: Option<Bytes>)
      ensures block == Block(data, index, blockSize)
    {
      var offset := index * blockSize;
      if offset >= |data| {
        return None;
      }
      var remaining := |data| - offset;
      var len := if remaining < blockSize then remaining else blockSize;
      assert offset + remaining == |data| && data[offset..|data|] == data[offset..];
      block := Some(data[offset..offset + len]);
    }
  }

  function Block(data: Bytes, index: nat, blockSize: nat): Option<Bytes> {
    if index * blockSize >= |data| then None
    else if |data| - index * blockSize < blockSize then Some(data[index * blockSize..])
    else Some(data[index * blockSize..index * blockSize + blockSize])
  }

  /** The block count of line 132 of turbolink_engine.cpp, cut to 32 bits as its type is. */
  function TotalBlocks(size: nat, blockSize: nat): (n: nat)
    requires blockSize >= 1
    ensures n < 0x1_0000_0000
  {
    (size + blockSize - 1) / blockSize % 0x1_0000_0000
  }

  /** The first n blocks, joined. */
  function Joined(data: Bytes, blockSize: nat, n: nat): Bytes {
    if n == 0 then []
    else Joined(data, blockSize, n - 1) + Block(data, n - 1, blockSize).GetOr([])
  }

  function Min(a: nat, b: nat): nat {
    if a < b then a else b
  }

  /** The first n blocks are the first n*blockSize bytes of the file, or all of it. */
  lemma {:induction false} JoinedIsPrefix(data: Bytes, blockSize: nat, n: nat)
    ensures Joined(data, blockSize, n) == data[..Min(n * blockSize, |data|)]
  {
    if n > 0 {
      JoinedIsPrefix(data, blockSize, n - 1);
      assert n * blockSize == (n - 1) * blockSize + blockSize;
    } else {
      assert n * blockSize == 0;
    }
  }

  lemma CeilFacts(size: nat, blockSize: nat)
    requires blockSize >= 1
    ensures var c := (size + blockSize - 1) / blockSize;
      size <= c * blockSize && (c > 0 ==> (c - 1) * blockSize < size)
  {}

  /** Every block below the count is there and nonempty. */
  lemma BlocksPresent(data: Bytes, blockSize: nat, index: nat)
    requires blockSize >= 1 && index < TotalBlocks(|data|, blockSize)
    ensures Block(data, index, blockSize).Some? && 0 < |Block(data, index, blockSize).value| <= blockSize
  {
    var c := (|data| + blockSize - 1) / blockSize;
    CeilFacts(|data|, blockSize);
    ProductMonotone(index, c - 1, blockSize);
  }

  lemma CoveredStart(data: Bytes, blockSize: nat)
    ensures Min(0 * blockSize, |data|) == 0
  {}

  /** All blocks cover the whole file when the count was not cut. */
  lemma CoveredEnd(data: Bytes, blockSize: nat)
    requires blockSize >= 1
    ensures (|data| + blockSize - 1) / blockSize < 0x1_0000_0000 ==>
      Min(TotalBlocks(|data|, blockSize) * blockSize, |data|) == |data|
  {
    CeilFacts(|data|, blockSize);
  }

  /** The bytes covered by one more block. */
  lemma CoveredStep(data: Bytes, blockSize: nat, n: nat)
    ensures Min((n + 1) * blockSize, |data|) == Min(n * blockSize, |data|) + |Block(data, n, blockSize).GetOr([])|
  {
    assert (n + 1) * blockSize == n * blockSize + blockSize;
  }

  /** The blocks below the 32-bit count join to the whole file exactly when the count was
      not cut. */
  lemma PartitionExact(data: Bytes, blockSize: nat)
    requires blockSize >= 1
    ensures Joined(data, blockSize, TotalBlocks(|data|, blockSize)) == data
        <==> (|data| + blockSize - 1) / blockSize < 0x1_0000_0000
  {
    var c, n := (|data| + blockSize - 1) / blockSize, TotalBlocks(|data|, blockSize);
    CeilFacts(|data|, blockSize);
    JoinedIsPrefix(data, blockSize, n);
    if c >= 0x1_0000_0000 {
      ProductMonotone(n, c - 1, blockSize);
      assert |data[..Min(n * blockSize, |data|)]| < |data|;
    }
  }
}
