/** snfs_server/block.c: blocks of fixed size laid one after the other in a flat byte array. */
module BlockDevice {
  import opened Bytes

  /** Block b lies inside the array, and different blocks do not overlap. */
  lemma BlockRange(b: nat, n: nat, size: nat)
    requires b < n
    ensures 0 <= b * size && b * size + size <= n * size
  {
    assert n * size == b * size + size + (n - b - 1) * size;
  }

  lemma BlocksApart(b: nat, c: nat, size: nat)
    requires b < c
    ensures b * size + size <= c * size
  {
    assert c * size == b * size + size + (c - b - 1) * size;
  }

  class Device {
    const blockSize: nat
    const numBlocks: nat
    const bytes: array<byte>

    /** The array really has room for all blocks. */
    ghost predicate Valid() {
      bytes.Length == numBlocks * blockSize
    }

    /** Block b as it lies in the array. */
    ghost function BlockAt(b: nat): (r: seq<byte>)
      requires Valid() && b < numBlocks
      reads bytes
      ensures |r| == blockSize
    {
      BlockRange(b, numBlocks, blockSize);
      bytes[b * blockSize..b * blockSize + blockSize]
    }

    /** The device as the sequence of its blocks. */
    ghost function Contents(): (r: seq<seq<byte>>)
      requires Valid()
      reads bytes
      ensures |r| == numBlocks && forall b :: 0 <= b < numBlocks ==> r[b] == BlockAt(b) && |r[b]| == blockSize
    {
      seq(numBlocks, b requires 0 <= b < numBlocks reads bytes => BlockAt(b))
    }

    /** The size of the allocation is computed in 32 bits, so it is right exactly when the product fits. */
    constructor (n: nat, size: nat)
      ensures numBlocks == n && blockSize == size && fresh(bytes)
      ensures bytes.Length == n * size % U32
      ensures Valid() <==> n * size < U32
      ensures forall i :: 0 <= i < bytes.Length ==> bytes[i] == 0
    {
      numBlocks := n;
      blockSize := size;
      assert n * size >= 0;
      bytes := new byte[n * size % U32](_ => 0);
    }

    /** block_new: none for an empty device, else one whose blocks are all zero. */
    static method New(n: nat, size: nat) returns (d: Device?)
      ensures d == null <==> n * size % U32 == 0
      ensures d != null ==> fresh(d) && fresh(d.bytes) && d.numBlocks == n && d.blockSize == size
      ensures d != null && n * size < U32 ==> d.Valid() && forall b :: 0 <= b < n ==> d.Contents()[b] == Zeros(size)
    {
      assert n * size >= 0;
      if n * size % U32 == 0 {
        return null;
      }
      d := new Device(n, size);
      if n * size < U32 {
        forall b | 0 <= b < n ensures d.BlockAt(b) == Zeros(size) {
          BlockRange(b, n, size);
        }
      }
    }

    /** block_read: a number past the end leaves the caller's buffer as it was. */
    method Read(blockNo: nat, block: array<byte>) returns (status: int)
      requires Valid() && blockSize <= block.Length && block != bytes
      modifies block
      ensures status == if blockNo < numBlocks then 0 else -1
      ensures status == 0 ==> block[..blockSize] == Contents()[blockNo] && block[blockSize..] == old(block[blockSize..])
      ensures status == -1 ==> block[..] == old(block[..])
    {
      if blockNo >= numBlocks {
        return -1;
      }
      BlockRange(blockNo, numBlocks, blockSize);
      var ptr := blockNo * blockSize;
      forall i | 0 <= i < blockSize {
        block[i] := bytes[ptr + i];
      }
      assert block[..blockSize] == BlockAt(blockNo);
      status := 0;
    }

    /** block_write replaces one block and touches no other; a number past the end changes nothing. */
    method Write(blockNo: nat, block: seq<byte>) returns (status: int)
      requires Valid() && |block| == blockSize
      modifies bytes
      ensures status == if blockNo < numBlocks then 0 else -1
      ensures Contents() == if blockNo < numBlocks then old(Contents())[blockNo := block] else old(Contents())
    {
      if blockNo >= numBlocks {
        return -1;
      }
      BlockRange(blockNo, numBlocks, blockSize);
      var ptr := blockNo * blockSize;
      forall i | 0 <= i < blockSize {
        bytes[ptr + i] := block[i];
      }
      forall b | 0 <= b < numBlocks ensures BlockAt(b) == if b == blockNo then block else old(BlockAt(b)) {
        BlockRange(b, numBlocks, blockSize);
        if b < blockNo {
          BlocksApart(b, blockNo, blockSize);
        } else if b > blockNo {
          BlocksApart(blockNo, b, blockSize);
        }
      }
      status := 0;
    }
  }
}
