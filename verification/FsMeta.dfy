/** fsi_store_fsdata and fsi_load_fsdata of snfs_server/fs.c: the metadata image in blocks 0-9, byte by byte. */
module FsMeta {
  import opened Bytes
  import opened BlockStore
  import opened FsState
  import opened FsInv

  const INODE_BYTES: nat := 64
  const ROWS_PER_BLOCK: nat := 8
  const TABLE_BLOCKS: nat := 8

  function EncodeWords(w: seq<nat>): (e: seq<byte>)
    ensures |e| == 4 * |w|
  {
    if w == [] then [] else Encode32(w[0]) + EncodeWords(w[1..])
  }

  function DecodeWords(e: seq<byte>, n: nat): (w: seq<nat>)
    requires |e| == 4 * n
    ensures |w| == n
  {
    if n == 0 then [] else [Decode32(e[..4])] + DecodeWords(e[4..], n - 1)
  }

  /** The 64 bytes of an fs_inode_t. */
  function EncodeInode(ino: Inode): (e: seq<byte>)
    ensures |e| == INODE_BYTES
  {
    EncodeWords([ino.itype, ino.size] + ino.blocks + ino.reserved)
  }

  function DecodeInode(e: seq<byte>): Inode
    requires |e| == INODE_BYTES
  {
    var w := DecodeWords(e, 16);
    Inode(w[0], w[1], w[2..12], w[12..])
  }

  function EncodeRows(rows: seq<Inode>): (e: seq<byte>)
    ensures |e| == INODE_BYTES * |rows|
  {
    if rows == [] then [] else EncodeInode(rows[0]) + EncodeRows(rows[1..])
  }

  /** The i-th 512 bytes of the inode table. */
  function TableBlock(itab: InodeTable, i: nat): Block
    requires i < TABLE_BLOCKS
  {
    EncodeRows(itab[ROWS_PER_BLOCK * i..ROWS_PER_BLOCK * (i + 1)])
  }

  /** The table loop of fsi_store_fsdata, from table block i on. */
  function StoreTable(disk: seq<Block>, itab: InodeTable, i: nat): (r: seq<Block>)
    requires i <= TABLE_BLOCKS && META_BLOCKS <= |disk|
    ensures |r| == |disk|
    ensures forall b :: 0 <= b < |disk| ==>
      r[b] == if i + 2 <= b < META_BLOCKS then TableBlock(itab, b - 2) else disk[b]
    decreases TABLE_BLOCKS - i
  {
    if i == TABLE_BLOCKS then disk
    else StoreTable(DiskWrite(disk, i + 2, TableBlock(itab, i)), itab, i + 1)
  }

  /** fsi_store_fsdata */
  function StoreMeta(s: Fs): (r: Fs)
    ensures r == s.(store := s.store.(disk := r.store.disk)) && r.NumBlocks() == s.NumBlocks()
    ensures r.store.disk[0] == s.blkMap && r.store.disk[1] == s.inoMap
    ensures forall i :: 0 <= i < TABLE_BLOCKS ==> r.store.disk[i + 2] == TableBlock(s.itab, i)
    ensures forall b :: META_BLOCKS <= b < s.NumBlocks() ==> r.store.disk[b] == s.store.disk[b]
  {
    var disk := DiskWrite(DiskWrite(s.store.disk, 0, s.blkMap), 1, s.inoMap);
    s.(store := s.store.(disk := StoreTable(disk, s.itab, 0)))
  }

  /** Row n of the table in the image. */
  function ImageRow(disk: seq<Block>, n: nat): (e: seq<byte>)
    requires n < INODES && META_BLOCKS <= |disk|
    ensures |e| == INODE_BYTES
  {
    disk[2 + n / ROWS_PER_BLOCK][INODE_BYTES * (n % ROWS_PER_BLOCK)..INODE_BYTES * (n % ROWS_PER_BLOCK) + INODE_BYTES]
  }

  /** The inode table fsi_load_fsdata reads from the image. */
  function LoadTable(disk: seq<Block>): InodeTable
    requires META_BLOCKS <= |disk|
  {
    seq(INODES, n requires 0 <= n < INODES => DecodeInode(ImageRow(disk, n)))
  }

  // ------------------------------------------------------------------ round trip

  lemma {:induction false} WordsRoundTrip(w: seq<nat>)
    requires forall i :: 0 <= i < |w| ==> w[i] < U32
    ensures DecodeWords(EncodeWords(w), |w|) == w
  {
    hide Encode32, Decode32;
    if w != [] {
      var e := EncodeWords(w);
      Decode32Encode32(w[0]);
      assert e[..4] == Encode32(w[0]);
      assert e[4..] == EncodeWords(w[1..]);
      WordsRoundTrip(w[1..]);
    }
  }

  lemma InodeRoundTrip(ino: Inode)
    requires Fits(ino)
    ensures DecodeInode(EncodeInode(ino)) == ino
  {
    var w := [ino.itype, ino.size] + ino.blocks + ino.reserved;
    WordsRoundTrip(w);
    assert w[2..12] == ino.blocks;
    assert w[12..] == ino.reserved;
  }

  lemma {:induction false} RowInBlock(rows: seq<Inode>, j: nat)
    requires j < |rows|
    ensures EncodeRows(rows)[INODE_BYTES * j..INODE_BYTES * j + INODE_BYTES] == EncodeInode(rows[j])
  {
    var e := EncodeRows(rows);
    if j > 0 {
      RowInBlock(rows[1..], j - 1);
      var tail := EncodeRows(rows[1..]);
      assert e[INODE_BYTES * j..INODE_BYTES * j + INODE_BYTES]
          == tail[INODE_BYTES * (j - 1)..INODE_BYTES * (j - 1) + INODE_BYTES];
    }
  }

  lemma RowInImage(s: Fs, n: nat)
    requires n < INODES
    ensures ImageRow(StoreMeta(s).store.disk, n) == EncodeInode(s.itab[n])
  {
    hide EncodeInode;
    var i, j := n / ROWS_PER_BLOCK, n % ROWS_PER_BLOCK;
    assert StoreMeta(s).store.disk[i + 2] == TableBlock(s.itab, i);
    var rows := s.itab[ROWS_PER_BLOCK * i..ROWS_PER_BLOCK * (i + 1)];
    RowInBlock(rows, j);
    assert rows[j] == s.itab[n];
  }

  /** Loading what was stored gives back both maps and the whole inode table. */
  lemma StoreThenLoad(s: Fs)
    requires forall n: nat :: n < INODES ==> Fits(s.itab[n])
    ensures var disk := StoreMeta(s).store.disk;
      disk[0] == s.blkMap && disk[1] == s.inoMap && LoadTable(disk) == s.itab
  {
    hide EncodeInode, DecodeInode, ImageRow, TableBlock;
    forall n: nat | n < INODES ensures DecodeInode(ImageRow(StoreMeta(s).store.disk, n)) == s.itab[n] {
      RowInImage(s, n);
      InodeRoundTrip(s.itab[n]);
    }
  }

  // ------------------------------------------------------------------ layout

  /** The words of an fs_inode_t: type, size, ten block numbers, four reserved words. */
  function Word(ino: Inode, w: nat): nat
    requires w < 16
  {
    if w == 0 then ino.itype
    else if w == 1 then ino.size
    else if w < 12 then ino.blocks[w - 2]
    else ino.reserved[w - 12]
  }

  lemma {:induction false} WordAt(ws: seq<nat>, w: nat)
    requires w < |ws| && ws[w] < U32
    ensures Decode32(EncodeWords(ws)[4 * w..4 * w + 4]) == ws[w]
  {
    hide Encode32, Decode32;
    var e := EncodeWords(ws);
    if w == 0 {
      Decode32Encode32(ws[0]);
      assert e[..4] == Encode32(ws[0]);
    } else {
      WordAt(ws[1..], w - 1);
      assert e[4 * w..4 * w + 4] == EncodeWords(ws[1..])[4 * (w - 1)..4 * (w - 1) + 4];
    }
  }

  lemma PartOfPart(b: Block, at: nat, x: nat)
    requires at + INODE_BYTES <= BLOCK_SIZE && x + 4 <= INODE_BYTES
    ensures b[at..at + INODE_BYTES][x..x + 4] == b[at + x..at + x + 4]
  {
    var row := b[at..at + INODE_BYTES];
    var p, q := row[x..x + 4], b[at + x..at + x + 4];
    forall i | 0 <= i < 4 ensures p[i] == q[i] { assert p[i] == row[x + i] && q[i] == b[at + x + i]; }
  }

  /** Where the stored table has each word: row n lies in block 2 + n / 8, 64 bytes a row, words little-endian. */
  lemma StoredWord(s: Fs, n: nat, w: nat)
    requires n < INODES && w < 16 && Fits(s.itab[n])
    ensures var (block, at) := (StoreMeta(s).store.disk[2 + n / 8], 64 * (n % 8) + 4 * w);
      Decode32(block[at..at + 4]) == Word(s.itab[n], w)
  {
    hide Encode32, Decode32, EncodeWords, StoreMeta;
    var ino, row := s.itab[n], ImageRow(StoreMeta(s).store.disk, n);
    RowInImage(s, n);
    WordAt([ino.itype, ino.size] + ino.blocks + ino.reserved, w);
    PartOfPart(StoreMeta(s).store.disk[2 + n / 8], INODE_BYTES * (n % ROWS_PER_BLOCK), 4 * w);
  }
}
