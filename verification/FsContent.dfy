/**
 What a file contains, and what one turn of the read, allocation and write loops of snfs_server/fs.c does to it.
 */
module FsContent {
  import opened Bytes
  import opened BlockStore
  import opened FsState
  import opened FsFiles
  import opened FsTree
  import opened FsInv

  /** Byte p of a record, through the block cache. */
  function ByteAt(st: Store, ino: Inode, p: nat): byte {
    if p / BLOCK_SIZE < INODE_BLOCKS then View(st, ino.blocks[p / BLOCK_SIZE])[p % BLOCK_SIZE] else 0
  }

  function Content(st: Store, ino: Inode): (c: seq<byte>)
    ensures |c| == ino.size
  {
    seq(ino.size, p requires 0 <= p < ino.size => ByteAt(st, ino, p))
  }

  /** Same length and the same blocks in the used range; the block entries behind it may differ. */
  ghost predicate SameFile(a: Inode, b: Inode) {
    && a.itype == b.itype && a.size == b.size
    && forall i: nat :: i < INODE_BLOCKS && i < BlocksFor(a.size) ==> a.blocks[i] == b.blocks[i]
  }

  lemma InUsedRange(p: nat, size: nat)
    requires p < size
    ensures p / BLOCK_SIZE < BlocksFor(size)
  {
  }

  lemma SameFileSameContent(st: Store, a: Inode, b: Inode)
    requires SameFile(a, b) && a.size <= MAX_FILE
    ensures Content(st, a) == Content(st, b)
  {
    forall p | 0 <= p < a.size ensures ByteAt(st, a, p) == ByteAt(st, b, p) {
      InUsedRange(p, a.size);
    }
  }

  /** Content depends on the views of the used blocks only. */
  lemma ContentFrame(st: Store, st': Store, ino: Inode)
    requires ino.size <= MAX_FILE
    requires forall i: nat :: i < INODE_BLOCKS && i < BlocksFor(ino.size) ==>
          View(st', ino.blocks[i]) == View(st, ino.blocks[i])
    ensures Content(st', ino) == Content(st, ino)
  {
    forall p | 0 <= p < ino.size ensures ByteAt(st', ino, p) == ByteAt(st, ino, p) {
      InUsedRange(p, ino.size);
    }
  }

  // ------------------------------------------------------------------ reading

  lemma FetchBlockOk(s: Fs, b: nat, g: Owners)
    requires Inv(s, g) && IsFileBlock(g.own, s.itab, b)
    ensures var (s', data) := FetchBlock(s, b);
      && Inv(s', g) && s' == s.(store := s'.store, ticks := s'.ticks)
      && data == Some(View(s.store, b)) && SameViewsBut(s.store, s'.store, 0)
  {
    hide TreeOk, PagesOk, RowsOk, SlotsOk;
    var k := Slotted(s.store, b);
    var s' := FetchBlock(s, b).0;
    if k < CACHE_SLOTS {
      StoreTouch(s.store, k, s.time(s.ticks + 1), s.itab, g.own);
    } else {
      StoreAdd(s.store, b, s.store.disk[b], false, s.Now(), s.itab, g.own);
    }
    StoreStepKeepsInv(s, s', g);
  }

  /** One block's share of a read: the bytes from position p up to the end of the block or of the request. */
  lemma ChunkIsContent(st: Store, ino: Inode, from: nat, p: nat, num: nat)
    requires from <= p && p + num <= ino.size <= MAX_FILE
    requires num <= BLOCK_SIZE - p % BLOCK_SIZE && p / BLOCK_SIZE < INODE_BLOCKS
    ensures Content(st, ino)[from..p] + View(st, ino.blocks[p / BLOCK_SIZE])[p % BLOCK_SIZE..p % BLOCK_SIZE + num]
         == Content(st, ino)[from..p + num]
  {
    hide View;
    var start := p % BLOCK_SIZE;
    var chunk := View(st, ino.blocks[p / BLOCK_SIZE])[start..start + num];
    forall j | 0 <= j < num ensures Content(st, ino)[p + j] == chunk[j] {
      assert (p + j) / BLOCK_SIZE == p / BLOCK_SIZE && (p + j) % BLOCK_SIZE == start + j;
    }
    assert Content(st, ino)[p..p + num] == chunk;
  }

  lemma UsedBlockIsFileBlock(ino: Inode, n: nat, i: nat, itab: InodeTable, g: Owners)
    requires UsesOwned(ino, n, g.own) && n < INODES && itab[n].itype == FS_FILE
    requires i < INODE_BLOCKS && i < BlocksFor(ino.size)
    ensures IsFileBlock(g.own, itab, ino.blocks[i])
  {
    assert Owns(g.own, ino.blocks[i], n, i);
  }

  lemma SameViewsSameContent(st: Store, st': Store, ino: Inode, n: nat, own: seq<(nat, nat)>)
    requires UsesOwned(ino, n, own) && |own| <= |st.disk| && SameViewsBut(st, st', 0)
    ensures Content(st', ino) == Content(st, ino)
  {
    forall i: nat | i < INODE_BLOCKS && i < BlocksFor(ino.size)
      ensures View(st', ino.blocks[i]) == View(st, ino.blocks[i])
    {
      assert Owns(own, ino.blocks[i], n, i);
    }
    ContentFrame(st, st', ino);
  }

  /** The read loop has delivered acc and is about to look at the block of the next byte. */
  ghost predicate Reading(s: Fs, ino: Inode, n: nat, offset: nat, max: nat, iblock: nat, acc: seq<byte>, g: Owners) {
    && Inv(s, g) && n < INODES && s.itab[n].itype == FS_FILE && UsesOwned(ino, n, g.own)
    && offset + max <= ino.size && |acc| <= max
    && acc == Content(s.store, ino)[offset..offset + |acc|]
    && (|acc| == max || iblock == (offset + |acc|) / BLOCK_SIZE)
    && (|acc| == 0 || |acc| == max || (offset + |acc|) % BLOCK_SIZE == 0)
  }

  lemma ReadTurn(s: Fs, ino: Inode, n: nat, offset: nat, max: nat, iblock: nat, acc: seq<byte>, g: Owners)
    returns (s1: Fs, acc1: seq<byte>)
    requires Reading(s, ino, n, offset, max, iblock, acc, g) && |acc| < max
    ensures Reading(s1, ino, n, offset, max, iblock + 1, acc1, g) && |acc| < |acc1|
    ensures ReadLoop(s, ino, offset, max, iblock, acc) == ReadLoop(s1, ino, offset, max, iblock + 1, acc1)
    ensures s1 == s.(store := s1.store, ticks := s1.ticks) && SameViewsBut(s.store, s1.store, 0)
    ensures Content(s1.store, ino) == Content(s.store, ino)
  {
    hide Inv, Content, View, FetchBlock, SameViewsBut;
    var p := offset + |acc|;
    InUsedRange(p, ino.size);
    UsedBlockIsFileBlock(ino, n, iblock, s.itab, g);
    FetchBlockOk(s, ino.blocks[iblock], g);
    var (st, data) := FetchBlock(s, ino.blocks[iblock]);
    var num := Min(BLOCK_SIZE - p % BLOCK_SIZE, max - |acc|);
    s1, acc1 := st, acc + data.value[p % BLOCK_SIZE..p % BLOCK_SIZE + num];
    ChunkIsContent(s.store, ino, offset, p, num);
    InvBounds(s, g);
    SameViewsSameContent(s.store, s1.store, ino, n, g.own);
    assert |acc1| == |acc| + num;
  }

  /** The read loop delivers the requested bytes of the content, whatever it evicts on the way. */
  lemma {:induction false} ReadLoopOk(s: Fs, ino: Inode, n: nat, offset: nat, max: nat, iblock: nat, acc: seq<byte>,
        g: Owners)
    requires Reading(s, ino, n, offset, max, iblock, acc, g)
    ensures var (s', r) := ReadLoop(s, ino, offset, max, iblock, acc);
      && Inv(s', g) && s' == s.(store := s'.store, ticks := s'.ticks)
      && r == Ok(Content(s.store, ino)[offset..offset + max]) && SameViewsBut(s.store, s'.store, 0)
    decreases max - |acc|
  {
    if |acc| == max {
      hide Inv, View, Content;
    } else {
      hide Inv, Reading, View, Content, ReadLoop;
      assert |acc| <= max by { ReadingBound(s, ino, n, offset, max, iblock, acc, g); }
      var s1, acc1 := ReadTurn(s, ino, n, offset, max, iblock, acc, g);
      assert |acc1| <= max by { ReadingBound(s1, ino, n, offset, max, iblock + 1, acc1, g); }
      ReadLoopOk(s1, ino, n, offset, max, iblock + 1, acc1, g);
    }
  }

  lemma ReadingBound(s: Fs, ino: Inode, n: nat, offset: nat, max: nat, iblock: nat, acc: seq<byte>, g: Owners)
    requires Reading(s, ino, n, offset, max, iblock, acc, g)
    ensures |acc| <= max
  {
  }

  lemma InvBounds(s: Fs, g: Owners)
    requires Inv(s, g)
    ensures META_BLOCKS <= |g.own| <= |s.store.disk| && 2 <= |g.par| <= INODES
  {
  }
}
