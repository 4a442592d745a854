/** fs_new and fs_format: the state the server starts with. */
module FsStart {
  import opened Bytes
  import opened Bitmap
  import opened BlockStore
  import opened FsState
  import opened FsTree
  import opened FsInv
  import opened FsContent
  import opened FsCoherence
  import opened FsCalls
  import opened FsMeta

  // ------------------------------------------------------------------ fs_new and fs_format

  function ZeroDisk(n: nat): (d: seq<Block>)
    ensures |d| == n && forall b :: 0 <= b < n ==> d[b] == Zeros(BLOCK_SIZE)
  {
    seq(n, _ => Zeros(BLOCK_SIZE))
  }

  /** A zeroed device, zeroed caches, and the metadata read from the device. */
  function FsNew(n: nat, time: nat -> int): Fs
    requires META_BLOCKS < n <= 8 * BLOCK_SIZE
  {
    var disk := ZeroDisk(n);
    FsImage(Store(disk, EmptyCache()), disk[0], disk[1], LoadTable(disk),
            seq(INODE_SLOTS, _ => InodeSlot(0, NewInode(0), false, 0)),
            seq(DIR_SLOTS, _ => DirSlot(0, 0, Zeros(BLOCK_SIZE), 0)), time, 0)
  }

  /** BMAP_SET on positions i .. n-1. */
  function SetRange(m: Block, i: nat, n: nat): (r: Block)
    requires n <= 8 * BLOCK_SIZE
    decreases n - i
  {
    if i >= n then m else SetRange(Set(m, i), i + 1, n)
  }

  function FsFormat(s: Fs): Fs {
    StoreMeta(s.(store := s.store.(disk := ZeroDisk(s.NumBlocks())),
                 blkMap := SetRange(s.blkMap, 0, META_BLOCKS), inoMap := SetRange(s.inoMap, 0, 2),
                 itab := s.itab[ROOT := NewInode(FS_DIR)]))
  }

  /** The file system the server starts with. */
  function Formatted(n: nat, time: nat -> int): (s: Fs)
    requires META_BLOCKS < n <= 8 * BLOCK_SIZE
  {
    FsFormat(FsNew(n, time))
  }

  ghost const START: Owners := Owners(seq(META_BLOCKS, _ => (0, 0)), seq(2, _ => (0, 0)))

  lemma {:induction false} SetRangePrefix(m: Block, i: nat, n: nat)
    requires i <= n <= 8 * BLOCK_SIZE && Prefix(m, i)
    ensures Prefix(SetRange(m, i, n), n)
    decreases n - i
  {
    if i < n {
      SetExtendsPrefix(m, i);
      SetRangePrefix(Set(m, i), i + 1, n);
    }
  }

  lemma {:induction false} ZeroByteBits(k: nat)
    ensures !BitOf(0, k)
  {
    if k > 0 { ZeroByteBits(k - 1); }
  }

  lemma ZeroMapPrefix(m: Block)
    requires m == Zeros(BLOCK_SIZE)
    ensures Prefix(m, 0)
  {
    forall i: nat | i / 8 < |m| ensures !IsSet(m, i) { ZeroByteBits(i % 8); }
  }

  lemma {:induction false} ZeroWords(e: seq<byte>, n: nat)
    requires |e| == 4 * n && forall i :: 0 <= i < |e| ==> e[i] == 0
    ensures forall i :: 0 <= i < n ==> DecodeWords(e, n)[i] == 0
  {
    if n > 0 {
      ZeroWords(e[4..], n - 1);
      assert Decode32(e[..4]) == 0;
    }
  }

  lemma ZeroRows(disk: seq<Block>)
    requires META_BLOCKS <= |disk| && forall b :: 0 <= b < |disk| ==> disk[b] == Zeros(BLOCK_SIZE)
    ensures forall n: nat :: n < INODES ==> LoadTable(disk)[n] == NewInode(0)
  {
    forall n: nat | n < INODES ensures LoadTable(disk)[n] == NewInode(0) {
      ZeroWords(ImageRow(disk, n), 16);
      var w := DecodeWords(ImageRow(disk, n), 16);
      assert w[2..12] == NewInode(0).blocks;
      assert w[12..] == NewInode(0).reserved;
    }
  }

  /** The rows after formatting: the root is an empty directory, all others are zero. */
  lemma FormattedRows(n: nat, time: nat -> int)
    requires META_BLOCKS < n <= 8 * BLOCK_SIZE
    ensures forall i: nat :: i < INODES ==> Formatted(n, time).itab[i] == NewInode(if i == ROOT then FS_DIR else 0)
  {
    hide StoreMeta, SetRange, LoadTable;
    ZeroRows(ZeroDisk(n));
    var s := FsNew(n, time);
    forall i: nat | i < INODES ensures Formatted(n, time).itab[i] == NewInode(if i == ROOT then FS_DIR else 0) {
      assert s.itab[i] == NewInode(0);
    }
  }

  lemma FormattedMaps(n: nat, time: nat -> int)
    requires META_BLOCKS < n <= 8 * BLOCK_SIZE
    ensures Prefix(Formatted(n, time).blkMap, META_BLOCKS) && Prefix(Formatted(n, time).inoMap, 2)
  {
    hide StoreMeta, LoadTable, Prefix, SetRange;
    var s := FsNew(n, time);
    ZeroMapPrefix(s.blkMap);
    SetRangePrefix(s.blkMap, 0, META_BLOCKS);
    SetRangePrefix(s.inoMap, 0, 2);
  }

  lemma FormattedStore(n: nat, time: nat -> int)
    requires META_BLOCKS < n <= 8 * BLOCK_SIZE
    ensures var s := Formatted(n, time);
      && |s.store.disk| == n && s.store.slots == EmptyCache() && s.time == time && s.ticks == 0
      && (forall b: nat :: META_BLOCKS <= b < n ==> s.store.disk[b] == Zeros(BLOCK_SIZE))
      && (forall k :: 0 <= k < INODE_SLOTS ==> s.icache[k] == InodeSlot(0, NewInode(0), false, 0))
      && (forall k :: 0 <= k < DIR_SLOTS ==> s.dcache[k] == DirSlot(0, 0, Zeros(BLOCK_SIZE), 0))
  {
    hide LoadTable, SetRange, TableBlock;
  }

  lemma FormattedTree(n: nat, time: nat -> int)
    requires META_BLOCKS < n <= 8 * BLOCK_SIZE
    ensures var s := Formatted(n, time); TreeOk(s.store.disk, s.itab, START.par) && PagesOk(s)
  {
    hide Formatted;
    FormattedRows(n, time);
    FormattedStore(n, time);
    var s := Formatted(n, time);
    assert s.itab[0] == NewInode(0) && s.itab[ROOT] == NewInode(FS_DIR);
    assert EntrySum(s.itab, 0) == 0 && EntrySum(s.itab, 1) == EntrySum(s.itab, 0);
    assert EntrySum(s.itab, 2) == EntrySum(s.itab, 1) + Count(s.itab[ROOT]);
    forall k, j: nat | 0 <= k < DIR_SLOTS && j < PAGE_ENTRIES ensures EntryName(PageEntry(s.dcache[k].page, j)) == [] {
      assert PageEntry(Zeros(BLOCK_SIZE), j)[..NAME_SIZE][0] == 0;
    }
  }

  /** A table without files over an empty cache. */
  lemma NoFilesYet(s: Fs)
    requires forall i: nat :: i < INODES ==> s.itab[i] == NewInode(if i == ROOT then FS_DIR else 0)
    requires forall k :: 0 <= k < INODE_SLOTS ==> s.icache[k] == InodeSlot(0, NewInode(0), false, 0)
    ensures RowsOk(s.itab, START) && SlotsOk(s.icache, s.itab, START) && Coherent(s) && Files(s) == map[]
  {
    hide View, Content;
    forall i: nat | i < INODES ensures RowOk(s.itab[i], i, START) {}
    forall k | 0 <= k < INODE_SLOTS ensures SlotOk(s.icache[k], s.itab, START) {}
  }

  lemma EmptyStoreOk(st: Store, itab: InodeTable)
    requires st.slots == EmptyCache()
    requires forall b: nat :: META_BLOCKS <= b < |st.disk| ==> st.disk[b] == Zeros(BLOCK_SIZE)
    ensures StoreOk(st, itab, START.own)
  {
  }

  /** The formatted file system satisfies the invariant and holds no file. */
  lemma FormattedOk(n: nat, time: nat -> int)
    requires META_BLOCKS < n <= 8 * BLOCK_SIZE
    ensures var s := Formatted(n, time); Inv(s, START) && Coherent(s) && Files(s) == map[]
  {
    hide Formatted, TreeOk, PagesOk, RowsOk, SlotsOk, StoreOk, Coherent, Files, Prefix;
    FormattedTree(n, time);
    FormattedRows(n, time);
    FormattedMaps(n, time);
    FormattedStore(n, time);
    var s := Formatted(n, time);
    NoFilesYet(s);
    EmptyStoreOk(s.store, s.itab);
  }

  /** The metadata image on the formatted disk is the one in memory. */
  lemma FormattedImage(n: nat, time: nat -> int)
    requires META_BLOCKS < n <= 8 * BLOCK_SIZE
    ensures var s := Formatted(n, time);
      s.store.disk[0] == s.blkMap && s.store.disk[1] == s.inoMap && LoadTable(s.store.disk) == s.itab
  {
    hide LoadTable, SetRange, TableBlock, StoreMeta;
    FormattedRows(n, time);
    var s := FsNew(n, time);
    var u := s.(store := s.store.(disk := ZeroDisk(s.NumBlocks())),
                blkMap := SetRange(s.blkMap, 0, META_BLOCKS), inoMap := SetRange(s.inoMap, 0, 2),
                itab := s.itab[ROOT := NewInode(FS_DIR)]);
    assert Formatted(n, time) == StoreMeta(u);
    forall i: nat | i < INODES ensures Fits(u.itab[i]) {
      assert u.itab[i] == Formatted(n, time).itab[i];
    }
    StoreThenLoad(u);
  }

  lemma {:induction false} SetRangeIs(m: Block, i: nat, n: nat, j: nat)
    requires n <= 8 * BLOCK_SIZE && j < 8 * BLOCK_SIZE
    ensures IsSet(SetRange(m, i, n), j) <==> IsSet(m, j) || i <= j < n
    decreases n - i
  {
    hide IsSet, Set;
    if i < n {
      SetChangesOneBit(m, i, j);
      SetRangeIs(Set(m, i), i + 1, n, j);
    }
  }

  /**
   fs_format of a file system in use erases every data block on the disk but is no fresh start: exactly the files there
   were are still there, with their rows, and the three caches stay as they are.
   */
  lemma FormatKeepsFiles(s: Fs, g: Owners)
    requires Inv(s, g)
    ensures var s' := FsFormat(s);
      && (forall f: nat :: IsFile(s', f) <==> IsFile(s, f))
      && (forall f: nat :: IsFile(s, f) ==> s'.itab[f] == s.itab[f])
      && s'.store.slots == s.store.slots && s'.icache == s.icache && s'.dcache == s.dcache
      && forall b: nat :: META_BLOCKS <= b < s.NumBlocks() ==> s'.store.disk[b] == Zeros(BLOCK_SIZE)
  {
    assert RowOk(s.itab[0], 0, g) && RowOk(s.itab[ROOT], ROOT, g);
    hide Inv, SetRange, IsSet, TableBlock;
    forall f: nat | f < INODES ensures IsSet(FsFormat(s).inoMap, f) <==> IsSet(s.inoMap, f) || f < 2 {
      SetRangeIs(s.inoMap, 0, 2, f);
    }
  }

  /** So formatting leaves no file exactly when there was none. */
  lemma FormatEmptiesIff(s: Fs, g: Owners)
    requires Inv(s, g)
    ensures Files(FsFormat(s)) == map[] <==> Files(s) == map[]
  {
    FormatKeepsFiles(s, g);
    hide Inv, FsFormat, IsFile, Content, Eff;
    if f: nat :| f < INODES && IsFile(s, f) {
      assert f in Files(s) && f in Files(FsFormat(s));
    }
  }

}
