/** What fs_readdir and fs_get_attrs say about a directory exactly, whatever the caches hold. */
module FsListing {
  import opened Bytes
  import opened Bitmap
  import opened BlockStore
  import opened FsState
  import opened FsTree
  import opened FsInv
  import opened FsAlloc
  import opened FsWriting
  import opened FsCoherence
  import opened FsCalls
  import opened FsDirs
  import opened FsPages
  import opened FsNamespace

  /** Line k of the listing a directory should give: the entry's name and the type of its inode. */
  function Line(disk: seq<Block>, itab: InodeTable, dir: InodeId, k: nat): Listed {
    var e := DiskEntry(disk, itab[dir], k);
    Listed(EntryName(e), if EntryInode(e) < INODES then itab[EntryInode(e)].itype else UNKNOWN_TYPE)
  }

  function Lines(disk: seq<Block>, itab: InodeTable, dir: InodeId, to: nat): (l: seq<Listed>)
    ensures |l| == to && forall k :: 0 <= k < |l| ==> l[k] == Line(disk, itab, dir, k)
  {
    seq(to, k requires 0 <= k => Line(disk, itab, dir, k))
  }

  // ------------------------------------------------------------------ the listing as it is read

  /** The type a listing gives for inode number n. */
  function TypeOf(s: Fs, n: nat): int {
    if n < INODES && IsSet(s.inoMap, n) then s.itab[n].itype else UNKNOWN_TYPE
  }

  /** Which copy of the inode the type is taken from makes no difference. */
  lemma ListedTypeIs(s: Fs, n: nat, g: Owners)
    requires Inv(s, g)
    ensures ListedType(s, n).1 == TypeOf(s, n)
  {
    hide StoreOk, TreeOk, PagesOk;
    if n < INODES { UsedIffBelow(s, g, n); }
    var k := InodeSlotOf(s.icache, n);
    if k < INODE_SLOTS {
      assert SlotOk(s.icache[k], s.itab, g);
    }
  }

  function LineOf(s: Fs, x: seq<byte>): Listed
    requires |x| == ENTRY_SIZE
  {
    Listed(EntryName(x), TypeOf(s, EntryInode(x)))
  }

  function PageLines(s: Fs, page: Block, j: nat, n: nat): (l: seq<Listed>)
    requires j <= n <= PAGE_ENTRIES
    ensures |l| == n - j && forall i :: 0 <= i < |l| ==> l[i] == LineOf(s, PageEntry(page, j + i))
  {
    seq(n - j, i requires 0 <= i < n - j => LineOf(s, PageEntry(page, j + i)))
  }

  /** Entries 0 .. to-1 of a record, as they are read, line by line. */
  function LinesRead(s: Fs, dir: InodeId, ino: Inode, from: nat, to: nat): (l: seq<Listed>)
    requires PAGE_ENTRIES * from <= to
    ensures |l| == to - PAGE_ENTRIES * from
    ensures forall i :: 0 <= i < |l| ==> l[i] == LineOf(s, EntryRead(s, dir, ino, from, PAGE_ENTRIES * from + i))
  {
    seq(to - PAGE_ENTRIES * from, i requires 0 <= i => LineOf(s, EntryRead(s, dir, ino, from, PAGE_ENTRIES * from + i)))
  }

  lemma {:induction false} ListPageIs(s: Fs, page: Block, j: nat, n: nat, acc: seq<Listed>, g: Owners)
    requires Inv(s, g) && j <= n <= PAGE_ENTRIES
    ensures var (s', lines) := ListPage(s, page, j, n, acc);
      && lines == acc + PageLines(s, page, j, n)
      && s'.store == s.store && s'.itab == s.itab && s'.dcache == s.dcache && s'.inoMap == s.inoMap
    decreases n - j
  {
    hide Inv, ListedType, EntryName, EntryInode, PageEntry, Quiet;
    if j < n {
      var x := PageEntry(page, j);
      ListedTypeIs(s, EntryInode(x), g);
      ListedTypeOk(s, EntryInode(x), g);
      TypeStepKeeps(s, EntryInode(x));
      var s1 := ListedType(s, EntryInode(x)).0;
      QuietInv(s, s1, g);
      var acc1 := acc + [LineOf(s, x)];
      ListPageIs(s1, page, j + 1, n, acc1, g);
      assert PageLines(s, page, j, n) == [LineOf(s, x)] + PageLines(s1, page, j + 1, n);
    } else {
      assert acc + PageLines(s, page, j, n) == acc;
    }
  }

  lemma TypeStepKeeps(s: Fs, n: nat)
    ensures var s1 := ListedType(s, n).0;
      s1.store == s.store && s1.itab == s.itab && s1.dcache == s.dcache && s1.inoMap == s.inoMap
  {
  }

  /** The next page depends on the disk and the page cache alone. */
  lemma NextPageSame(s1: Fs, s2: Fs, dir: InodeId, ino: Inode, i: nat)
    requires s2.store == s1.store && s2.dcache == s1.dcache && i < INODE_BLOCKS
    ensures PageRead(s2, dir, ino, i, i) == PageRead(s1, dir, ino, i, i)
  {
  }

  lemma RestSame(s: Fs, s1: Fs, s2: Fs, dir: InodeId, ino: Inode, iblock: nat, e: nat)
    requires iblock < INODE_BLOCKS && s1 == FetchPage(s, dir, ino.blocks[iblock]).0
    requires s2.store == s1.store && s2.dcache == s1.dcache && s2.itab == s.itab && s2.inoMap == s.inoMap
    requires e / PAGE_ENTRIES == iblock + 1 < INODE_BLOCKS
    ensures EntryRead(s2, dir, ino, iblock + 1, e) == EntryRead(s, dir, ino, iblock, e)
    ensures LineOf(s2, EntryRead(s2, dir, ino, iblock + 1, e)) == LineOf(s, EntryRead(s, dir, ino, iblock, e))
  {
    hide FetchPage, PageEntry, EntryName, EntryInode;
    NextPageSame(s1, s2, dir, ino, iblock + 1);
  }

  /** One page of a listing: its lines, then those of the rest. */
  lemma LinesStep(s: Fs, s1: Fs, s2: Fs, dir: InodeId, ino: Inode, iblock: nat, n: nat, num: nat, page: Block)
    requires 0 < num && n == Min(PAGE_ENTRIES, num) && iblock < 2 && PAGE_ENTRIES * iblock + num <= 62
    requires FetchPage(s, dir, ino.blocks[iblock]) == (s1, Some(page))
    requires s1 == s.(dcache := s1.dcache, ticks := s1.ticks)
    requires s2.store == s1.store && s2.dcache == s1.dcache && s2.itab == s.itab && s2.inoMap == s.inoMap
    ensures num > n ==> num - n + PAGE_ENTRIES * (iblock + 1) == PAGE_ENTRIES * iblock + num
    ensures LinesRead(s, dir, ino, iblock, PAGE_ENTRIES * iblock + num)
         == PageLines(s1, page, 0, n)
            + LinesRead(s2, dir, ino, iblock + 1, PAGE_ENTRIES * (iblock + 1) + (num - n))
  {
    hide FetchPage, PageEntry, EntryName, EntryInode;
    var all, first := LinesRead(s, dir, ino, iblock, PAGE_ENTRIES * iblock + num), PageLines(s1, page, 0, n);
    var rest := LinesRead(s2, dir, ino, iblock + 1, PAGE_ENTRIES * (iblock + 1) + (num - n));
    forall i | 0 <= i < num ensures all[i] == (first + rest)[i] {
      var e := PAGE_ENTRIES * iblock + i;
      if i < n {
        assert e / PAGE_ENTRIES == iblock && e % PAGE_ENTRIES == i;
      } else {
        assert e / PAGE_ENTRIES == iblock + 1;
        RestSame(s, s1, s2, dir, ino, iblock, e);
      }
    }
  }

  lemma {:induction false} ListBlocksExact(s: Fs, dir: InodeId, ino: Inode, iblock: nat, num: nat, acc: seq<Listed>,
        g: Owners)
    requires DirRecord(s, dir, ino, g) && (num == 0 || num + PAGE_ENTRIES * iblock <= Count(ino))
    ensures ListBlocks(s, dir, ino, iblock, num, acc).1
         == Ok(acc + LinesRead(s, dir, ino, iblock, PAGE_ENTRIES * iblock + num))
    decreases num
  {
    hide Inv, FetchPage, ListPage, DirPrefix, LinesRead, PageLines;
    if num > 0 {
      assert iblock < BlocksFor(ino.size);
      FetchKeepsRecord(s, dir, ino, iblock, g);
      FetchPageIs(s, dir, ino.blocks[iblock]);
      var (s1, page) := FetchPage(s, dir, ino.blocks[iblock]);
      var n := Min(PAGE_ENTRIES, num);
      ListPageIs(s1, page.value, 0, n, acc, g);
      ListPageKeepsInv(s1, dir, page.value, n, acc, g);
      var (s2, acc2) := ListPage(s1, page.value, 0, n, acc);
      SmallRecord(s, dir, ino, g);
      LinesStep(s, s1, s2, dir, ino, iblock, n, num, page.value);
      ListBlocksExact(s2, dir, ino, iblock + 1, num - n, acc2, g);
      var rest := LinesRead(s2, dir, ino, iblock + 1, PAGE_ENTRIES * (iblock + 1) + (num - n));
      assert acc2 + rest == acc + (PageLines(s1, page.value, 0, n) + rest);
    } else {
      NoLines(s, dir, ino, iblock);
      assert acc + LinesRead(s, dir, ino, iblock, PAGE_ENTRIES * iblock) == acc;
    }
  }

  lemma NoLines(s: Fs, dir: InodeId, ino: Inode, iblock: nat)
    ensures LinesRead(s, dir, ino, iblock, PAGE_ENTRIES * iblock) == []
  {
  }

  lemma FetchPageIs(s: Fs, d: nat, b: nat)
    requires b < s.NumBlocks()
    ensures FetchPage(s, d, b).1.Some?
  {
  }

  lemma SmallRecord(s: Fs, dir: InodeId, ino: Inode, g: Owners)
    requires DirRecord(s, dir, ino, g)
    ensures Count(ino) <= 62
  {
    DirectoriesAreSmall(s.store.disk, s.itab, g.par, dir);
  }

  lemma {:induction false} ListPageKeepsInvFrom(s: Fs, page: Block, j: nat, n: nat, acc: seq<Listed>, g: Owners)
    requires Inv(s, g) && j <= n <= PAGE_ENTRIES
    ensures Inv(ListPage(s, page, j, n, acc).0, g)
    decreases n - j
  {
    hide Inv, ListedType, EntryName, EntryInode, PageEntry, Quiet;
    if j < n {
      var x := PageEntry(page, j);
      ListedTypeOk(s, EntryInode(x), g);
      var (s1, t) := ListedType(s, EntryInode(x));
      QuietInv(s, s1, g);
      ListPageKeepsInvFrom(s1, page, j + 1, n, acc + [Listed(EntryName(x), t)], g);
    }
  }

  lemma ListPageKeepsInv(s: Fs, dir: InodeId, page: Block, n: nat, acc: seq<Listed>, g: Owners)
    requires Inv(s, g) && n <= PAGE_ENTRIES
    ensures Inv(ListPage(s, page, 0, n, acc).0, g)
  {
    ListPageKeepsInvFrom(s, page, 0, n, acc, g);
  }

  /** Exactly what fs_readdir lists: the entries of the inode it works with, as the page cache lets it read them. */
  lemma ReaddirExact(s: Fs, dir: InodeId, max: nat, g: Owners)
    requires Inv(s, g) && 1 <= dir < |g.par| && IsDir(s.itab, dir)
    ensures var (t, ino) := (Acquire(s, dir).0, Eff(s, dir));
      FsReaddir(s, dir, max).1 == Ok(LinesRead(t, dir, ino, 0, Min(Count(ino), max)))
  {
    hide Inv, ListBlocks, LinesRead, PageSlotOfDir, Resident, Refers, NoDirtyCopy;
    AcquireKeepsInv(s, dir, g);
    AcquireFinds(s, dir, g);
    AcquiredDir(s, dir, g);
    CachedDirFacts(s, dir, g);
    var (t, ino) := (Acquire(s, dir).0, Eff(s, dir));
    FileFacts(s, dir, g);
    var none: seq<Listed> := [];
    ListBlocksExact(t, dir, ino, 0, Min(Count(ino), max), none, g);
    assert none + LinesRead(t, dir, ino, 0, Min(Count(ino), max)) == LinesRead(t, dir, ino, 0, Min(Count(ino), max));
  }

  lemma AcquiredDir(s: Fs, dir: InodeId, g: Owners)
    requires Inv(s, g) && 1 <= dir < |g.par| && IsDir(s.itab, dir)
    ensures var t := Acquire(s, dir).0;
      && t.store == s.store && t.dcache == s.dcache && t.inoMap == s.inoMap && SameDirRows(s.itab, t.itab)
      && t.itab[dir] == s.itab[dir]
  {
    hide StoreOk, TreeOk, PagesOk;
    WriteBackOk(s, g);
  }

  // ------------------------------------------------------------------ from a cold cache

  /** With no page cached, an entry is read as it lies on the disk, and its inode is in use. */
  lemma ColdEntry(s: Fs, t: Fs, dir: InodeId, e: nat, g: Owners)
    requires DirRecord(t, dir, t.itab[dir], g) && PageSlotOfDir(t.dcache, dir) == DIR_SLOTS && e < Count(t.itab[dir])
    requires t.store == s.store && SameDirRows(s.itab, t.itab) && t.itab[dir] == s.itab[dir]
    ensures LineOf(t, EntryRead(t, dir, t.itab[dir], 0, e)) == Line(s.store.disk, s.itab, dir, e)
  {
    assert EntryListed(t.store.disk, t.itab, g.par, dir, e);
    UsedIffBelow(t, g, EntryInode(DiskEntry(t.store.disk, t.itab[dir], e)));
    hide Inv, EntryName, EntryInode, PageEntry, Afresh, PageRead;
    assert e / PAGE_ENTRIES < BlocksFor(t.itab[dir].size);
    FetchKeepsRecord(t, dir, t.itab[dir], e / PAGE_ENTRIES, g);
    PageReadIs(t, dir, t.itab[dir], 0, e / PAGE_ENTRIES, g);
  }

  /**
   With neither the directory's inode nor any of its pages cached, fs_readdir lists exactly its entries as they lie on
   the disk, in order, with the types of their inodes, up to the caller's limit.
   */
  lemma ColdReaddirExact(s: Fs, dir: InodeId, max: nat, g: Owners)
    requires Inv(s, g) && 1 <= dir < |g.par| && IsDir(s.itab, dir)
    requires !Resident(s, dir) && PageSlotOfDir(s.dcache, dir) == DIR_SLOTS
    ensures FsReaddir(s, dir, max).1 == Ok(Lines(s.store.disk, s.itab, dir, Min(Count(s.itab[dir]), max)))
  {
    hide Inv, FsReaddir, Line, LineOf, EntryRead, Acquire, PageSlotOfDir;
    ReaddirExact(s, dir, max, g);
    AcquireKeepsInv(s, dir, g);
    AcquiredDir(s, dir, g);
    var t := Acquire(s, dir).0;
    forall e: nat | e < Count(s.itab[dir])
      ensures LineOf(t, EntryRead(t, dir, t.itab[dir], 0, e)) == Line(s.store.disk, s.itab, dir, e)
    {
      ColdEntry(s, t, dir, e, g);
    }
    var to := Min(Count(s.itab[dir]), max);
    assert Eff(s, dir) == t.itab[dir];
    assert LinesRead(t, dir, t.itab[dir], 0, to) == Lines(s.store.disk, s.itab, dir, to);
  }

  /** fs_get_attrs counts a directory's entries: all of them unless it works from a cached copy, never more. */
  lemma AttrsCountEntries(s: Fs, dir: InodeId, g: Owners)
    requires Inv(s, g) && 1 <= dir < |g.par| && IsDir(s.itab, dir)
    ensures var r := FsGetAttrs(s, dir).1;
      && r.Ok? && r.value.inodeid == dir && r.value.numEntries == Count(Eff(s, dir)) <= Count(s.itab[dir])
      && (!Resident(s, dir) ==> r.value.numEntries == Count(s.itab[dir]))
  {
    hide Inv, DirPrefix, Refers, NoDirtyCopy;
    AcquireKeepsInv(s, dir, g);
    AcquireFinds(s, dir, g);
    FileFacts(s, dir, g);
    CachedDirFacts(s, dir, g);
  }
}
