/**
 What the directory page cache lets through: which page a search or a listing gets for each block of a directory, and
 exactly when a search finds a name, in every state and under any clock.
 */
module FsPages {
  import opened Bytes
  import opened Slots
  import opened BlockStore
  import ExactLru
  import opened FsState
  import opened FsTree
  import opened FsInv
  import opened FsDirs
  import opened FsSearch

  // ------------------------------------------------------------------ the pages a call gets

  /** Read in order from block `from` on, the page for block i comes from the disk. */
  predicate Afresh(s: Fs, d: nat, ino: Inode, from: nat, i: nat)
    requires from <= i < INODE_BLOCKS
    decreases i - from
  {
    if from == i then PageSlotOf(s.dcache, d, ino.blocks[i]) == DIR_SLOTS
    else Afresh(FetchPage(s, d, ino.blocks[from]).0, d, ino, from + 1, i)
  }

  /** The page a call gets for block i when it reads from block `from` on. */
  function PageRead(s: Fs, d: nat, ino: Inode, from: nat, i: nat): Block
    requires from <= i < INODE_BLOCKS
    decreases i - from
  {
    if from == i then
      var page := FetchPage(s, d, ino.blocks[i]).1;
      if page.Some? then page.value else Zeros(BLOCK_SIZE)
    else PageRead(FetchPage(s, d, ino.blocks[from]).0, d, ino, from + 1, i)
  }

  /** Entry e of a directory as a call reading from block `from` on sees it. */
  function EntryRead(s: Fs, d: nat, ino: Inode, from: nat, e: nat): (x: seq<byte>)
    ensures |x| == ENTRY_SIZE
  {
    if from <= e / PAGE_ENTRIES < INODE_BLOCKS then
      PageEntry(PageRead(s, d, ino, from, e / PAGE_ENTRIES), e % PAGE_ENTRIES)
    else Zeros(ENTRY_SIZE)
  }

  /** A used directory and a record of it, perhaps a stale one. */
  ghost predicate DirRecord(s: Fs, d: nat, ino: Inode, g: Owners) {
    Inv(s, g) && 1 <= d < |g.par| && IsDir(s.itab, d) && DirPrefix(ino, s.itab[d])
  }

  lemma FetchKeepsRecord(s: Fs, d: nat, ino: Inode, i: nat, g: Owners)
    requires DirRecord(s, d, ino, g) && i < BlocksFor(ino.size)
    ensures i < 2 && META_BLOCKS <= ino.blocks[i] < s.NumBlocks() && ino.blocks[i] == s.itab[d].blocks[i]
    ensures DirRecord(FetchPage(s, d, ino.blocks[i]).0, d, ino, g)
    ensures PagesOnly(s, FetchPage(s, d, ino.blocks[i]).0)
  {
    hide Inv, FetchPage;
    assert BlocksFor(ino.size) <= BlocksFor(s.itab[d].size);
    DirBlock(s, d, i, g);
    FetchPageOk(s, d, i, g);
  }

  /** Two blocks of a directory are different. */
  lemma BlocksApart(s: Fs, d: nat, ino: Inode, i: nat, j: nat, g: Owners)
    requires DirRecord(s, d, ino, g) && i < j < BlocksFor(ino.size)
    ensures j < INODE_BLOCKS && ino.blocks[i] != ino.blocks[j]
  {
    hide Inv;
    assert BlocksFor(ino.size) <= BlocksFor(s.itab[d].size);
    DirBlock(s, d, i, g);
    DirBlock(s, d, j, g);
  }

  /** Reading one page leaves another, if it stays at all, as it was. */
  lemma FetchKeepsOther(s: Fs, d: nat, b: nat, x: nat)
    requires PagesApart(s.dcache) && d != 0 && b != x
    ensures var (c, k) := (FetchPage(s, d, b).0.dcache, PageSlotOf(FetchPage(s, d, b).0.dcache, d, x));
      k < DIR_SLOTS ==> PageSlotOf(s.dcache, d, x) == k && c[k].page == s.dcache[k].page
  {
    var k := PageSlotOf(FetchPage(s, d, b).0.dcache, d, x);
    if k < DIR_SLOTS {
      var l := PageSlotOf(s.dcache, d, x);
      assert s.dcache[k].dir == d && s.dcache[k].num == x;
    }
  }

  lemma ApartOfInv(s: Fs, g: Owners)
    requires Inv(s, g)
    ensures PagesApart(s.dcache) && NamesHome(s.store.disk, s.itab, s.dcache)
  {
  }

  /** A page read is the disk's or the one cached at the beginning. */
  lemma {:induction false} PageReadIs(s: Fs, d: nat, ino: Inode, from: nat, i: nat, g: Owners)
    requires DirRecord(s, d, ino, g) && from <= i < INODE_BLOCKS && i < BlocksFor(ino.size)
    ensures var (b, k) := (ino.blocks[i], PageSlotOf(s.dcache, d, ino.blocks[i]));
      if Afresh(s, d, ino, from, i) then b < s.NumBlocks() && PageRead(s, d, ino, from, i) == s.store.disk[b]
      else k < DIR_SLOTS && PageRead(s, d, ino, from, i) == s.dcache[k].page
    decreases i - from
  {
    hide Inv, DirPrefix;
    FetchKeepsRecord(s, d, ino, i, g);
    if from < i {
      hide FetchPage;
      FetchKeepsRecord(s, d, ino, from, g);
      BlocksApart(s, d, ino, from, i, g);
      ApartOfInv(s, g);
      FetchKeepsOther(s, d, ino.blocks[from], ino.blocks[i]);
      PageReadIs(FetchPage(s, d, ino.blocks[from]).0, d, ino, from + 1, i, g);
    }
  }

  // ------------------------------------------------------------------ what a search finds

  /** One of the entries e .. to-1, as they are read, has the name. */
  ghost predicate NameRead(s: Fs, d: nat, ino: Inode, name: seq<byte>, from: nat, to: nat) {
    exists e: nat :: PAGE_ENTRIES * from <= e < to && ReadsAs(s, d, ino, name, from, e)
  }

  ghost predicate ReadsAs(s: Fs, d: nat, ino: Inode, name: seq<byte>, from: nat, e: nat) {
    EntryName(EntryRead(s, d, ino, from, e)) == name
  }

  /** The entries of the first page, then the rest. */
  lemma NameReadStep(s: Fs, d: nat, ino: Inode, name: seq<byte>, from: nat, n: nat, num: nat)
    requires from < INODE_BLOCKS && 0 < num && n == Min(PAGE_ENTRIES, num)
    ensures NameRead(s, d, ino, name, from, PAGE_ENTRIES * from + num)
      <==> ScanPage(PageRead(s, d, ino, from, from), name, 0, n).Some?
           || NameRead(FetchPage(s, d, ino.blocks[from]).0, d, ino, name, from + 1,
                       PAGE_ENTRIES * (from + 1) + (num - n))
  {
    hide EntryName, PageEntry, FetchPage;
    var s1, to := FetchPage(s, d, ino.blocks[from]).0, PAGE_ENTRIES * from + num;
    assert num > n ==> to == PAGE_ENTRIES * (from + 1) + (num - n);
    var j := ScanPage(PageRead(s, d, ino, from, from), name, 0, n);
    if j.Some? {
      var e := PAGE_ENTRIES * from + j.value;
      assert e / PAGE_ENTRIES == from && e % PAGE_ENTRIES == j.value;
      assert ReadsAs(s, d, ino, name, from, e);
    }
    forall e: nat | PAGE_ENTRIES * (from + 1) <= e
      ensures ReadsAs(s, d, ino, name, from, e) == ReadsAs(s1, d, ino, name, from + 1, e)
    {
    }
    if NameRead(s, d, ino, name, from, to) {
      var e: nat :| PAGE_ENTRIES * from <= e < to && ReadsAs(s, d, ino, name, from, e);
      if e < PAGE_ENTRIES * (from + 1) {
        assert e / PAGE_ENTRIES == from && e % PAGE_ENTRIES == e - PAGE_ENTRIES * from;
      } else {
        assert ReadsAs(s1, d, ino, name, from + 1, e);
      }
    }
    if NameRead(s1, d, ino, name, from + 1, PAGE_ENTRIES * (from + 1) + (num - n)) {
      var e: nat :| PAGE_ENTRIES * (from + 1) <= e < to && ReadsAs(s1, d, ino, name, from + 1, e);
      assert ReadsAs(s, d, ino, name, from, e);
    }
  }

  lemma NextPageRead(s: Fs, d: nat, ino: Inode, i: nat, page: Block)
    requires i < INODE_BLOCKS && FetchPage(s, d, ino.blocks[i]).1 == Some(page)
    ensures PageRead(s, d, ino, i, i) == page
  {
  }

  /** The block loop finds the name on the next page or on one of the others. */
  lemma SearchUnfolds(s: Fs, d: InodeId, name: seq<byte>, part: Option<nat>, iblock: nat, num: nat, s1: Fs,
        page: Block)
    requires num > 0 && iblock < INODE_BLOCKS && (part.Some? ==> part.value < DIR_SLOTS)
    requires FetchPage(s, d, s.itab[d].blocks[iblock]) == (s1, Some(page))
    ensures var n := Min(PAGE_ENTRIES, num);
      SearchBlocks(s, d, name, part, iblock, num).1.Ok? <==>
        ScanPage(page, name, 0, n).Some? || SearchBlocks(s1, d, name, part, iblock + 1, num - n).1.Ok?
  {
    hide FetchPage, ScanPage, FillFirstGap, EntryInode, PageEntry;
  }

  lemma {:induction false} SearchBlocksExact(s: Fs, d: InodeId, name: seq<byte>, part: Option<nat>, iblock: nat,
        num: nat, g: Owners)
    requires Searching(s, d, name, part, iblock, num, g)
    ensures part.Some? ==> part.value < DIR_SLOTS
    ensures SearchBlocks(s, d, name, part, iblock, num).1.Ok?
      <==> NameRead(s, d, s.itab[d], name, iblock, PAGE_ENTRIES * iblock + num)
    decreases num
  {
    hide Inv, FetchPage, ScanPage, NameRead, PageRead, SearchBlocks, Sound, BlocksFor;
    if num > 0 {
      var s1, page := SearchTurn(s, d, name, part, iblock, num, g);
      var n := Min(PAGE_ENTRIES, num);
      NextPageRead(s, d, s.itab[d], iblock, page);
      NameReadStep(s, d, s.itab[d], name, iblock, n, num);
      SearchUnfolds(s, d, name, part, iblock, num, s1, page);
      SearchBlocksExact(s1, d, name, part, iblock + 1, num - n, g);
    } else {
      NothingRead(s, d, name, part, iblock);
    }
  }

  lemma NothingRead(s: Fs, d: InodeId, name: seq<byte>, part: Option<nat>, from: nat)
    requires part.Some? ==> part.value < DIR_SLOTS
    ensures !NameRead(s, d, s.itab[d], name, from, PAGE_ENTRIES * from)
    ensures SearchBlocks(s, d, name, part, from, 0) == (s, Err)
  {
  }

  /** The state in which the search starts to read the directory's blocks. */
  function SearchStart(s: Fs, d: nat): Fs {
    var k := PageSlotOfDir(s.dcache, d);
    if k < DIR_SLOTS then TouchPage(s, k) else s
  }

  /** The page looked at before any block is read has the name in one of its 32 places. */
  predicate OnFirstPage(s: Fs, d: nat, name: seq<byte>) {
    var k := PageSlotOfDir(s.dcache, d);
    k < DIR_SLOTS && ScanPage(s.dcache[k].page, name, 0, PAGE_ENTRIES).Some?
  }

  lemma StartIsSearching(s: Fs, d: InodeId, name: seq<byte>, g: Owners)
    requires Inv(s, g) && 1 <= d < |g.par| && IsDir(s.itab, d) && name != []
    ensures var (t, k) := (SearchStart(s, d), PageSlotOfDir(s.dcache, d));
      && Searching(t, d, name, if k < DIR_SLOTS then Some(k) else None, 0, Count(s.itab[d]), g)
      && PagesOnly(s, t) && DirRecord(t, d, s.itab[d], g)
  {
    hide Inv;
    var k := PageSlotOfDir(s.dcache, d);
    if k < DIR_SLOTS { TouchPageKeepsInv(s, k, g); }
  }

  /** Exactly what fsi_dir_search finds: a name on the first page it sees, or among the entries as it reads them. */
  lemma SearchExact(s: Fs, d: InodeId, name: seq<byte>, g: Owners)
    requires Inv(s, g) && 1 <= d < |g.par| && IsDir(s.itab, d) && name != []
    ensures DirSearch(s, d, name).1.Ok?
      <==> OnFirstPage(s, d, name)
           || NameRead(SearchStart(s, d), d, s.itab[d], name, 0, Count(s.itab[d]))
  {
    hide Inv, SearchBlocks, ScanPage, NameRead;
    StartIsSearching(s, d, name, g);
    var k := PageSlotOfDir(s.dcache, d);
    SearchBlocksExact(SearchStart(s, d), d, name, if k < DIR_SLOTS then Some(k) else None, 0, Count(s.itab[d]), g);
  }

  // ------------------------------------------------------------------ what a search that misses leaves behind

  /** No cached page of the directory has the name, in any of its places. */
  ghost predicate Clear(s: Fs, d: nat, name: seq<byte>) {
    forall k :: 0 <= k < DIR_SLOTS && s.dcache[k].dir == d ==> ScanPage(s.dcache[k].page, name, 0, PAGE_ENTRIES).None?
  }

  /** A name on any cached page is found: its own block's page shows it too. */
  lemma CachedNameIsRead(s: Fs, d: InodeId, name: seq<byte>, k: nat, j: nat, g: Owners)
    requires DirRecord(s, d, s.itab[d], g) && name != []
    requires k < DIR_SLOTS && s.dcache[k].dir == d && j < PAGE_ENTRIES
    requires EntryName(PageEntry(s.dcache[k].page, j)) == name
    ensures NameRead(s, d, s.itab[d], name, 0, Count(s.itab[d]))
  {
    ApartOfInv(s, g);
    var row, x := s.itab[d], PageEntry(s.dcache[k].page, j);
    assert Names(s.dcache, k, j);
    var e: nat :| Home(s.store.disk, row, s.dcache, d, e, x);
    assert row.size % ENTRY_SIZE == 0 by { SizeOfDir(s, d, g); }
    hide Inv, EntryName, PageEntry, Afresh, PageRead;
    assert e / PAGE_ENTRIES < BlocksFor(row.size);
    PageReadIs(s, d, row, 0, e / PAGE_ENTRIES, g);
    assert ReadsAs(s, d, row, name, 0, e);
  }

  lemma SizeOfDir(s: Fs, d: nat, g: Owners)
    requires Inv(s, g) && 1 <= d < |g.par| && IsDir(s.itab, d)
    ensures s.itab[d].size % ENTRY_SIZE == 0
  {
  }

  lemma MissIsClear(s: Fs, d: InodeId, name: seq<byte>, g: Owners)
    requires Inv(s, g) && 1 <= d < |g.par| && IsDir(s.itab, d) && name != [] && DirSearch(s, d, name).1.Err?
    ensures Clear(SearchStart(s, d), d, name)
  {
    hide Inv, DirSearch, NameRead, ScanPage, EntryName, PageEntry;
    SearchExact(s, d, name, g);
    StartIsSearching(s, d, name, g);
    var t := SearchStart(s, d);
    forall k | 0 <= k < DIR_SLOTS && t.dcache[k].dir == d
      ensures ScanPage(t.dcache[k].page, name, 0, PAGE_ENTRIES).None?
    {
      var j := ScanPage(t.dcache[k].page, name, 0, PAGE_ENTRIES);
      if j.Some? { CachedNameIsRead(t, d, name, k, j.value, g); }
    }
  }

  /** A page just read that misses the name among its entries misses it everywhere. */
  lemma FetchKeepsClear(s: Fs, d: nat, i: nat, name: seq<byte>, n: nat, g: Owners)
    requires Inv(s, g) && 1 <= d < |g.par| && IsDir(s.itab, d) && i < BlocksFor(s.itab[d].size) && name != []
    requires Clear(s, d, name) && i < INODE_BLOCKS && n <= PAGE_ENTRIES
    requires n == PAGE_ENTRIES || PAGE_ENTRIES * i + n == Count(s.itab[d])
    requires var page := FetchPage(s, d, s.itab[d].blocks[i]).1;
      page.Some? ==> ScanPage(page.value, name, 0, n).None?
    ensures Clear(FetchPage(s, d, s.itab[d].blocks[i]).0, d, name)
  {
    hide RowsOk, SlotsOk, StoreOk, OwnersOk, MapsOk, PagesOk, ScanPage;
    DirBlock(s, d, i, g);
    var page := s.store.disk[s.itab[d].blocks[i]];
    if PageSlotOf(s.dcache, d, s.itab[d].blocks[i]) == DIR_SLOTS {
      var j := ScanPage(page, name, 0, PAGE_ENTRIES);
      if j.Some? { NamedPlaceIsEntry(s, d, i, j.value, g); }
    }
  }

  /** Once the block loop is through, the page it read last is cached. */
  ghost predicate LastCached(s: Fs, d: nat, ino: Inode, num: nat) {
    num > 0 && (num - 1) / PAGE_ENTRIES < INODE_BLOCKS ==>
      PageSlotOf(s.dcache, d, ino.blocks[(num - 1) / PAGE_ENTRIES]) < DIR_SLOTS
  }

  lemma FetchedIsCached(s: Fs, d: nat, b: nat)
    requires b < s.NumBlocks()
    ensures PageSlotOf(FetchPage(s, d, b).0.dcache, d, b) < DIR_SLOTS
  {
    var k := PageSlotOf(s.dcache, d, b);
    var v := if k < DIR_SLOTS then k else Victim(PageTimes(s.dcache));
    assert FetchPage(s, d, b).0.dcache[v].dir == d && FetchPage(s, d, b).0.dcache[v].num == b;
  }

  lemma {:induction false} MissLeaves(s: Fs, d: InodeId, name: seq<byte>, part: Option<nat>, iblock: nat, num: nat,
        total: nat, g: Owners)
    requires Searching(s, d, name, part, iblock, num, g) && Clear(s, d, name)
    requires num > 0 ==> total == PAGE_ENTRIES * iblock + num
    requires num == 0 ==> LastCached(s, d, s.itab[d], total)
    ensures part.Some? ==> part.value < DIR_SLOTS
    ensures var (s', r) := SearchBlocks(s, d, name, part, iblock, num);
      r.Err? ==> Clear(s', d, name) && LastCached(s', d, s.itab[d], total)
    decreases num
  {
    hide Inv, FetchPage, ScanPage, Clear;
    if num > 0 {
      var s1, page := SearchTurn(s, d, name, part, iblock, num, g);
      var n := Min(PAGE_ENTRIES, num);
      if ScanPage(page, name, 0, n).None? {
        FetchKeepsClear(s, d, iblock, name, n, g);
        DirBlock(s, d, iblock, g);
        FetchedIsCached(s, d, s.itab[d].blocks[iblock]);
        MissLeaves(s1, d, name, part, iblock + 1, num - n, total, g);
      }
    }
  }

  /** After a search that missed, no cached page of the directory has the name and its last page is cached. */
  lemma AfterMiss(s: Fs, d: InodeId, name: seq<byte>, g: Owners)
    requires Inv(s, g) && 1 <= d < |g.par| && IsDir(s.itab, d) && name != [] && DirSearch(s, d, name).1.Err?
    ensures var s1 := DirSearch(s, d, name).0;
      PagesOnly(s, s1) && Inv(s1, g) && Clear(s1, d, name) && LastCached(s1, d, s.itab[d], Count(s.itab[d]))
  {
    MissIsClear(s, d, name, g);
    DirSearchSound(s, d, name, g);
    hide Inv, SearchBlocks, ScanPage, Clear, IsEntry;
    StartIsSearching(s, d, name, g);
    var k := PageSlotOfDir(s.dcache, d);
    MissLeaves(SearchStart(s, d), d, name, if k < DIR_SLOTS then Some(k) else None, 0, Count(s.itab[d]),
               Count(s.itab[d]), g);
  }

  // ------------------------------------------------------------------ what a name no cached page has is found by

  /** Some entry on the disk has the name and its page is read afresh. */
  ghost predicate NameAfresh(s: Fs, d: InodeId, ino: Inode, name: seq<byte>, to: nat) {
    exists e: nat :: e < to && EntryAfresh(s, d, ino, name, e)
  }

  ghost predicate EntryAfresh(s: Fs, d: InodeId, ino: Inode, name: seq<byte>, e: nat) {
    && e / PAGE_ENTRIES < INODE_BLOCKS && Afresh(s, d, ino, 0, e / PAGE_ENTRIES)
    && EntryName(DiskEntry(s.store.disk, ino, e)) == name
  }

  /** When no cached page has the name, it is read exactly where its page is read afresh. */
  lemma ClearRead(s: Fs, d: InodeId, ino: Inode, name: seq<byte>, to: nat, g: Owners)
    requires DirRecord(s, d, ino, g) && Clear(s, d, name) && to <= Count(ino)
    ensures NameRead(s, d, ino, name, 0, to) <==> NameAfresh(s, d, ino, name, to)
  {
    hide Inv, ScanPage, EntryName, PageEntry, Afresh, PageRead;
    forall e: nat | e < to
      ensures ReadsAs(s, d, ino, name, 0, e) <==> EntryAfresh(s, d, ino, name, e)
    {
      assert e / PAGE_ENTRIES < BlocksFor(ino.size);
      FetchKeepsRecord(s, d, ino, e / PAGE_ENTRIES, g);
      PageReadIs(s, d, ino, 0, e / PAGE_ENTRIES, g);
    }
  }

  /** The pages of the first entries are all cached. */
  predicate AllCached(s: Fs, d: nat, ino: Inode, to: nat) {
    forall i: nat :: i < INODE_BLOCKS && PAGE_ENTRIES * i < to ==> PageSlotOf(s.dcache, d, ino.blocks[i]) < DIR_SLOTS
  }

  /** Reading pages that are all cached brings in none. */
  lemma {:induction false} CachedNotAfresh(s: Fs, d: nat, ino: Inode, from: nat, i: nat)
    requires from <= i < INODE_BLOCKS
    requires forall j :: from <= j <= i ==> PageSlotOf(s.dcache, d, ino.blocks[j]) < DIR_SLOTS
    ensures !Afresh(s, d, ino, from, i)
    decreases i - from
  {
    if from < i {
      var k := PageSlotOf(s.dcache, d, ino.blocks[from]);
      var s1 := FetchPage(s, d, ino.blocks[from]).0;
      assert PageKeys(s1.dcache) == PageKeys(s.dcache);
      CachedNotAfresh(s1, d, ino, from + 1, i);
    }
  }

  // ------------------------------------------------------------------ under a clock that strictly increases

  /** Every page was stamped before now. */
  ghost predicate Older(s: Fs) {
    forall k :: 0 <= k < DIR_SLOTS ==> s.dcache[k].last < s.Now()
  }

  /** The page is cached and stamped after all others. */
  ghost predicate Newest(s: Fs, d: nat, b: nat) {
    var k := PageSlotOf(s.dcache, d, b);
    k < DIR_SLOTS && forall j :: 0 <= j < DIR_SLOTS && j != k ==> s.dcache[j].last < s.dcache[k].last
  }

  /** The page read last is the newest, and the one before stays: it is not the oldest of four. */
  lemma FetchNewest(s: Fs, d: nat, b: nat, x: nat)
    requires Older(s) && s.time(s.ticks) < s.time(s.ticks + 1) && b < s.NumBlocks()
    ensures var s1 := FetchPage(s, d, b).0;
      && Older(s1) && Newest(s1, d, b) && (Newest(s, d, x) ==> PageSlotOf(s1.dcache, d, x) < DIR_SLOTS)
  {
    var s1, k := FetchPage(s, d, b).0, PageSlotOf(s.dcache, d, b);
    if k < DIR_SLOTS {
      assert PageKeys(s1.dcache) == PageKeys(s.dcache);
    } else {
      var v := Victim(PageTimes(s.dcache));
      assert s1.dcache[v].dir == d && s1.dcache[v].num == b;
      assert forall j :: 0 <= j < DIR_SLOTS && j != v ==> s1.dcache[j] == s.dcache[j];
      assert PageSlotOf(s1.dcache, d, b) == v;
      if Newest(s, d, x) {
        var l := PageSlotOf(s.dcache, d, x);
        var o := if l == 0 then 1 else 0;
        assert PageTimes(s.dcache)[v] <= PageTimes(s.dcache)[o];
        assert s1.dcache[l] == s.dcache[l];
      }
    }
  }

  lemma {:induction false} MissKeepsPages(s: Fs, d: InodeId, name: seq<byte>, part: Option<nat>, iblock: nat, num: nat,
        total: nat, g: Owners)
    requires Searching(s, d, name, part, iblock, num, g) && Older(s) && ExactLru.Ticking(s.time)
    requires AllCached(s, d, s.itab[d], if num > 0 then PAGE_ENTRIES * iblock else total)
    requires num > 0 ==> total == PAGE_ENTRIES * iblock + num
    requires 0 < iblock <= INODE_BLOCKS && num > 0 ==> Newest(s, d, s.itab[d].blocks[iblock - 1])
    ensures part.Some? ==> part.value < DIR_SLOTS
    ensures var (s', r) := SearchBlocks(s, d, name, part, iblock, num);
      r.Err? ==> AllCached(s', d, s.itab[d], total)
    decreases num
  {
    hide Inv, FetchPage, ScanPage, Older, Newest, PageSlotOf, ExactLru.Ticking;
    if num > 0 {
      var s1, page := SearchTurn(s, d, name, part, iblock, num, g);
      var n := Min(PAGE_ENTRIES, num);
      if ScanPage(page, name, 0, n).None? {
        DirBlock(s, d, iblock, g);
        ExactLru.TickingPositive(s.time, s.ticks);
        var row := s.itab[d];
        FetchNewest(s, d, row.blocks[iblock], if iblock > 0 then row.blocks[iblock - 1] else 0);
        FetchedIsCached(s, d, row.blocks[iblock]);
        assert AllCached(s1, d, row, if num > n then PAGE_ENTRIES * (iblock + 1) else total);
        MissKeepsPages(s1, d, name, part, iblock + 1, num - n, total, g);
      }
    }
  }

  /** Under such a clock a search that missed leaves all pages of the directory cached. */
  lemma AfterMissAllCached(s: Fs, d: InodeId, name: seq<byte>, g: Owners)
    requires Inv(s, g) && 1 <= d < |g.par| && IsDir(s.itab, d) && name != [] && DirSearch(s, d, name).1.Err?
    requires Older(s) && ExactLru.Ticking(s.time)
    ensures AllCached(DirSearch(s, d, name).0, d, s.itab[d], Count(s.itab[d]))
  {
    hide Inv, SearchBlocks, ScanPage;
    StartIsSearching(s, d, name, g);
    ExactLru.TickingPositive(s.time, s.ticks);
    var k := PageSlotOfDir(s.dcache, d);
    MissKeepsPages(SearchStart(s, d), d, name, if k < DIR_SLOTS then Some(k) else None, 0, Count(s.itab[d]),
                   Count(s.itab[d]), g);
  }
}
