/** Directory search and lookup: every hit is an on-disk entry, however stale the cached pages are. */
module FsSearch {
  import opened Bytes
  import opened Slots
  import opened BlockStore
  import opened FsState
  import opened FsTree
  import opened FsInv
  import opened FsDirs

  /** Steps that concern the page cache and the clock only. */
  ghost predicate PagesOnly(s: Fs, s': Fs) {
    s' == s.(dcache := s'.dcache, ticks := s'.ticks)
  }

  lemma PagesStepKeepsInv(s: Fs, s': Fs, g: Owners)
    requires Inv(s, g) && PagesOnly(s, s') && PagesOk(s')
    ensures Inv(s', g)
  {
    hide RowsOk, SlotsOk, StoreOk, TreeOk, OwnersOk, PageSound;
  }

  /** The page is sound for directory d. */
  ghost predicate Sound(s: Fs, d: nat, page: Block) {
    PageSound(s.store.disk, s.itab, DirSlot(d, 0, page, 0))
  }

  lemma SoundIs(s: Fs, c: DirSlot)
    ensures PageSound(s.store.disk, s.itab, c) <==> Sound(s, c.dir, c.page)
  {
  }

  /** A hit on a sound page is an on-disk entry. */
  lemma HitIsEntry(s: Fs, d: nat, page: Block, name: seq<byte>, j: nat)
    requires Sound(s, d, page) && j < PAGE_ENTRIES && EntryName(PageEntry(page, j)) == name != []
    ensures IsEntry(s.store.disk, s.itab, d, name, EntryInode(PageEntry(page, j)))
  {
  }

  /** The pages on the disk are sound: their used places are the directory's entries, the rest have no name. */
  lemma DiskPageSound(s: Fs, d: nat, i: nat, g: Owners)
    requires TreeOk(s.store.disk, s.itab, g.par) && 1 <= d < |g.par| && IsDir(s.itab, d)
    requires i < INODE_BLOCKS && i < BlocksFor(s.itab[d].size) && s.itab[d].blocks[i] < s.NumBlocks()
    ensures Sound(s, d, s.store.disk[s.itab[d].blocks[i]])
  {
    var page := s.store.disk[s.itab[d].blocks[i]];
    forall j: nat | j < PAGE_ENTRIES && EntryName(PageEntry(page, j)) != []
      ensures IsEntry(s.store.disk, s.itab, d, EntryName(PageEntry(page, j)), EntryInode(PageEntry(page, j)))
    {
      var k := PAGE_ENTRIES * i + j;
      assert k / PAGE_ENTRIES == i && k % PAGE_ENTRIES == j;
      assert DiskEntry(s.store.disk, s.itab[d], k) == PageEntry(page, j);
      if k < Count(s.itab[d]) {
        assert EntryIs(DiskEntry(s.store.disk, s.itab[d], k), EntryName(PageEntry(page, j)), EntryInode(PageEntry(page,
              j)));
      } else {
        assert TailClear(s.store.disk, s.itab, d, k);
        ZeroEntryNameless();
      }
    }
  }

  lemma ZeroEntryNameless()
    ensures EntryName(Zeros(ENTRY_SIZE)) == []
  {
    assert Zeros(ENTRY_SIZE)[..NAME_SIZE][0] == 0;
  }

  /** What the invariant says about block i of a used directory. */
  lemma DirBlock(s: Fs, d: nat, i: nat, g: Owners)
    requires Inv(s, g) && 1 <= d < |g.par| && IsDir(s.itab, d) && i < BlocksFor(s.itab[d].size)
    ensures i < 2 && META_BLOCKS <= s.itab[d].blocks[i] < s.NumBlocks()
    ensures Owns(g.own, s.itab[d].blocks[i], d, i)
  {
    DirectoriesAreSmall(s.store.disk, s.itab, g.par, d);
    assert RowOk(s.itab[d], d, g);
  }

  /** A page brought in is one of its directory's and was not cached before. */
  lemma FetchPlaces(s: Fs, d: nat, i: nat, c: DirCache)
    requires PagesOk(s) && IsDir(s.itab, d) && i < INODE_BLOCKS && i < BlocksFor(s.itab[d].size)
    requires c == FetchPage(s, d, s.itab[d].blocks[i]).0.dcache
    ensures (forall k :: 0 <= k < DIR_SLOTS ==> PagePlaced(s.itab, c[k])) && PagesApart(c)
  {
    hide PageSound, NamesHome;
    assert UsedPlace(s.itab[d], i, s.itab[d].blocks[i]);
    forall k | 0 <= k < DIR_SLOTS ensures PagePlaced(s.itab, c[k]) {
      assert PagePlaced(s.itab, s.dcache[k]);
    }
  }

  /** A directory page from the disk has names in places of entries only. */
  lemma NamedPlaceIsEntry(s: Fs, d: nat, i: nat, j: nat, g: Owners)
    requires TreeOk(s.store.disk, s.itab, g.par) && 1 <= d < |g.par| && IsDir(s.itab, d)
    requires i < INODE_BLOCKS && i < BlocksFor(s.itab[d].size) && s.itab[d].blocks[i] < s.NumBlocks()
    requires j < PAGE_ENTRIES
    ensures var x := PageEntry(s.store.disk[s.itab[d].blocks[i]], j);
      var e := PAGE_ENTRIES * i + j;
      && e / PAGE_ENTRIES == i && e % PAGE_ENTRIES == j && DiskEntry(s.store.disk, s.itab[d], e) == x
      && (EntryName(x) != [] ==> e < Count(s.itab[d]))
  {
    var e := PAGE_ENTRIES * i + j;
    assert e / PAGE_ENTRIES == i && e % PAGE_ENTRIES == j;
    if e >= Count(s.itab[d]) {
      assert TailClear(s.store.disk, s.itab, d, e);
      ZeroEntryNameless();
    }
  }

  /** Touching a slot moves no name. */
  lemma TouchKeepsHomes(s: Fs, k: nat)
    requires k < DIR_SLOTS && NamesHome(s.store.disk, s.itab, s.dcache)
    ensures NamesHome(s.store.disk, s.itab, TouchPage(s, k).dcache)
  {
    hide PageEntry, EntryName, DiskEntry;
    var c, c' := s.dcache, TouchPage(s, k).dcache;
    forall l: nat, j: nat | Names(c', l, j) && c'[l].dir < INODES
      ensures HasHome(s.store.disk, s.itab[c'[l].dir], c', c'[l].dir, PageEntry(c'[l].page, j))
    {
      assert Names(c, l, j);
      var d, x := c[l].dir, PageEntry(c[l].page, j);
      var e: nat :| Home(s.store.disk, s.itab[d], c, d, e, x);
      assert Home(s.store.disk, s.itab[d], c', d, e, x);
    }
  }

  /** A page brought in from the disk shows the entries of its block. */
  lemma AddKeepsHomes(s: Fs, d: nat, i: nat, g: Owners)
    requires TreeOk(s.store.disk, s.itab, g.par) && 1 <= d < |g.par| && IsDir(s.itab, d)
    requires i < INODE_BLOCKS && i < BlocksFor(s.itab[d].size) && s.itab[d].blocks[i] < s.NumBlocks()
    requires NamesHome(s.store.disk, s.itab, s.dcache) && PageSlotOf(s.dcache, d, s.itab[d].blocks[i]) == DIR_SLOTS
    ensures var b := s.itab[d].blocks[i]; NamesHome(s.store.disk, s.itab, AddPage(s, d, b, s.store.disk[b]).dcache)
  {
    hide TreeOk, PageEntry, EntryName;
    var b := s.itab[d].blocks[i];
    var c, c', v := s.dcache, AddPage(s, d, b, s.store.disk[b]).dcache, Victim(PageTimes(s.dcache));
    forall l: nat, j: nat | Names(c', l, j) && c'[l].dir < INODES
      ensures HasHome(s.store.disk, s.itab[c'[l].dir], c', c'[l].dir, PageEntry(c'[l].page, j))
    {
      var o, x := c'[l].dir, PageEntry(c'[l].page, j);
      if l == v {
        NamedPlaceIsEntry(s, d, i, j, g);
        assert Home(s.store.disk, s.itab[d], c', d, PAGE_ENTRIES * i + j, x);
      } else {
        assert Names(c, l, j);
        var e: nat :| Home(s.store.disk, s.itab[o], c, o, e, x);
        assert Home(s.store.disk, s.itab[o], c', o, e, x);
      }
    }
  }

  lemma FetchKeepsHomes(s: Fs, d: nat, i: nat, g: Owners)
    requires TreeOk(s.store.disk, s.itab, g.par) && 1 <= d < |g.par| && IsDir(s.itab, d)
    requires i < INODE_BLOCKS && i < BlocksFor(s.itab[d].size) && s.itab[d].blocks[i] < s.NumBlocks()
    requires NamesHome(s.store.disk, s.itab, s.dcache)
    ensures NamesHome(s.store.disk, s.itab, FetchPage(s, d, s.itab[d].blocks[i]).0.dcache)
  {
    hide TreeOk, NamesHome;
    var k := PageSlotOf(s.dcache, d, s.itab[d].blocks[i]);
    if k < DIR_SLOTS {
      TouchKeepsHomes(s, k);
    } else {
      AddKeepsHomes(s, d, i, g);
    }
  }

  lemma FetchPageOk(s: Fs, d: nat, i: nat, g: Owners)
    requires Inv(s, g) && 1 <= d < |g.par| && IsDir(s.itab, d) && i < BlocksFor(s.itab[d].size)
    ensures var (s', page) := FetchPage(s, d, s.itab[d].blocks[i]);
      PagesOnly(s, s') && Inv(s', g) && page.Some? && Sound(s, d, page.value)
  {
    hide RowsOk, SlotsOk, StoreOk, TreeOk, OwnersOk, PageSound, MapsOk, PagePlaced, PagesApart, NamesHome;
    DirBlock(s, d, i, g);
    DiskPageSound(s, d, i, g);
    var b := s.itab[d].blocks[i];
    var s' := FetchPage(s, d, b).0;
    FetchPlaces(s, d, i, s'.dcache);
    FetchKeepsHomes(s, d, i, g);
    forall k | 0 <= k < DIR_SLOTS ensures PageSound(s'.store.disk, s'.itab, s'.dcache[k]) {
      SoundIs(s, s.dcache[k]);
      SoundIs(s, s'.dcache[k]);
    }
    PagesStepKeepsInv(s, s', g);
    var k := PageSlotOf(s.dcache, d, b);
    if k < DIR_SLOTS { SoundIs(s, s.dcache[k]); }
  }

  lemma FillKeepsSound(s: Fs, d: nat, page: Block, e: seq<byte>)
    requires Sound(s, d, page) && |e| == ENTRY_SIZE
    requires IsEntry(s.store.disk, s.itab, d, EntryName(e), EntryInode(e))
    ensures Sound(s, d, FillFirstGap(page, 0, e))
  {
  }

  // ------------------------------------------------------------------ the search

  /** The block loop is at block iblock of directory d with num entries to go. */
  ghost predicate Searching(s: Fs, d: nat, name: seq<byte>, part: Option<nat>, iblock: nat, num: nat, g: Owners) {
    && Inv(s, g) && 1 <= d < |g.par| && IsDir(s.itab, d) && name != []
    && (num == 0 || num == Count(s.itab[d]) - PAGE_ENTRIES * iblock)
    && (part.Some? ==> part.value < DIR_SLOTS && s.dcache[part.value].dir == d)
  }

  lemma MoreBlocks(size: nat, iblock: nat, num: nat)
    requires size % ENTRY_SIZE == 0 && num > 0 && num == size / ENTRY_SIZE - PAGE_ENTRIES * iblock
    ensures iblock < BlocksFor(size)
  {
  }

  /** The slot seen first holds a page of the directory all through: replacing it only brings in another one. */
  lemma FetchKeepsPart(s: Fs, d: nat, b: nat, k: nat)
    requires k < DIR_SLOTS && s.dcache[k].dir == d
    ensures FetchPage(s, d, b).0.dcache[k].dir == d
  {
  }

  lemma SearchTurn(s: Fs, d: InodeId, name: seq<byte>, part: Option<nat>, iblock: nat, num: nat, g: Owners)
    returns (s1: Fs, page: Block)
    requires Searching(s, d, name, part, iblock, num, g) && num > 0
    ensures iblock < BlocksFor(s.itab[d].size) && iblock < 2
    ensures FetchPage(s, d, s.itab[d].blocks[iblock]) == (s1, Some(page)) && PagesOnly(s, s1) && Sound(s, d, page)
    ensures Searching(s1, d, name, part, iblock + 1, num - Min(PAGE_ENTRIES, num), g)
  {
    hide RowsOk, SlotsOk, StoreOk, OwnersOk, PageSound, MapsOk, PagesOk, FetchPage;
    assert TreeOk(s.store.disk, s.itab, g.par);
    MoreBlocks(s.itab[d].size, iblock, num);
    DirBlock(s, d, iblock, g);
    FetchPageOk(s, d, iblock, g);
    if part.Some? { FetchKeepsPart(s, d, s.itab[d].blocks[iblock], part.value); }
    var r := FetchPage(s, d, s.itab[d].blocks[iblock]);
    s1, page := r.0, r.1.value;
  }

  /** Filling a gap leaves every place with a name as it is. */
  lemma {:induction false} FillKeepsNamed(page: Block, j: nat, e: seq<byte>, i: nat)
    requires |e| == ENTRY_SIZE && i < PAGE_ENTRIES && EntryName(PageEntry(page, i)) != []
    ensures PageEntry(FillFirstGap(page, j, e), i) == PageEntry(page, i)
    decreases PAGE_ENTRIES - j
  {
    hide EntryName, PageEntry;
    if j < PAGE_ENTRIES && EntryName(PageEntry(page, j)) != [] {
      FillKeepsNamed(page, j + 1, e, i);
    }
  }

  /** An entry noted on another page of its directory is still at home. */
  lemma FillKeepsHomes(s: Fs, d: nat, k: nat, x: seq<byte>)
    requires k < DIR_SLOTS && s.dcache[k].dir == d < INODES && |x| == ENTRY_SIZE && EntryName(x) != []
    requires NamesHome(s.store.disk, s.itab, s.dcache) && HasHome(s.store.disk, s.itab[d], s.dcache, d, x)
    ensures NamesHome(s.store.disk, s.itab,
                      s.dcache[k := s.dcache[k].(page := FillFirstGap(s.dcache[k].page, 0, x))])
  {
    hide PageEntry, EntryName, DiskEntry, FillFirstGap;
    var c, page := s.dcache, FillFirstGap(s.dcache[k].page, 0, x);
    var c' := c[k := c[k].(page := page)];
    forall l: nat, j: nat | Names(c', l, j) && c'[l].dir < INODES
      ensures HasHome(s.store.disk, s.itab[c'[l].dir], c', c'[l].dir, PageEntry(c'[l].page, j))
    {
      var o, y := c'[l].dir, PageEntry(c'[l].page, j);
      if y != x { assert Names(c, l, j); }
      var e: nat :| Home(s.store.disk, s.itab[o], c, o, e, y);
      if c[k].dir == o && c[k].num == s.itab[o].blocks[e / PAGE_ENTRIES] {
        FillKeepsNamed(c[k].page, 0, x, e % PAGE_ENTRIES);
      }
      assert Home(s.store.disk, s.itab[o], c', o, e, y);
    }
  }

  /** The end of a search that hit: the entry may be noted in the page seen first. */
  lemma NoteHit(s: Fs, d: nat, part: Option<nat>, e: seq<byte>, g: Owners)
    requires Inv(s, g) && |e| == ENTRY_SIZE && IsEntry(s.store.disk, s.itab, d, EntryName(e), EntryInode(e))
    requires d < INODES && EntryName(e) != [] && HasHome(s.store.disk, s.itab[d], s.dcache, d, e)
    requires part.Some? ==> part.value < DIR_SLOTS && s.dcache[part.value].dir == d
    ensures var s' := if part.None? then s
                      else s.(dcache := s.dcache[part.value := s.dcache[part.value].(
                             page := FillFirstGap(s.dcache[part.value].page, 0, e))]);
      PagesOnly(s, s') && Inv(s', g)
  {
    hide RowsOk, SlotsOk, StoreOk, TreeOk, OwnersOk, PageSound, MapsOk, FillFirstGap, IsEntry, NamesHome, HasHome;
    if part.Some? {
      var k := part.value;
      FillKeepsHomes(s, d, k, e);
      var page := FillFirstGap(s.dcache[k].page, 0, e);
      SoundIs(s, s.dcache[k]);
      FillKeepsSound(s, d, s.dcache[k].page, e);
      var s' := s.(dcache := s.dcache[k := s.dcache[k].(page := page)]);
      SoundIs(s, s'.dcache[k]);
      PagesStepKeepsInv(s, s', g);
    }
  }

  lemma HitHasHome(s: Fs, s1: Fs, d: nat, b: nat, page: Block, j: nat, g: Owners)
    requires Inv(s1, g) && FetchPage(s, d, b) == (s1, Some(page)) && 1 <= d < INODES && j < PAGE_ENTRIES
    requires EntryName(PageEntry(page, j)) != []
    ensures HasHome(s1.store.disk, s1.itab[d], s1.dcache, d, PageEntry(page, j))
  {
    hide RowsOk, SlotsOk, StoreOk, TreeOk, OwnersOk, PageSound, MapsOk, HasHome;
    var k := if PageSlotOf(s.dcache, d, b) < DIR_SLOTS then PageSlotOf(s.dcache, d, b)
             else Victim(PageTimes(s.dcache));
    assert s1.dcache[k].dir == d && s1.dcache[k].page == page;
    assert Names(s1.dcache, k, j);
  }

  ghost predicate SearchAnswer(s: Fs, s': Fs, r: Res<nat>, d: nat, name: seq<byte>, g: Owners) {
    PagesOnly(s, s') && Inv(s', g) && !r.Abort? && (r.Ok? ==> IsEntry(s.store.disk, s.itab, d, name, r.value))
  }

  lemma {:induction false} SearchBlocksSound(s: Fs, d: InodeId, name: seq<byte>, part: Option<nat>, iblock: nat,
        num: nat, g: Owners)
    requires Searching(s, d, name, part, iblock, num, g)
    ensures part.Some? ==> part.value < DIR_SLOTS
    ensures var (s', r) := SearchBlocks(s, d, name, part, iblock, num); SearchAnswer(s, s', r, d, name, g)
    decreases num
  {
    hide Inv, FetchPage, ScanPage, PageSound, IsEntry, HasHome;
    if num > 0 {
      var s1, page := SearchTurn(s, d, name, part, iblock, num, g);
      var n := Min(PAGE_ENTRIES, num);
      var j := ScanPage(page, name, 0, n);
      if j.None? {
        SearchBlocksSound(s1, d, name, part, iblock + 1, num - n, g);
      } else {
        HitIsEntry(s, d, page, name, j.value);
        HitHasHome(s, s1, d, s.itab[d].blocks[iblock], page, j.value, g);
        NoteHit(s1, d, part, PageEntry(page, j.value), g);
      }
    }
  }

  lemma TouchPageKeepsInv(s: Fs, k: nat, g: Owners)
    requires Inv(s, g) && k < DIR_SLOTS
    ensures Inv(TouchPage(s, k), g)
  {
    hide RowsOk, SlotsOk, StoreOk, TreeOk, OwnersOk, PageSound, MapsOk, NamesHome;
    var s1 := TouchPage(s, k);
    TouchKeepsHomes(s, k);
    forall i | 0 <= i < DIR_SLOTS
      ensures PageSound(s1.store.disk, s1.itab, s1.dcache[i]) && PagePlaced(s1.itab, s1.dcache[i])
    {
      SoundIs(s, s.dcache[i]);
      SoundIs(s, s1.dcache[i]);
      assert PagePlaced(s.itab, s.dcache[i]);
    }
    PagesStepKeepsInv(s, s1, g);
  }

  /** A hit of fsi_dir_search is an on-disk entry of that directory with that name. */
  lemma DirSearchSound(s: Fs, d: InodeId, name: seq<byte>, g: Owners)
    requires Inv(s, g) && 1 <= d < |g.par| && IsDir(s.itab, d) && name != []
    ensures var (s', r) := DirSearch(s, d, name); SearchAnswer(s, s', r, d, name, g)
  {
    hide RowsOk, SlotsOk, StoreOk, TreeOk, OwnersOk, PageSound, MapsOk, ScanPage, SearchBlocks, IsEntry;
    var k := PageSlotOfDir(s.dcache, d);
    if k < DIR_SLOTS {
      var s1 := TouchPage(s, k);
      TouchPageKeepsInv(s, k, g);
      SoundIs(s, s.dcache[k]);
      var j := ScanPage(s.dcache[k].page, name, 0, PAGE_ENTRIES);
      if j.Some? {
        HitIsEntry(s, d, s.dcache[k].page, name, j.value);
      } else {
        SearchBlocksSound(s1, d, name, Some(k), 0, Count(s.itab[d]), g);
      }
    } else {
      SearchBlocksSound(s, d, name, None, 0, Count(s.itab[d]), g);
    }
  }

  // ------------------------------------------------------------------ completeness from a cold page cache

  /** No slot holds a block of directory d from its iblock-th on. */
  ghost predicate NoPageFrom(s: Fs, d: nat, iblock: nat)
    requires d < INODES
  {
    forall k, i: nat :: 0 <= k < DIR_SLOTS && s.dcache[k].dir == d && iblock <= i < INODE_BLOCKS
          && i < BlocksFor(s.itab[d].size)
      ==> s.dcache[k].num != s.itab[d].blocks[i]
  }

  lemma FetchCold(s: Fs, d: nat, i: nat, g: Owners)
    requires Inv(s, g) && 1 <= d < |g.par| && IsDir(s.itab, d) && i < BlocksFor(s.itab[d].size) && i < INODE_BLOCKS
    requires NoPageFrom(s, d, i)
    ensures var (s', page) := FetchPage(s, d, s.itab[d].blocks[i]);
      page == Some(s.store.disk[s.itab[d].blocks[i]]) && PagesOnly(s, s') && NoPageFrom(s', d, i + 1)
  {
    hide StoreOk, TreeOk, SlotsOk, PagesOk;
    DirBlock(s, d, i, g);
    var s' := FetchPage(s, d, s.itab[d].blocks[i]).0;
    forall k, j: nat | 0 <= k < DIR_SLOTS && s'.dcache[k].dir == d && i + 1 <= j < INODE_BLOCKS
          && j < BlocksFor(s.itab[d].size)
      ensures s'.dcache[k].num != s.itab[d].blocks[j]
    {
      DirBlock(s, d, j, g);
    }
  }

  ghost predicate NameAbsent(s: Fs, d: nat, name: seq<byte>, from: nat, to: nat)
    requires d < INODES
  {
    forall k: nat :: from <= k < to ==> EntryName(DiskEntry(s.store.disk, s.itab[d], k)) != name
  }

  /** A page scan without a hit rules the name out of that page's entries. */
  lemma PageAbsent(s: Fs, d: nat, name: seq<byte>, i: nat, n: nat)
    requires d < INODES && i < INODE_BLOCKS && s.itab[d].blocks[i] < s.NumBlocks() && n <= PAGE_ENTRIES
    requires ScanPage(s.store.disk[s.itab[d].blocks[i]], name, 0, n).None?
    ensures NameAbsent(s, d, name, PAGE_ENTRIES * i, PAGE_ENTRIES * i + n)
  {
    var page := s.store.disk[s.itab[d].blocks[i]];
    forall k: nat | PAGE_ENTRIES * i <= k < PAGE_ENTRIES * i + n
      ensures EntryName(DiskEntry(s.store.disk, s.itab[d], k)) != name
    {
      var j := k - PAGE_ENTRIES * i;
      assert k / PAGE_ENTRIES == i && k % PAGE_ENTRIES == j;
      assert EntryName(PageEntry(page, j)) != name;
    }
  }

  lemma {:induction false} ColdSearchComplete(s: Fs, d: InodeId, name: seq<byte>, iblock: nat, num: nat, g: Owners)
    requires Searching(s, d, name, None, iblock, num, g) && (num == 0 || NoPageFrom(s, d, iblock))
    ensures var r := SearchBlocks(s, d, name, None, iblock, num).1;
      r.Err? ==> NameAbsent(s, d, name, PAGE_ENTRIES * iblock, PAGE_ENTRIES * iblock + num)
    decreases num
  {
    hide Inv, FetchPage, ScanPage, NoPageFrom;
    if num > 0 {
      var s1, page := SearchTurn(s, d, name, None, iblock, num, g);
      FetchCold(s, d, iblock, g);
      var n := Min(PAGE_ENTRIES, num);
      if ScanPage(page, name, 0, n).None? {
        DirBlock(s, d, iblock, g);
        PageAbsent(s, d, name, iblock, n);
        ColdSearchComplete(s1, d, name, iblock + 1, num - n, g);
      }
    }
  }

  /** With no cached page of the directory, the search finds a name exactly when the disk has it. */
  lemma ColdSearchExact(s: Fs, d: InodeId, name: seq<byte>, g: Owners)
    requires Inv(s, g) && 1 <= d < |g.par| && IsDir(s.itab, d) && name != []
    requires PageSlotOfDir(s.dcache, d) == DIR_SLOTS
    ensures DirSearch(s, d, name).1.Ok? <==> exists m: nat :: IsEntry(s.store.disk, s.itab, d, name, m)
  {
    hide Inv, SearchBlocks, TouchPage, ScanPage;
    DirSearchSound(s, d, name, g);
    ColdSearchComplete(s, d, name, 0, Count(s.itab[d]), g);
    if m: nat :| IsEntry(s.store.disk, s.itab, d, name, m) {
      var k: nat :| k < Count(s.itab[d]) && EntryIs(DiskEntry(s.store.disk, s.itab[d], k), name, m);
      assert !NameAbsent(s, d, name, 0, Count(s.itab[d]));
    }
  }

  // ------------------------------------------------------------------ fs_lookup

  /** Inode m is reached from directory d along on-disk entries with these names. */
  ghost predicate Resolves(disk: seq<Block>, itab: InodeTable, d: nat, names: seq<seq<byte>>, m: nat)
    decreases |names|
  {
    if names == [] then m == d
    else exists x: nat :: IsEntry(disk, itab, d, names[0], x) && Resolves(disk, itab, x, names[1..], m)
  }

  lemma EntryUsed(disk: seq<Block>, itab: InodeTable, par: seq<(nat, nat)>, d: nat, name: seq<byte>, m: nat)
    requires TreeOk(disk, itab, par) && d < |par| && IsEntry(disk, itab, d, name, m)
    ensures d < m < |par|
  {
    var k: nat :| k < Count(itab[d]) && EntryIs(DiskEntry(disk, itab[d], k), name, m);
    assert EntryListed(disk, itab, par, d, k);
  }

  ghost predicate LookupAnswer(s: Fs, s': Fs, r: Lookup, d: nat, names: seq<seq<byte>>, g: Owners) {
    && PagesOnly(s, s') && Inv(s', g) && !r.Fault?
    && (r.Found? ==> 1 <= r.id < |g.par| && Resolves(s.store.disk, s.itab, d, names, r.id))
  }

  lemma {:induction false} LookupFromSound(s: Fs, d: nat, names: seq<seq<byte>>, g: Owners)
    requires Inv(s, g) && 1 <= d < |g.par| && forall i :: 0 <= i < |names| ==> names[i] != []
    ensures var (s', r) := LookupFrom(s, d, names); LookupAnswer(s, s', r, d, names, g)
    decreases |names|
  {
    hide RowsOk, SlotsOk, StoreOk, OwnersOk, PagesOk, DirSearch, IsEntry;
    if names != [] && s.itab[d].itype == FS_DIR {
      DirSearchSound(s, d, names[0], g);
      var (s1, r) := DirSearch(s, d, names[0]);
      if r.Ok? {
        EntryUsed(s.store.disk, s.itab, g.par, d, names[0], r.value);
        LookupFromSound(s1, r.value, names[1..], g);
      }
    }
  }

  /**
   fs_lookup changes the page cache only and never leaves its arrays; an inode it finds is reached from the root
   along on-disk entries with the path's names, however stale the cached pages.
   */
  lemma LookupSound(s: Fs, path: seq<byte>, g: Owners)
    requires Inv(s, g)
    ensures var (s', r) := FsLookup(s, path); LookupAnswer(s, s', r, ROOT, Tokens(path), g)
    ensures FsLookup(s, path).1 == RootOnly <==> path != [] && path[0] == SLASH && Tokens(path) == []
  {
    hide RowsOk, SlotsOk, StoreOk, OwnersOk, PagesOk, TreeOk, DirSearch, IsEntry, Resolves;
    if path != [] && path[0] == SLASH && Tokens(path) != [] {
      LookupFromSound(s, ROOT, Tokens(path), g);
      LookupIsNotRootOnly(s, ROOT, Tokens(path));
    }
  }

  lemma {:induction false} LookupIsNotRootOnly(s: Fs, d: nat, names: seq<seq<byte>>)
    ensures LookupFrom(s, d, names).1 != RootOnly
    decreases |names|
  {
    if names != [] && d < INODES {
      var (s1, r) := DirSearch(s, d, names[0]);
      if r.Ok? {
        LookupIsNotRootOnly(s1, r.value, names[1..]);
      }
    }
  }
}
