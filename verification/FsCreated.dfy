/**
 What happens to a name just created: the directory page cache is never refreshed, so the next search or listing may
 not see it. Exactly when it does, in every state and under any clock, and under a clock that strictly increases.
 */
module FsCreated {
  import opened Bytes
  import opened BlockStore
  import opened FsState
  import opened FsTree
  import opened FsInv
  import opened FsCoherence
  import opened FsCalls
  import opened FsMeta
  import opened FsDirs
  import opened FsSearch
  import opened FsPages
  import opened FsMake
  import opened FsNamespace
  import opened FsListing
  import opened FsStart
  import opened FsRuns
  import opened FsReachable
  import opened FsClock
  import ExactLru

  // ------------------------------------------------------------------ what a creation leaves

  /** What fs_create and fs_mkdir leave of the page cache, and the directory's row. */
  lemma MakeLeaves(s: Fs, dir: nat, name: seq<byte>, itype: nat)
    requires dir < INODES && MakeNode(s, dir, name, itype).1.Ok?
    ensures var s' := MakeNode(s, dir, name, itype).0;
      var d := s.itab[dir];
      && s'.dcache == DirSearch(s, dir, name).0.dcache && name != [] && IsDir(s.itab, dir)
            && DirSearch(s, dir, name).1.Err?
      && (DirSearch(s, dir, name).0.itab == s.itab && DirSearch(s, dir, name).0.inoMap == s.inoMap ==>
            s'.itab[dir].size == d.size + ENTRY_SIZE && (d.size % BLOCK_SIZE != 0 ==> s'.itab[dir].blocks == d.blocks)
            && forall i :: 0 <= i < INODE_BLOCKS && i != NextBlock(d) ==> s'.itab[dir].blocks[i] == d.blocks[i])
  {
    hide DirSearch, StoreMeta, PutEntry, PageEntry;
  }

  lemma SearchKeepsTables(s: Fs, dir: InodeId, name: seq<byte>, g: Owners)
    requires Inv(s, g) && 1 <= dir < |g.par| && IsDir(s.itab, dir) && name != []
    ensures var s1 := DirSearch(s, dir, name).0; s1.itab == s.itab && s1.inoMap == s.inoMap
  {
    DirSearchSound(s, dir, name, g);
  }

  /** After a creation in dir: the entry stands behind the n entries that were there, no cached page has its name. */
  ghost predicate JustMade(s': Fs, dir: InodeId, n: nat, name: seq<byte>, g': Owners) {
    && DirRecord(s', dir, s'.itab[dir], g') && name != [] && n <= 61
    && s'.itab[dir].size == ENTRY_SIZE * (n + 1) && Count(s'.itab[dir]) == n + 1
    && EntryName(DiskEntry(s'.store.disk, s'.itab[dir], n)) == name
    && Clear(s', dir, name) && LastCached(s', dir, s'.itab[dir], n)
    && (n % PAGE_ENTRIES == 0 ==>
          PageSlotOf(s'.dcache, dir, s'.itab[dir].blocks[n / PAGE_ENTRIES]) == DIR_SLOTS)
  }

  /** The entry just made is the one behind the others. */
  lemma MadeEntryIsLast(s: Fs, s': Fs, dir: InodeId, name: seq<byte>, g: Owners)
    requires Inv(s, g) && 1 <= dir < |g.par| && IsDir(s.itab, dir) && Inv(s', Joined(g, dir, s.itab[dir]))
    requires IsEntry(s'.store.disk, s'.itab, dir, name, |g.par|)
    ensures EntryName(DiskEntry(s'.store.disk, s'.itab[dir], Count(s.itab[dir]))) == name
  {
    hide RowsOk, SlotsOk, StoreOk, PagesOk, OwnersOk, EntryName, EntryInode, DiskEntry;
    var par' := Joined(g, dir, s.itab[dir]).par;
    assert par'[|g.par|] == (dir, Count(s.itab[dir]));
    var k: nat :| k < Count(s'.itab[dir]) && EntryIs(DiskEntry(s'.store.disk, s'.itab[dir], k), name, |g.par|);
    assert EntryListed(s'.store.disk, s'.itab, par', dir, k);
  }

  /** A block the directory did not have before is on no cached page. */
  lemma NewBlockNotCached(s: Fs, s': Fs, dir: InodeId, g: Owners)
    requires Inv(s, g) && 1 <= dir < |g.par| && IsDir(s.itab, dir) && s.itab[dir].size % BLOCK_SIZE == 0
    requires s'.itab[dir].size == s.itab[dir].size + ENTRY_SIZE && IsDir(s'.itab, dir)
    requires Inv(s', Joined(g, dir, s.itab[dir]))
    ensures var i := NextBlock(s.itab[dir]);
      i < INODE_BLOCKS && PageSlotOf(s.dcache, dir, s'.itab[dir].blocks[i]) == DIR_SLOTS
  {
    var d, d', g' := s.itab[dir], s'.itab[dir], Joined(g, dir, s.itab[dir]);
    var i := NextBlock(d);
    assert i == BlocksFor(d.size) && i < BlocksFor(d'.size);
    DirBlock(s', dir, i, g');
    hide RowsOk, SlotsOk, StoreOk, TreeOk, OwnersOk, PageSound, MapsOk, NamesHome;
    forall k | 0 <= k < DIR_SLOTS && s.dcache[k].dir == dir ensures s.dcache[k].num != d'.blocks[i] {
      assert PagePlaced(s.itab, s.dcache[k]);
      var j: nat :| UsedPlace(d, j, s.dcache[k].num);
      DirBlock(s, dir, j, g);
    }
  }

  lemma CreationLeaves(s: Fs, dir: InodeId, name: seq<byte>, itype: nat, g: Owners) returns (g': Owners)
    requires Inv(s, g) && IsCString(name) && (itype == FS_DIR || itype == FS_FILE)
    requires MakeNode(s, dir, name, itype).1.Ok?
    ensures var (s', r) := MakeNode(s, dir, name, itype);
      && JustMade(s', dir, Count(s.itab[dir]), name, g') && IsEntry(s'.store.disk, s'.itab, dir, name, r.value)
      && s'.icache == s.icache && s'.time == s.time && 1 <= dir < |g.par| && IsDir(s.itab, dir)
      && PagesOnly(s, DirSearch(s, dir, name).0) && s'.dcache == DirSearch(s, dir, name).0.dcache
      && DirSearch(s, dir, name).1.Err? && SameUsedBlocks(s.itab[dir], s'.itab[dir])
  {
    hide Inv, MakeNode, DirSearch, IsEntry, Quiet, CoherentAt, Files, LoadTable, Clear, EntryAdded, NewRecord,
          GoodName;
    g' := MakeNodeOk(s, dir, name, itype, g);
    MakeLeaves(s, dir, name, itype);
    MakeBounds(s, dir, g);
    SearchKeepsTables(s, dir, name, g);
    AfterMiss(s, dir, name, g);
    DirSize(s, dir, g);
    var s1, s' := DirSearch(s, dir, name).0, MakeNode(s, dir, name, itype).0;
    MadeEntryIsLast(s, s', dir, name, g);
    EntryInDir(s', dir, name, |g.par|);
    SizeIsCount(s.itab[dir]);
    DirSize(s', dir, g');
    assert DirRecord(s', dir, s'.itab[dir], g');
    if s.itab[dir].size % BLOCK_SIZE == 0 { NewBlockNotCached(s1, s', dir, g); }
    SameCachePages(s1, s', dir, name, s.itab[dir], s'.itab[dir]);
  }

  ghost predicate SameUsedBlocks(d: Inode, d': Inode) {
    forall i: nat :: i < INODE_BLOCKS && i < BlocksFor(d.size) ==> d'.blocks[i] == d.blocks[i]
  }

  lemma EntryInDir(s: Fs, dir: nat, name: seq<byte>, m: nat)
    requires IsEntry(s.store.disk, s.itab, dir, name, m)
    ensures IsDir(s.itab, dir)
  {
  }

  lemma SizeIsCount(d: Inode)
    requires d.size % ENTRY_SIZE == 0
    ensures d.size == ENTRY_SIZE * Count(d) && NextBlock(d) == Count(d) / PAGE_ENTRIES
    ensures d.size % BLOCK_SIZE == 0 <==> Count(d) % PAGE_ENTRIES == 0
  {
  }

  lemma SameCachePages(s1: Fs, s': Fs, dir: InodeId, name: seq<byte>, d: Inode, d': Inode)
    requires s'.dcache == s1.dcache && d.size % ENTRY_SIZE == 0
    requires forall i :: 0 <= i < INODE_BLOCKS && i != NextBlock(d) ==> d'.blocks[i] == d.blocks[i]
    requires d.size % BLOCK_SIZE != 0 ==> d'.blocks == d.blocks
    ensures Clear(s', dir, name) == Clear(s1, dir, name)
    ensures LastCached(s', dir, d', Count(d)) == LastCached(s1, dir, d, Count(d)) && SameUsedBlocks(d, d')
  {
    hide ScanPage;
  }

  // ------------------------------------------------------------------ searched for

  /** A search starts with the same pages, one of them stamped. */
  lemma StartSamePages(s: Fs, d: InodeId, name: seq<byte>)
    ensures var t := SearchStart(s, d);
      && PageKeys(t.dcache) == PageKeys(s.dcache) && (Clear(s, d, name) ==> Clear(t, d, name))
      && forall b: nat :: PageSlotOf(t.dcache, d, b) == PageSlotOf(s.dcache, d, b)
  {
    hide ScanPage;
    assert PageKeys(SearchStart(s, d).dcache) == PageKeys(s.dcache);
  }

  /** The block of the new entry, when it is a new one, is read afresh. */
  lemma NewBlockAfresh(t: Fs, dir: InodeId, ino: Inode, n: nat, name: seq<byte>, g: Owners)
    requires DirRecord(t, dir, ino, g) && n < Count(ino) && n % PAGE_ENTRIES == 0 && n / PAGE_ENTRIES < INODE_BLOCKS
    requires PageSlotOf(t.dcache, dir, ino.blocks[n / PAGE_ENTRIES]) == DIR_SLOTS
    requires EntryName(DiskEntry(t.store.disk, ino, n)) == name
    ensures EntryAfresh(t, dir, ino, name, n)
  {
    hide Inv, Afresh, PageRead, EntryName, DiskEntry;
    assert n / PAGE_ENTRIES < BlocksFor(ino.size);
    PageReadIs(t, dir, ino, 0, n / PAGE_ENTRIES, g);
  }

  /** With the pages of the n old entries cached, only the new entry's can be read afresh: if it is a new one. */
  lemma OnlyNewAfresh(t: Fs, dir: InodeId, ino: Inode, n: nat, name: seq<byte>, to: nat)
    requires AllCached(t, dir, ino, n) && to <= n + 1 && (n % PAGE_ENTRIES == 0 ==> to <= n)
    ensures !NameAfresh(t, dir, ino, name, to)
  {
    hide Afresh, PageSlotOf, EntryName, DiskEntry;
    forall e: nat | e < to && e / PAGE_ENTRIES < INODE_BLOCKS ensures !Afresh(t, dir, ino, 0, e / PAGE_ENTRIES) {
      CachedNotAfresh(t, dir, ino, 0, e / PAGE_ENTRIES);
    }
  }

  /** Searching for the name just made, whatever the page cache holds. */
  lemma SearchForMade(s': Fs, dir: InodeId, n: nat, name: seq<byte>, g': Owners)
    requires JustMade(s', dir, n, name, g')
    ensures var found := DirSearch(s', dir, name).1.Ok?;
      && (found <==> NameAfresh(SearchStart(s', dir), dir, s'.itab[dir], name, n + 1))
      && (n % PAGE_ENTRIES == 0 ==> found)
      && (AllCached(s', dir, s'.itab[dir], n) ==> (found <==> n % PAGE_ENTRIES == 0))
  {
    hide Inv, DirSearch, Clear, NameAfresh, NameRead, EntryAfresh, DirPrefix, PageSlotOf, EntryName, DiskEntry;
    var t, row := SearchStart(s', dir), s'.itab[dir];
    SearchExact(s', dir, name, g');
    StartIsSearching(s', dir, name, g');
    StartSamePages(s', dir, name);
    ClearRead(t, dir, row, name, n + 1, g');
    assert !OnFirstPage(s', dir, name) by { ClearFirst(s', dir, name); }
    if n % PAGE_ENTRIES == 0 {
      NewBlockAfresh(t, dir, row, n, name, g');
      assert NameAfresh(t, dir, row, name, n + 1) by { AfreshAt(t, dir, row, name, n + 1, n); }
    } else if AllCached(s', dir, row, n) {
      OnlyNewAfresh(t, dir, row, n, name, n + 1);
    }
  }

  lemma AfreshAt(t: Fs, dir: InodeId, ino: Inode, name: seq<byte>, to: nat, e: nat)
    requires e < to && EntryAfresh(t, dir, ino, name, e)
    ensures NameAfresh(t, dir, ino, name, to)
  {
  }

  lemma ClearFirst(s: Fs, d: InodeId, name: seq<byte>)
    requires Clear(s, d, name)
    ensures !OnFirstPage(s, d, name)
  {
  }

  /** With at most 32 entries before, the one old page is cached after the creation under any clock. */
  lemma OldPageCached(s': Fs, dir: InodeId, n: nat, name: seq<byte>, g': Owners)
    requires JustMade(s', dir, n, name, g') && n <= PAGE_ENTRIES
    ensures AllCached(s', dir, s'.itab[dir], n)
  {
    hide Inv, PageSlotOf, Clear, DirPrefix, EntryName, DiskEntry;
  }

  /**
   A name just created in a directory of n entries is found by the next search exactly when some entry with that name
   lies in a block whose page the search reads from the disk. If n is a multiple of 32 the new entry itself does; with
   fewer than 32 entries before, nothing else can: then the name is found only if it is the first. The entry is on the
   disk in any case.
   */
  lemma CreatedNameFoundIff(s: Fs, dir: InodeId, name: seq<byte>, itype: nat, g: Owners)
    requires Inv(s, g) && IsCString(name) && (itype == FS_DIR || itype == FS_FILE)
    requires MakeNode(s, dir, name, itype).1.Ok?
    ensures var (s', r) := MakeNode(s, dir, name, itype);
      var (n, found) := (Count(s.itab[dir]), DirSearch(s', dir, name).1.Ok?);
      && IsEntry(s'.store.disk, s'.itab, dir, name, r.value)
      && (found <==> NameAfresh(SearchStart(s', dir), dir, s'.itab[dir], name, n + 1))
      && (n <= PAGE_ENTRIES ==> (found <==> n % PAGE_ENTRIES == 0))
      && (n % PAGE_ENTRIES == 0 ==> found)
  {
    hide Inv, MakeNode, DirSearch, IsEntry, JustMade, NameAfresh;
    var g' := CreationLeaves(s, dir, name, itype, g);
    var s', n := MakeNode(s, dir, name, itype).0, Count(s.itab[dir]);
    SearchForMade(s', dir, n, name, g');
    if n <= PAGE_ENTRIES { OldPageCached(s', dir, n, name, g'); }
  }

  // ------------------------------------------------------------------ listed

  /** Some line of the reply has the name. */
  ghost predicate NameListed(lines: seq<Listed>, name: seq<byte>) {
    exists i :: 0 <= i < |lines| && lines[i].name == name
  }

  lemma ListedIsRead(t: Fs, dir: InodeId, ino: Inode, name: seq<byte>, to: nat)
    ensures NameListed(LinesRead(t, dir, ino, 0, to), name) <==> NameRead(t, dir, ino, name, 0, to)
  {
    hide EntryRead, EntryName, TypeOf;
    var lines := LinesRead(t, dir, ino, 0, to);
    forall e: nat | e < to ensures lines[e].name == name <==> ReadsAs(t, dir, ino, name, 0, e) {}
    if NameRead(t, dir, ino, name, 0, to) {
      var e: nat :| PAGE_ENTRIES * 0 <= e < to && ReadsAs(t, dir, ino, name, 0, e);
      assert lines[e].name == name;
    }
    if NameListed(lines, name) {
      var i :| 0 <= i < |lines| && lines[i].name == name;
      assert ReadsAs(t, dir, ino, name, 0, i);
    }
  }

  /** Listing the directory of the name just made, whatever the caches hold. */
  lemma ListingOfMade(s': Fs, dir: InodeId, n: nat, name: seq<byte>, max: nat, g': Owners)
    requires JustMade(s', dir, n, name, g') && (Resident(s', dir) ==> Count(Eff(s', dir)) <= n)
    ensures var (t, ino, r) := (Acquire(s', dir).0, Eff(s', dir), FsReaddir(s', dir, max).1);
      && r.Ok?
      && (NameListed(r.value, name) <==> NameAfresh(t, dir, ino, name, Min(Count(ino), max)))
      && (AllCached(s', dir, s'.itab[dir], n) ==>
            (NameListed(r.value, name) <==> n % PAGE_ENTRIES == 0 && n < max && !Resident(s', dir)))
  {
    hide Inv, FsReaddir, Clear, NameAfresh, NameRead, EntryAfresh, PageSlotOf, EntryName, DiskEntry, LinesRead,
          NameListed, DirPrefix, Acquire, Eff, Resident;
    var (t, ino) := (Acquire(s', dir).0, Eff(s', dir));
    var to := Min(Count(ino), max);
    ReaddirExact(s', dir, max, g');
    AcquireKeepsInv(s', dir, g');
    AcquiredDir(s', dir, g');
    CachedDirFacts(s', dir, g');
    ListedIsRead(t, dir, ino, name, to);
    SameClear(s', t, dir, name);
    ClearRead(t, dir, ino, name, to, g');
    if AllCached(s', dir, s'.itab[dir], n) {
      ListingIfCached(s', t, dir, n, name, max, g');
    }
  }

  lemma SameClear(s: Fs, t: Fs, dir: InodeId, name: seq<byte>)
    requires t.dcache == s.dcache
    ensures Clear(t, dir, name) == Clear(s, dir, name)
  {
    hide ScanPage;
  }

  lemma ListingIfCached(s': Fs, t: Fs, dir: InodeId, n: nat, name: seq<byte>, max: nat, g': Owners)
    requires JustMade(s', dir, n, name, g') && (Resident(s', dir) ==> Count(Eff(s', dir)) <= n)
    requires AllCached(s', dir, s'.itab[dir], n) && DirRecord(t, dir, Eff(s', dir), g')
    requires t.store == s'.store && t.dcache == s'.dcache && t.itab[dir] == s'.itab[dir]
    ensures NameAfresh(t, dir, Eff(s', dir), name, Min(Count(Eff(s', dir)), max))
       <==> n % PAGE_ENTRIES == 0 && n < max && !Resident(s', dir)
  {
    hide Inv, Clear, NameAfresh, EntryAfresh, PageSlotOf, EntryName, DiskEntry;
    var row, ino := s'.itab[dir], Eff(s', dir);
    var to := Min(Count(ino), max);
    if !Resident(s', dir) {
      assert ino == row;
      if n % PAGE_ENTRIES == 0 && n < max {
        NewBlockAfresh(t, dir, row, n, name, g');
        AfreshAt(t, dir, row, name, to, n);
      } else {
        OnlyNewAfresh(t, dir, row, n, name, to);
      }
    } else {
      PrefixCached(t, dir, ino, row, Min(n, Count(ino)));
      OnlyNewAfresh(t, dir, ino, Min(n, Count(ino)), name, to);
    }
  }

  /** A stale copy of a directory has the same blocks as far as it goes. */
  lemma PrefixCached(t: Fs, dir: InodeId, ino: Inode, row: Inode, n: nat)
    requires DirPrefix(ino, row) && n <= Count(ino)
    requires forall i: nat :: i < INODE_BLOCKS && PAGE_ENTRIES * i < n ==>
      PageSlotOf(t.dcache, dir, row.blocks[i]) < DIR_SLOTS
    ensures AllCached(t, dir, ino, n)
  {
    hide PageSlotOf;
    forall i: nat | i < INODE_BLOCKS && PAGE_ENTRIES * i < n ensures ino.blocks[i] == row.blocks[i] {
      assert i < BlocksFor(ino.size);
    }
  }

  lemma CachedRecordIsOld(s: Fs, s': Fs, dir: InodeId, g: Owners)
    requires Inv(s, g) && 1 <= dir < |g.par| && IsDir(s.itab, dir) && s'.icache == s.icache
    ensures Resident(s', dir) == Resident(s, dir)
    ensures Resident(s', dir) ==> Count(Eff(s', dir)) <= Count(s.itab[dir])
  {
    hide Inv;
    CachedDirFacts(s, dir, g);
  }

  /**
   A listing after a creation shows the new name exactly when some entry with that name, among those of the inode the
   listing works with, lies in a block whose page it reads from the disk. With at most 32 entries before: exactly when
   their number is 0 or 32, the caller's limit goes beyond them, and the directory's inode was not cached.
   */
  lemma CreatedNameListedIff(s: Fs, dir: InodeId, name: seq<byte>, itype: nat, max: nat, g: Owners)
    requires Inv(s, g) && IsCString(name) && (itype == FS_DIR || itype == FS_FILE)
    requires MakeNode(s, dir, name, itype).1.Ok?
    ensures var (s', n) := (MakeNode(s, dir, name, itype).0, Count(s.itab[dir]));
      var (r, ino) := (FsReaddir(s', dir, max).1, Eff(s', dir));
      && r.Ok?
      && (NameListed(r.value, name) <==> NameAfresh(Acquire(s', dir).0, dir, ino, name, Min(Count(ino), max)))
      && (n <= PAGE_ENTRIES ==>
            (NameListed(r.value, name) <==> n % PAGE_ENTRIES == 0 && n < max && !Resident(s, dir)))
  {
    hide Inv, MakeNode, FsReaddir, IsEntry, JustMade, NameAfresh, NameListed, Resident, Eff, Acquire, DirSearch;
    var g' := CreationLeaves(s, dir, name, itype, g);
    var s', n := MakeNode(s, dir, name, itype).0, Count(s.itab[dir]);
    CachedRecordIsOld(s, s', dir, g);
    ListingOfMade(s', dir, n, name, max, g');
    if n <= PAGE_ENTRIES { OldPageCached(s', dir, n, name, g'); }
  }

  // ------------------------------------------------------------------ under a clock that strictly increases

  /** Reached from a formatted disk by proper calls, with times that strictly increase. */
  ghost predicate ReachableTicking(s: Fs) {
    exists n: nat, time: nat -> int, calls: seq<Call> :: ReachedBy(s, n, time, calls) && ExactLru.Ticking(time)
  }

  lemma TickingInv(s: Fs) returns (g: Owners)
    requires ReachableTicking(s)
    ensures Inv(s, g) && Older(s) && ExactLru.Ticking(s.time)
  {
    hide Formatted, Run, Proper, Faulty, Inv, Older, ExactLru.Ticking;
    var n: nat, time: nat -> int, calls: seq<Call> :| ReachedBy(s, n, time, calls) && ExactLru.Ticking(time);
    FormattedOk(n, time);
    FormattedStore(n, time);
    g := RunKeepsInv(Formatted(n, time), calls, START);
    StampsAreOlder(n, time, calls);
  }

  lemma MadeAllCached(s: Fs, dir: InodeId, name: seq<byte>, itype: nat, g: Owners) returns (g': Owners)
    requires Inv(s, g) && Older(s) && ExactLru.Ticking(s.time)
    requires IsCString(name) && (itype == FS_DIR || itype == FS_FILE) && MakeNode(s, dir, name, itype).1.Ok?
    ensures var (s', n) := (MakeNode(s, dir, name, itype).0, Count(s.itab[dir]));
      && JustMade(s', dir, n, name, g') && AllCached(s', dir, s'.itab[dir], n) && s'.icache == s.icache
      && 1 <= dir < |g.par| && IsDir(s.itab, dir)
  {
    hide Inv, MakeNode, DirSearch, IsEntry, JustMade, Older, ExactLru.Ticking, PageSlotOf;
    g' := CreationLeaves(s, dir, name, itype, g);
    var s' := MakeNode(s, dir, name, itype).0;
    MakeLeaves(s, dir, name, itype);
    AfterMissAllCached(s, dir, name, g);
    assert s.itab[dir].size % ENTRY_SIZE == 0 by { SizeOfDir(s, dir, g); }
    forall i: nat | i < INODE_BLOCKS && PAGE_ENTRIES * i < Count(s.itab[dir])
      ensures s'.itab[dir].blocks[i] == s.itab[dir].blocks[i]
    {
      assert i < BlocksFor(s.itab[dir].size);
    }
  }

  /** Under such a clock a name just created is found by the next search exactly when its entry began a new block. */
  lemma CreatedNameFoundTicking(s: Fs, dir: InodeId, name: seq<byte>, itype: nat)
    requires ReachableTicking(s) && IsCString(name) && (itype == FS_DIR || itype == FS_FILE)
    requires MakeNode(s, dir, name, itype).1.Ok?
    ensures DirSearch(MakeNode(s, dir, name, itype).0, dir, name).1.Ok? <==> Count(s.itab[dir]) % PAGE_ENTRIES == 0
  {
    hide ReachableTicking, Inv, MakeNode, DirSearch, JustMade, Older, ExactLru.Ticking, NameAfresh;
    var g := TickingInv(s);
    var g' := MadeAllCached(s, dir, name, itype, g);
    SearchForMade(MakeNode(s, dir, name, itype).0, dir, Count(s.itab[dir]), name, g');
  }

  /**
   Under such a clock the next listing shows the new name exactly when its entry began a new block, the caller's limit
   reaches it, and the directory's inode was not cached.
   */
  lemma CreatedNameListedTicking(s: Fs, dir: InodeId, name: seq<byte>, itype: nat, max: nat)
    requires ReachableTicking(s) && IsCString(name) && (itype == FS_DIR || itype == FS_FILE)
    requires MakeNode(s, dir, name, itype).1.Ok?
    ensures var (r, n) := (FsReaddir(MakeNode(s, dir, name, itype).0, dir, max).1, Count(s.itab[dir]));
      r.Ok? && (NameListed(r.value, name) <==> n % PAGE_ENTRIES == 0 && n < max && !Resident(s, dir))
  {
    hide ReachableTicking, Inv, MakeNode, FsReaddir, JustMade, Older, ExactLru.Ticking, NameAfresh, NameListed,
          Resident, Eff, Acquire;
    var g := TickingInv(s);
    var g' := MadeAllCached(s, dir, name, itype, g);
    var s' := MakeNode(s, dir, name, itype).0;
    CachedRecordIsOld(s, s', dir, g);
    ListingOfMade(s', dir, Count(s.itab[dir]), name, max, g');
  }
}
