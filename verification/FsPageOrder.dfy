/**
 The page cache without its clock: over any run the pages in its slots are those of a machine that only keeps the
 slots in the order of their last use.
 */
module FsPageOrder {
  import opened Bytes
  import opened Bitmap
  import opened Slots
  import opened SlotOrder
  import opened BlockStore
  import ExactLru
  import opened FsState
  import opened FsFiles
  import opened FsTree
  import opened FsInv
  import opened FsAlloc
  import opened FsWriting
  import opened FsMeta
  import opened FsCoherence
  import opened FsCalls
  import opened FsDirs
  import opened FsSearch
  import opened FsPages
  import opened FsNamespace
  import opened FsListing
  import opened FsCopying
  import opened FsStart
  import opened FsRuns
  import opened FsClock
  import opened FsHits

  /** The directory and the block a page is of. */
  type PageKey = (nat, nat)

  // ------------------------------------------------------------------ one page

  ghost predicate Follows(s: Fs, l: Lru<PageKey>) {
    ExactLru.Ticking(s.time) && Tracks(PageKeys(s.dcache), PageTimes(s.dcache), s.Now(), l)
  }

  /** Slots with the same pages' keys and stamps, and a clock that went on. */
  ghost predicate SameUses(s: Fs, s': Fs) {
    && PageKeys(s'.dcache) == PageKeys(s.dcache) && PageTimes(s'.dcache) == PageTimes(s.dcache)
    && s'.time == s.time && s.ticks <= s'.ticks
  }

  lemma FollowsOn(s: Fs, s': Fs, l: Lru<PageKey>)
    requires Follows(s, l) && SameUses(s, s')
    ensures Follows(s', l)
  {
    TicksOn(s.time, s.ticks, s'.ticks);
    hide ExactLru.Ticking;
  }

  lemma TouchFollows(s: Fs, k: nat, l: Lru<PageKey>)
    requires Follows(s, l) && k < DIR_SLOTS
    ensures Follows(TouchPage(s, k), Used(l, k))
  {
    var s', key := TouchPage(s, k), (s.dcache[k].dir, s.dcache[k].num);
    ExactLru.TickingPositive(s.time, s.ticks);
    hide ExactLru.Ticking, ByStamp, Without;
    UseTracks(PageKeys(s.dcache), PageTimes(s.dcache), s.Now(), l, k, key, s.Now(), s'.Now());
    assert PageKeys(s.dcache)[k := key] == PageKeys(s.dcache) == PageKeys(s'.dcache);
    assert PageTimes(s.dcache)[k := s.Now()] == PageTimes(s'.dcache);
  }

  lemma AddFollows(s: Fs, d: nat, b: nat, page: Block, l: Lru<PageKey>)
    requires Follows(s, l)
    ensures Follows(AddPage(s, d, b, page), BringIn(l, (d, b)))
  {
    var s', v := AddPage(s, d, b, page), Victim(PageTimes(s.dcache));
    ExactLru.TickingPositive(s.time, s.ticks);
    hide ExactLru.Ticking, ByStamp, Without;
    VictimTracks(PageKeys(s.dcache), PageTimes(s.dcache), s.Now(), l);
    UseTracks(PageKeys(s.dcache), PageTimes(s.dcache), s.Now(), l, v, (d, b), s.Now(), s'.Now());
    assert PageKeys(s.dcache)[v := (d, b)] == PageKeys(s'.dcache);
    assert PageTimes(s.dcache)[v := s.Now()] == PageTimes(s'.dcache);
  }

  lemma FetchFollows(s: Fs, d: nat, b: nat, l: Lru<PageKey>)
    requires Follows(s, l) && b < s.NumBlocks()
    ensures Follows(FetchPage(s, d, b).0, After(l, Lookup((d, b))))
  {
    hide Used, BringIn, Tracks, ExactLru.Ticking;
    assert l.keys == PageKeys(s.dcache) by { KeysOf(s, l); }
    var k := PageSlotOf(s.dcache, d, b);
    if k < DIR_SLOTS { TouchFollows(s, k, l); } else { AddFollows(s, d, b, s.store.disk[b], l); }
  }

  lemma KeysOf(s: Fs, l: Lru<PageKey>)
    requires Follows(s, l)
    ensures l.keys == PageKeys(s.dcache)
  {
    hide ByStamp, ExactLru.Ticking;
  }

  /** The first pass of a search uses the first slot with a page of the directory. */
  lemma StartFollows(s: Fs, d: nat, l: Lru<PageKey>, g: Owners)
    requires Follows(s, l) && Inv(s, g) && d != 0
    ensures Follows(SearchStart(s, d), AfterAll(l, StartUses(s, d)))
  {
    hide Inv, Used, BringIn, Tracks, ExactLru.Ticking, TouchPage;
    NoUses(l);
    var k := PageSlotOfDir(s.dcache, d);
    if k < DIR_SLOTS {
      var key := (d, s.dcache[k].num);
      KeysOf(s, l);
      ApartOfInv(s, g);
      OwnSlot(s, d, k);
      OneUse(l, Lookup(key));
      TouchFollows(s, k, l);
    }
  }

  // ------------------------------------------------------------------ the pages of one call

  function StartUses(s: Fs, d: nat): seq<Use<PageKey>> {
    var k := PageSlotOfDir(s.dcache, d);
    if k < DIR_SLOTS then [Lookup((d, s.dcache[k].num))] else []
  }

  /** The pages of blocks from .. to-1 of a directory. */
  function BlockUses(d: nat, ino: Inode, from: nat, to: nat): seq<Use<PageKey>>
    requires from <= to <= INODE_BLOCKS
  {
    seq(to - from, i requires 0 <= i < to - from => Lookup((d, ino.blocks[from + i])))
  }

  lemma BlockUsesStep(d: nat, ino: Inode, from: nat, to: nat)
    requires from < to <= INODE_BLOCKS
    ensures BlockUses(d, ino, from, to) == [Lookup((d, ino.blocks[from]))] + BlockUses(d, ino, from + 1, to)
    ensures BlockUses(d, ino, from, from) == []
  {
  }

  /** Reading pages one after the other. */
  lemma {:induction false} PagesFollow(s: Fs, d: nat, ino: Inode, from: nat, i: nat, l: Lru<PageKey>, g: Owners)
    requires Follows(s, l) && DirRecord(s, d, ino, g) && from <= i < INODE_BLOCKS && i < BlocksFor(ino.size)
    ensures Follows(PagesRead(s, d, ino, from, i), AfterAll(l, BlockUses(d, ino, from, i + 1)))
    decreases i - from
  {
    hide Inv, FetchPage, DirPrefix, Follows, BlockUses, After;
    FetchKeepsRecord(s, d, ino, from, g);
    FetchFollows(s, d, ino.blocks[from], l);
    BlockUsesStep(d, ino, from, i + 1);
    BlockUsesEmpty(d, ino, i + 1);
    var s1, u := FetchPage(s, d, ino.blocks[from]).0, Lookup((d, ino.blocks[from]));
    OneUse(l, u);
    AfterBoth(l, [u], BlockUses(d, ino, from + 1, i + 1));
    NoUses(After(l, u));
    if from < i { PagesFollow(s1, d, ino, from + 1, i, After(l, u), g); }
  }

  lemma BlockUsesEmpty(d: nat, ino: Inode, i: nat)
    requires i <= INODE_BLOCKS
    ensures BlockUses(d, ino, i, i) == []
  {
  }

  // ------------------------------------------------------------------ fsi_dir_search

  /** How many blocks a search reads: none after a hit on the page seen first, else up to the one with the entry. */
  ghost function BlocksRead(s: Fs, d: InodeId, name: seq<byte>): (n: nat)
    ensures n <= INODE_BLOCKS
  {
    var (t, row) := (SearchStart(s, d), s.itab[d]);
    if !NotOnFirst(s, d, name) then 0
    else if e: nat :| FirstRead(t, d, row, name, 0, e, Count(row)) then Min(e / PAGE_ENTRIES + 1, INODE_BLOCKS)
    else Min(BlocksFor(row.size), INODE_BLOCKS)
  }

  ghost function SearchUses(s: Fs, d: InodeId, name: seq<byte>): seq<Use<PageKey>> {
    StartUses(s, d) + BlockUses(d, s.itab[d], 0, BlocksRead(s, d, name))
  }

  /** A search that misses has read all blocks from the one it was at. */
  lemma {:induction false} MissReads(s: Fs, d: InodeId, name: seq<byte>, part: Option<nat>, iblock: nat, num: nat,
        g: Owners)
    requires Searching(s, d, name, part, iblock, num, g) && num > 0
    ensures part.Some? ==> part.value < DIR_SLOTS
    ensures iblock < BlocksFor(s.itab[d].size) <= INODE_BLOCKS
    ensures var r := SearchBlocks(s, d, name, part, iblock, num);
      r.1.Err? ==> r.0 == PagesRead(s, d, s.itab[d], iblock, BlocksFor(s.itab[d].size) - 1)
    decreases num
  {
    hide Inv, FetchPage, ScanPage, FillFirstGap, Sound;
    var s1, page := SearchTurn(s, d, name, part, iblock, num, g);
    var n := Min(PAGE_ENTRIES, num);
    AllBlocks(s, d, iblock, num, g);
    TurnAnswers(s, d, name, part, iblock, num, s1, page);
    if num > n {
      MissReads(s1, d, name, part, iblock + 1, num - n, g);
    } else {
      NothingRead(s1, d, name, part, iblock + 1);
    }
  }

  lemma AllBlocks(s: Fs, d: nat, iblock: nat, num: nat, g: Owners)
    requires Inv(s, g) && 1 <= d < |g.par| && IsDir(s.itab, d) && num > 0
    requires num == Count(s.itab[d]) - PAGE_ENTRIES * iblock
    ensures iblock < BlocksFor(s.itab[d].size) <= 2
    ensures num <= PAGE_ENTRIES <==> iblock + 1 == BlocksFor(s.itab[d].size)
  {
    SizeOfDir(s, d, g);
    DirectoriesAreSmall(s.store.disk, s.itab, g.par, d);
  }

  lemma HitSameUses(u: Fs, s': Fs, part: Option<nat>, x: seq<byte>)
    requires |x| == ENTRY_SIZE && (part.Some? ==> part.value < DIR_SLOTS) && AfterHit(u, s', part, x)
    ensures SameUses(u, s')
  {
    assert PageKeys(s'.dcache) == PageKeys(u.dcache) && PageTimes(s'.dcache) == PageTimes(u.dcache);
  }

  lemma SearchFollows(s: Fs, d: InodeId, name: seq<byte>, l: Lru<PageKey>, g: Owners)
    requires Follows(s, l) && Inv(s, g) && 1 <= d < |g.par| && IsDir(s.itab, d) && name != []
    ensures Follows(DirSearch(s, d, name).0, AfterAll(l, SearchUses(s, d, name)))
  {
    hide Inv, DirSearch, Follows, BlockUses, StartUses, FirstRead, EntryRead, PagesRead, AfterHit, ReadsAs, FirstPlace,
          NotOnFirst, SearchStart, EntryInode, PageEntry, AfterAll;
    SearchAnswers(s, d, name, g);
    StartFollows(s, d, l, g);
    AfterBoth(l, StartUses(s, d), BlockUses(d, s.itab[d], 0, BlocksRead(s, d, name)));
    if NotOnFirst(s, d, name) {
      LaterFollows(s, d, name, AfterAll(l, StartUses(s, d)), g);
    } else {
      BlockUsesEmpty(d, s.itab[d], 0);
      NoUses(AfterAll(l, StartUses(s, d)));
      FirstHitExists(s, d, name);
    }
  }

  /** A hit on the page seen first leaves the state of the first pass. */
  lemma FirstHitExists(s: Fs, d: InodeId, name: seq<byte>)
    requires !NotOnFirst(s, d, name)
    ensures exists k: nat, j: nat :: FirstHit(s, d, name, k, j) && SearchStart(s, d) == StampedPage(s, k)
  {
    hide NamedPlace;
    FirstPageIs(s, d);
    var k: nat, j: nat :| FirstPageOf(s, d, k) && j < PAGE_ENTRIES && NamedPlace(s.dcache[k].page, name, j);
    var f := FirstPlaceExists(s.dcache[k].page, name, j);
    assert FirstHit(s, d, name, k, f);
  }

  lemma LaterFollows(s: Fs, d: InodeId, name: seq<byte>, l: Lru<PageKey>, g: Owners)
    requires Follows(SearchStart(s, d), l) && Inv(s, g) && 1 <= d < |g.par| && IsDir(s.itab, d) && name != []
    requires NotOnFirst(s, d, name)
    ensures Follows(DirSearch(s, d, name).0, AfterAll(l, BlockUses(d, s.itab[d], 0, BlocksRead(s, d, name))))
  {
    hide Inv, DirSearch, Follows, BlockUses, StartUses, FirstRead, EntryRead, PagesRead, AfterHit, ReadsAs, FirstPlace,
          NotOnFirst, SearchStart, EntryInode, PageEntry, AfterAll, SameUses;
    SearchAnswers(s, d, name, g);
    StartIsSearching(s, d, name, g);
    var (t, row) := (SearchStart(s, d), s.itab[d]);
    if e: nat :| FirstRead(t, d, row, name, 0, e, Count(row)) {
      ReadCountIs(s, d, name, e, g);
      PagesFollow(t, d, row, 0, e / PAGE_ENTRIES, l, g);
      var part := if PageSlotOfDir(s.dcache, d) < DIR_SLOTS then Some(PageSlotOfDir(s.dcache, d)) else None;
      HitSameUses(PagesRead(t, d, row, 0, e / PAGE_ENTRIES), DirSearch(s, d, name).0, part, EntryRead(t, d, row, 0, e));
      FollowsOn(PagesRead(t, d, row, 0, e / PAGE_ENTRIES), DirSearch(s, d, name).0,
                AfterAll(l, BlockUses(d, row, 0, e / PAGE_ENTRIES + 1)));
    } else {
      MissFollows(s, d, name, l, g);
    }
  }

  /** There is one first entry only. */
  lemma OneFirst(s: Fs, d: nat, ino: Inode, name: seq<byte>, e: nat, to: nat)
    requires FirstRead(s, d, ino, name, 0, e, to)
    ensures forall f: nat :: FirstRead(s, d, ino, name, 0, f, to) ==> f == e
  {
    hide ReadsAs;
  }

  lemma EntryBlock(s: Fs, d: nat, e: nat, g: Owners)
    requires Inv(s, g) && 1 <= d < |g.par| && IsDir(s.itab, d) && e < Count(s.itab[d])
    ensures e / PAGE_ENTRIES + 1 <= BlocksFor(s.itab[d].size) <= 2
  {
    SizeOfDir(s, d, g);
    DirectoriesAreSmall(s.store.disk, s.itab, g.par, d);
  }

  lemma ReadCountIs(s: Fs, d: InodeId, name: seq<byte>, e: nat, g: Owners)
    requires Inv(s, g) && 1 <= d < |g.par| && IsDir(s.itab, d) && NotOnFirst(s, d, name)
    requires FirstRead(SearchStart(s, d), d, s.itab[d], name, 0, e, Count(s.itab[d]))
    ensures BlocksRead(s, d, name) == e / PAGE_ENTRIES + 1 <= BlocksFor(s.itab[d].size) <= 2
  {
    hide Inv, NotOnFirst, FirstRead, SearchStart;
    FirstIsRead(SearchStart(s, d), d, s.itab[d], name, 0, e, Count(s.itab[d]));
    EntryBlock(s, d, e, g);
    OneFirst(SearchStart(s, d), d, s.itab[d], name, e, Count(s.itab[d]));
  }

  lemma MissFollows(s: Fs, d: InodeId, name: seq<byte>, l: Lru<PageKey>, g: Owners)
    requires Follows(SearchStart(s, d), l) && Inv(s, g) && 1 <= d < |g.par| && IsDir(s.itab, d) && name != []
    requires NotOnFirst(s, d, name)
    requires forall e: nat :: !FirstRead(SearchStart(s, d), d, s.itab[d], name, 0, e, Count(s.itab[d]))
    ensures Follows(DirSearch(s, d, name).0, AfterAll(l, BlockUses(d, s.itab[d], 0, BlocksRead(s, d, name))))
  {
    hide Inv, DirSearch, Follows, BlockUses, FirstRead, PagesRead, ReadsAs, NotOnFirst, AfterAll, SearchBlocks,
          EntryRead, AfterHit;
    SearchAnswers(s, d, name, g);
    StartIsSearching(s, d, name, g);
    DirSearchSound(s, d, name, g);
    var (t, row, k) := (SearchStart(s, d), s.itab[d], PageSlotOfDir(s.dcache, d));
    var part := if k < DIR_SLOTS then Some(k) else None;
    Misses(s, d, name, g);
    SearchIs(s, d, name);
    if Count(row) > 0 {
      MissReads(t, d, name, part, 0, Count(row), g);
      AllBlocks(s, d, 0, Count(row), g);
      PagesFollow(t, d, row, 0, BlocksFor(row.size) - 1, l, g);
    } else {
      EmptyDir(s, d, g);
      BlockUsesEmpty(d, row, 0);
      NothingRead(t, d, name, part, 0);
      NoUses(l);
    }
  }

  lemma EmptyDir(s: Fs, d: nat, g: Owners)
    requires Inv(s, g) && 1 <= d < |g.par| && IsDir(s.itab, d) && Count(s.itab[d]) == 0
    ensures BlocksFor(s.itab[d].size) == 0
  {
    SizeOfDir(s, d, g);
  }

  lemma Misses(s: Fs, d: InodeId, name: seq<byte>, g: Owners)
    requires Inv(s, g) && 1 <= d < |g.par| && IsDir(s.itab, d) && name != [] && NotOnFirst(s, d, name)
    requires forall e: nat :: !FirstRead(SearchStart(s, d), d, s.itab[d], name, 0, e, Count(s.itab[d]))
    ensures DirSearch(s, d, name).1.Err?
  {
    hide Inv, DirSearch, FirstRead, ReadsAs, NotOnFirst, EntryRead, AfterHit, SearchStart, PagesRead;
    SearchAnswers(s, d, name, g);
    var (t, row) := (SearchStart(s, d), s.itab[d]);
    if e: nat :| e < Count(row) && ReadsAs(t, d, row, name, 0, e) {
      var f := FirstExists(t, d, row, name, e, Count(row));
    }
  }

  lemma SearchIs(s: Fs, d: InodeId, name: seq<byte>)
    requires DirSearch(s, d, name).1.Err?
    ensures var k := PageSlotOfDir(s.dcache, d);
      DirSearch(s, d, name)
        == SearchBlocks(SearchStart(s, d), d, name, if k < DIR_SLOTS then Some(k) else None, 0, Count(s.itab[d]))
  {
    hide SearchBlocks, ScanPage;
  }

  // ------------------------------------------------------------------ the other calls

  /** The searches of a lookup, each in the state in which it is made. */
  ghost function WalkUses(s: Fs, d: nat, names: seq<seq<byte>>): seq<Use<PageKey>>
    decreases |names|
  {
    if names == [] || d >= INODES || s.itab[d].itype != FS_DIR then []
    else
      SearchUses(s, d, names[0])
        + if m: nat :| Answers(s, d, names[0], m) then WalkUses(DirSearch(s, d, names[0]).0, m, names[1..]) else []
  }

  ghost function LookupUses(s: Fs, path: seq<byte>): seq<Use<PageKey>> {
    if path == [] || path[0] != SLASH then [] else WalkUses(s, ROOT, Tokens(path))
  }

  lemma {:induction false} WalkFollows(s: Fs, d: nat, names: seq<seq<byte>>, l: Lru<PageKey>, g: Owners)
    requires Follows(s, l) && Inv(s, g) && 1 <= d < |g.par| && forall i :: 0 <= i < |names| ==> names[i] != []
    ensures Follows(LookupFrom(s, d, names).0, AfterAll(l, WalkUses(s, d, names)))
    decreases |names|
  {
    hide RowsOk, SlotsOk, StoreOk, OwnersOk, PagesOk, DirSearch, IsEntry, Answers, Follows, SearchUses, After;
    NoUses(l);
    if names != [] {
      UsedIffBelow(s, g, d);
      if s.itab[d].itype == FS_DIR {
        DirSearchSound(s, d, names[0], g);
        SearchFollows(s, d, names[0], l, g);
        var (s1, r) := DirSearch(s, d, names[0]);
        forall x: nat ensures r == Ok(x) <==> Answers(s, d, names[0], x) { SearchGives(s, d, names[0], x, g); }
        var (u, l1) := (SearchUses(s, d, names[0]), AfterAll(l, SearchUses(s, d, names[0])));
        NothingMore(u);
        if r.Ok? {
          EntryUsed(s.store.disk, s.itab, g.par, d, names[0], r.value);
          WalkFollows(s1, r.value, names[1..], l1, g);
          AfterBoth(l, u, WalkUses(s1, r.value, names[1..]));
        }
      }
    }
  }

  lemma NothingMore(u: seq<Use<PageKey>>)
    ensures u + [] == u
  {
  }

  lemma LookupFollows(s: Fs, path: seq<byte>, l: Lru<PageKey>, g: Owners)
    requires Follows(s, l) && Inv(s, g)
    ensures Follows(FsLookup(s, path).0, AfterAll(l, LookupUses(s, path)))
  {
    hide Inv, Follows, LookupFrom, WalkUses, AfterAll;
    NoUses(l);
    if path != [] && path[0] == SLASH {
      NoNames(s, ROOT);
      if Tokens(path) != [] {
        assert 2 <= |g.par| by { RootInUse(s, g); }
        WalkFollows(s, ROOT, Tokens(path), l, g);
      }
    }
  }

  lemma NoNames(s: Fs, d: nat)
    ensures WalkUses(s, d, []) == []
  {
  }

  /** The search of a creation. */
  ghost function MakeUses(s: Fs, dir: nat, name: seq<byte>): seq<Use<PageKey>> {
    if dir < INODES && 0 < |name| < NAME_SIZE && IsSet(s.inoMap, dir) && IsDir(s.itab, dir) then
      SearchUses(s, dir, name)
    else []
  }

  lemma MakeFollows(s: Fs, dir: nat, name: seq<byte>, itype: nat, l: Lru<PageKey>, g: Owners)
    requires Follows(s, l) && Inv(s, g) && IsCString(name) && (itype == FS_DIR || itype == FS_FILE)
    ensures Follows(MakeNode(s, dir, name, itype).0, AfterAll(l, MakeUses(s, dir, name)))
  {
    hide Inv, Follows, SearchUses, AfterAll, DirSearch, Older, ExactLru.Ticking, SameUses;
    NoUses(l);
    MakeBounds(s, dir, g);
    if dir < INODES && 0 < |name| < NAME_SIZE && IsSet(s.inoMap, dir) && IsDir(s.itab, dir) {
      SearchFollows(s, dir, name, l, g);
      MakeSameUses(s, dir, name, itype);
      MakeLater(s, dir, name, itype);
      FollowsOn(DirSearch(s, dir, name).0, MakeNode(s, dir, name, itype).0, AfterAll(l, SearchUses(s, dir, name)));
    }
  }

  lemma MakeSameUses(s: Fs, dir: InodeId, name: seq<byte>, itype: nat)
    requires 0 < |name| < NAME_SIZE && IsSet(s.inoMap, dir) && IsDir(s.itab, dir)
    ensures SameUses(DirSearch(s, dir, name).0, MakeNode(s, dir, name, itype).0)
  {
    hide DirSearch, StoreMeta, PutEntry, PageEntry;
  }

  /** The blocks of a listing of num entries. */
  function ListUses(s: Fs, dir: nat, max: int): seq<Use<PageKey>> {
    if 0 <= max && dir < INODES && IsSet(s.inoMap, dir) && IsDir(s.itab, dir) then
      var num := Min(Count(Eff(s, dir)), max);
      BlockUses(dir, Eff(s, dir), 0, Min((num + PAGE_ENTRIES - 1) / PAGE_ENTRIES, INODE_BLOCKS))
    else []
  }

  lemma {:induction false} ListBlocksFollows(s: Fs, dir: InodeId, ino: Inode, iblock: nat, num: nat, acc: seq<Listed>,
        to: nat, l: Lru<PageKey>, g: Owners)
    requires DirRecord(s, dir, ino, g) && (num == 0 || num + PAGE_ENTRIES * iblock <= Count(ino)) && Follows(s, l)
    requires iblock <= to <= INODE_BLOCKS && to - iblock == (num + PAGE_ENTRIES - 1) / PAGE_ENTRIES
    ensures Follows(ListBlocks(s, dir, ino, iblock, num, acc).0, AfterAll(l, BlockUses(dir, ino, iblock, to)))
    decreases num
  {
    hide Inv, FetchPage, ListPage, DirPrefix, BlockUses, Follows, SameUses, After;
    if num > 0 {
      assert iblock < BlocksFor(ino.size);
      FetchKeepsRecord(s, dir, ino, iblock, g);
      FetchPageIs(s, dir, ino.blocks[iblock]);
      var (s1, page) := FetchPage(s, dir, ino.blocks[iblock]);
      var (n, u) := (Min(PAGE_ENTRIES, num), Lookup((dir as nat, ino.blocks[iblock])));
      FetchFollows(s, dir, ino.blocks[iblock], l);
      ListPageIs(s1, page.value, 0, n, acc, g);
      ListPagePages(s1, page.value, 0, n, acc);
      ListPageKeepsInv(s1, dir, page.value, n, acc, g);
      var (s2, acc2) := ListPage(s1, page.value, 0, n, acc);
      ListedSameUses(s1, s2);
      FollowsOn(s1, s2, After(l, u));
      BlockUsesStep(dir, ino, iblock, to);
      OneUse(l, u);
      AfterBoth(l, [u], BlockUses(dir, ino, iblock + 1, to));
      ListBlocksFollows(s2, dir, ino, iblock + 1, num - n, acc2, to, After(l, u), g);
    } else {
      BlockUsesEmpty(dir, ino, iblock);
      NoUses(l);
    }
  }

  lemma ListedSameUses(s: Fs, s': Fs)
    requires SamePages(s, s')
    ensures SameUses(s, s')
  {
  }

  lemma ListFollows(s: Fs, dir: nat, max: int, l: Lru<PageKey>, g: Owners)
    requires Follows(s, l) && Inv(s, g)
    ensures Follows(FsReaddir(s, dir, max).0, AfterAll(l, ListUses(s, dir, max)))
  {
    hide Inv, Follows, AfterAll, IsSet, ListBlocks, Acquire, Eff, BlockUses, SameUses, Resident, Refers, NoDirtyCopy,
          DirPrefix;
    NoUses(l);
    if dir < INODES && 0 <= max {
      AcquirePages(s, dir);
      ListedSameUses(s, Acquire(s, dir).0);
      FollowsOn(s, Acquire(s, dir).0, l);
      MakeBounds(s, dir, g);
      AcquireKeepsInv(s, dir, g);
      AcquireFinds(s, dir, g);
      FileFacts(s, dir, g);
      if IsSet(s.inoMap, dir) && IsDir(s.itab, dir) {
        AcquiredDir(s, dir, g);
        CachedDirFacts(s, dir, g);
        var (t, ino) := (Acquire(s, dir).0, Eff(s, dir));
        var num := Min(Count(ino), max);
        SmallRecord(t, dir, ino, g);
        ListBlocksFollows(t, dir, ino, 0, num, [], (num + PAGE_ENTRIES - 1) / PAGE_ENTRIES, l, g);
      }
    }
  }

  /** The lookup of the target's directory and the search of the creation in it. */
  ghost function TargetUses(s: Fs, dirPart: seq<byte>, name: seq<byte>): seq<Use<PageKey>> {
    var (s1, d) := FsLookup(s, dirPart);
    LookupUses(s, dirPart) + if d.Found? then MakeUses(s1, d.id, name) else []
  }

  ghost function CopyUses(s: Fs, src: seq<byte>, tgt: seq<byte>): seq<Use<PageKey>> {
    var (s1, l) := FsLookup(s, src);
    LookupUses(s, src)
      + if l.Found? && l.id < INODES && s.itab[l.id].itype == FS_FILE && LastSlash(tgt).Some? && TargetFits(tgt)
        then TargetUses(FsGetAttrs(s1, l.id).0, DirPart(tgt), FileName(tgt)) else []
  }

  lemma TargetFollows(s: Fs, dirPart: seq<byte>, name: seq<byte>, l: Lru<PageKey>, g: Owners)
    requires Follows(s, l) && Inv(s, g) && IsCString(name)
    ensures Follows(MakeTarget(s, dirPart, name).0, AfterAll(l, TargetUses(s, dirPart, name)))
  {
    hide Inv, Follows, FsLookup, MakeNode, Resolves, AfterAll, LookupUses, MakeUses;
    LookupSound(s, dirPart, g);
    LookupFollows(s, dirPart, l, g);
    NothingMore(LookupUses(s, dirPart));
    var (s1, d) := FsLookup(s, dirPart);
    if d.Found? {
      MakeFollows(s1, d.id, name, FS_FILE, AfterAll(l, LookupUses(s, dirPart)), g);
      AfterBoth(l, LookupUses(s, dirPart), MakeUses(s1, d.id, name));
    }
  }

  lemma IntoFollows(s: Fs, from: InodeId, dirPart: seq<byte>, name: seq<byte>, l: Lru<PageKey>)
    requires Follows(MakeTarget(s, dirPart, name).0, l)
    ensures Follows(CopyInto(s, from, dirPart, name).0, l)
  {
    hide Follows, MakeTarget, CopyData, SameUses;
    var (s2, made) := MakeTarget(s, dirPart, name);
    if made.Ok? && made.value < INODES {
      CopyDataPages(s2, from, made.value);
      ListedSameUses(s2, CopyData(s2, from, made.value).0);
      FollowsOn(s2, CopyData(s2, from, made.value).0, l);
    }
  }

  lemma CopyFollows(s: Fs, src: seq<byte>, tgt: seq<byte>, l: Lru<PageKey>, g: Owners)
    requires Follows(s, l) && Inv(s, g) && Proper(CopyTo(src, tgt))
    ensures Follows(FsCopy(s, src, tgt).0, AfterAll(l, CopyUses(s, src, tgt)))
  {
    hide Inv, Follows, FsLookup, FsGetAttrs, CopyInto, Quiet, Resolves, IsFile, Resident, TargetFits, OnlySlashes,
          AfterAll, LookupUses, TargetUses, SameUses;
    LookupSound(s, src, g);
    LookupFollows(s, src, l, g);
    NothingMore(LookupUses(s, src));
    var (s1, d) := FsLookup(s, src);
    if d.Found? {
      var l1 := AfterAll(l, LookupUses(s, src));
      CopySource(s1, d.id, g);
      SourceType(s1, d.id, g);
      AttrsPages(s1, d.id);
      var s2 := FsGetAttrs(s1, d.id).0;
      QuietInv(s1, s2, g);
      ListedSameUses(s1, s2);
      FollowsOn(s1, s2, l1);
      if s.itab[d.id].itype == FS_FILE && LastSlash(tgt).Some? && TargetFits(tgt) {
        var (dirPart, name) := (DirPart(tgt), FileName(tgt));
        TargetFollows(s2, dirPart, name, l1, g);
        AfterBoth(l, LookupUses(s, src), TargetUses(s2, dirPart, name));
        IntoFollows(s2, d.id, dirPart, name, AfterAll(l1, TargetUses(s2, dirPart, name)));
      }
    }
  }

  // ------------------------------------------------------------------ runs

  /** What a call uses the page cache for. */
  ghost function UsesOf(s: Fs, c: Call): seq<Use<PageKey>> {
    match c
    case LookUp(path) => LookupUses(s, path)
    case CreateIn(dir, name) => MakeUses(s, dir, name)
    case MkdirIn(dir, name) => MakeUses(s, dir, name)
    case ListOf(dir, max) => ListUses(s, dir, max)
    case CopyTo(src, tgt) => CopyUses(s, src, tgt)
    case _ => []
  }

  lemma StepFollows(s: Fs, c: Call, l: Lru<PageKey>, g: Owners)
    requires Follows(s, l) && Inv(s, g) && Proper(c)
    ensures Follows(Step(s, c).0, AfterAll(l, UsesOf(s, c)))
  {
    hide Inv, Follows, AfterAll, FsGetAttrs, FsLookup, FsRead, FsWrite, MakeNode, FsReaddir, FsCopy, LookupUses,
          MakeUses, ListUses, CopyUses, SameUses;
    NoUses(l);
    match c
    case AttrsOf(file) => AttrsPages(s, file); SameFollows(s, Step(s, c).0, l);
    case LookUp(path) => LookupFollows(s, path, l, g);
    case ReadAt(file, offset, count) => ReadPages(s, file, offset, count); SameFollows(s, Step(s, c).0, l);
    case WriteAt(file, offset, buffer) => WritePages(s, file, offset, buffer); SameFollows(s, Step(s, c).0, l);
    case CreateIn(dir, name) => MakeFollows(s, dir, name, FS_FILE, l, g);
    case MkdirIn(dir, name) => MakeFollows(s, dir, name, FS_DIR, l, g);
    case ListOf(dir, max) => ListFollows(s, dir, max, l, g);
    case CopyTo(src, tgt) => CopyFollows(s, src, tgt, l, g);
  }

  lemma SameFollows(s: Fs, s': Fs, l: Lru<PageKey>)
    requires Follows(s, l) && SamePages(s, s')
    ensures Follows(s', l)
  {
    hide Follows;
    ListedSameUses(s, s');
    FollowsOn(s, s', l);
  }

  ghost function UsesOfRun(s: Fs, calls: seq<Call>): seq<Use<PageKey>>
    decreases |calls|
  {
    if calls == [] then [] else UsesOf(s, calls[0]) + UsesOfRun(Step(s, calls[0]).0, calls[1..])
  }

  lemma {:induction false} RunFollows(s: Fs, calls: seq<Call>, l: Lru<PageKey>, g: Owners)
    requires Follows(s, l) && Inv(s, g) && forall i :: 0 <= i < |calls| ==> Proper(calls[i])
    ensures Follows(Run(s, calls).0, AfterAll(l, UsesOfRun(s, calls)))
    decreases |calls|
  {
    hide Inv, Follows, AfterAll, UsesOf, Step, Proper, Acts;
    if calls == [] {
      NoUses(l);
    } else {
      var s1 := Step(s, calls[0]).0;
      StepFollows(s, calls[0], l, g);
      var g1 := StepOk(s, calls[0], g);
      RunFollows(s1, calls[1..], AfterAll(l, UsesOf(s, calls[0])), g1);
      AfterBoth(l, UsesOf(s, calls[0]), UsesOfRun(s1, calls[1..]));
    }
  }

  /** Four slots with no page, the lowest first. */
  const UNUSED: Lru<PageKey> := Lru([(0, 0), (0, 0), (0, 0), (0, 0)], [0, 1, 2, 3])

  lemma FormattedFollows(n: nat, time: nat -> int)
    requires META_BLOCKS < n <= 8 * BLOCK_SIZE && ExactLru.Ticking(time)
    ensures Follows(Formatted(n, time), UNUSED)
  {
    hide Formatted, ExactLru.Ticking;
    FormattedStore(n, time);
    ExactLru.TickingPositive(time, 0);
    var s, order := Formatted(n, time), UNUSED.order;
    assert PageKeys(s.dcache) == [(0, 0), (0, 0), (0, 0), (0, 0)];
    forall k: nat | k < DIR_SLOTS ensures Find(order, k, 0) < 4 { assert order[k] == k; }
  }

  /**
   Over any run of proper calls from the formatted disk, under any positive clock that strictly increases: slot by slot
   the page cache holds pages of the directories and blocks that the machine without a clock holds, and its next victim
   is the machine's.
   */
  lemma RunsKeepPagesByUse(n: nat, time: nat -> int, calls: seq<Call>)
    requires META_BLOCKS < n <= 8 * BLOCK_SIZE && ExactLru.Ticking(time)
    requires forall i :: 0 <= i < |calls| ==> Proper(calls[i])
    ensures var (s, l) := (Run(Formatted(n, time), calls).0, AfterAll(UNUSED, UsesOfRun(Formatted(n, time), calls)));
      PageKeys(s.dcache) == l.keys && l.order != [] && Victim(PageTimes(s.dcache)) == l.order[0]
  {
    hide Formatted, Inv, Run, AfterAll, UsesOfRun, ExactLru.Ticking, ByStamp, Coherent, Files;
    FormattedOk(n, time);
    FormattedFollows(n, time);
    RunFollows(Formatted(n, time), calls, UNUSED, START);
    var (s, l) := (Run(Formatted(n, time), calls).0, AfterAll(UNUSED, UsesOfRun(Formatted(n, time), calls)));
    VictimTracks(PageKeys(s.dcache), PageTimes(s.dcache), s.Now(), l);
  }
}
