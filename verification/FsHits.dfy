/**
 Which of several entries with one name a search answers with, in every state and under any clock, and what a hit behind
 the page seen first leaves on that page for later listings.
 */
module FsHits {
  import opened Bytes
  import opened BlockStore
  import ExactLru
  import opened FsState
  import opened FsTree
  import opened FsInv
  import opened FsDirs
  import opened FsSearch
  import opened FsPages
  import opened FsCoherence
  import opened FsNamespace
  import opened FsListing

  // ------------------------------------------------------------------ the entry a search answers with

  /** Slot k is the first that holds a page of directory d. */
  ghost predicate FirstPageOf(s: Fs, d: nat, k: nat) {
    k < DIR_SLOTS && s.dcache[k].dir == d && forall l :: 0 <= l < k ==> s.dcache[l].dir != d
  }

  /** Place j is the first on the page with the name. */
  ghost predicate FirstPlace(page: Block, name: seq<byte>, j: nat) {
    j < PAGE_ENTRIES && NamedPlace(page, name, j) && forall i: nat :: i < j ==> !NamedPlace(page, name, i)
  }

  ghost predicate NamedPlace(page: Block, name: seq<byte>, j: nat)
    requires j < PAGE_ENTRIES
  {
    EntryName(PageEntry(page, j)) == name
  }

  /** No page of the directory that is cached first has the name. */
  ghost predicate NotOnFirst(s: Fs, d: nat, name: seq<byte>) {
    forall k: nat, j: nat :: FirstPageOf(s, d, k) && j < PAGE_ENTRIES ==> !NamedPlace(s.dcache[k].page, name, j)
  }

  /** Entry e is the first of entries .. to-1 that is read with the name. */
  ghost predicate FirstRead(s: Fs, d: nat, ino: Inode, name: seq<byte>, from: nat, e: nat, to: nat) {
    && PAGE_ENTRIES * from <= e < to && ReadsAs(s, d, ino, name, from, e)
    && forall i: nat :: PAGE_ENTRIES * from <= i < e ==> !ReadsAs(s, d, ino, name, from, i)
  }

  lemma FirstPageIs(s: Fs, d: nat)
    ensures forall k: nat :: FirstPageOf(s, d, k) <==> k == PageSlotOfDir(s.dcache, d) && k < DIR_SLOTS
  {
    var k := PageSlotOfDir(s.dcache, d);
    forall l: nat | l < DIR_SLOTS ensures PageDirs(s.dcache)[l] == s.dcache[l].dir {}
  }

  /** The place a scan of a page finds. */
  lemma ScanIs(page: Block, name: seq<byte>, n: nat, j: nat)
    requires j < n <= PAGE_ENTRIES && FirstPlace(page, name, j)
    ensures ScanPage(page, name, 0, n) == Some(j)
  {
    hide PageEntry, EntryName;
    var r := ScanPage(page, name, 0, n);
    assert NamedPlace(page, name, j);
    if r.Some? { assert NamedPlace(page, name, r.value); }
  }

  lemma ScanMisses(page: Block, name: seq<byte>, n: nat)
    requires n <= PAGE_ENTRIES && forall j: nat :: j < n ==> !NamedPlace(page, name, j)
    ensures ScanPage(page, name, 0, n).None?
  {
    hide PageEntry, EntryName;
    forall j: nat | j < n ensures EntryName(PageEntry(page, j)) != name { assert !NamedPlace(page, name, j); }
  }

  /** One turn of the block loop, given what the page scan says. */
  lemma TurnAnswers(s: Fs, d: InodeId, name: seq<byte>, part: Option<nat>, iblock: nat, num: nat, s1: Fs, page: Block)
    requires num > 0 && iblock < INODE_BLOCKS && (part.Some? ==> part.value < DIR_SLOTS)
    requires FetchPage(s, d, s.itab[d].blocks[iblock]) == (s1, Some(page))
    ensures var (n, r) := (Min(PAGE_ENTRIES, num), SearchBlocks(s, d, name, part, iblock, num));
      var j := ScanPage(page, name, 0, n);
      if j.None? then r == SearchBlocks(s1, d, name, part, iblock + 1, num - n)
      else
        var x := PageEntry(page, j.value);
        && r.1 == Ok(EntryInode(x))
        && r.0 == if part.None? then s1
                  else s1.(dcache := s1.dcache[part.value := s1.dcache[part.value].(
                         page := FillFirstGap(s1.dcache[part.value].page, 0, x))])
  {
    hide FetchPage, ScanPage, FillFirstGap, EntryInode, PageEntry;
  }

  /** Places of the next page, in terms of entries. */
  lemma ReadOnPage(s: Fs, d: nat, ino: Inode, name: seq<byte>, i: nat, j: nat)
    requires i < INODE_BLOCKS && j < PAGE_ENTRIES
    ensures var e := PAGE_ENTRIES * i + j;
      && EntryRead(s, d, ino, i, e) == PageEntry(PageRead(s, d, ino, i, i), j)
      && (ReadsAs(s, d, ino, name, i, e) <==> NamedPlace(PageRead(s, d, ino, i, i), name, j))
  {
    var e := PAGE_ENTRIES * i + j;
    assert e / PAGE_ENTRIES == i && e % PAGE_ENTRIES == j;
  }

  /** Entries behind the next page are read as after it. */
  lemma ReadBehind(s: Fs, d: nat, ino: Inode, name: seq<byte>, i: nat, e: nat)
    requires i < INODE_BLOCKS && PAGE_ENTRIES * (i + 1) <= e
    ensures var s1 := FetchPage(s, d, ino.blocks[i]).0;
      && EntryRead(s, d, ino, i, e) == EntryRead(s1, d, ino, i + 1, e)
      && ReadsAs(s, d, ino, name, i, e) == ReadsAs(s1, d, ino, name, i + 1, e)
  {
    hide FetchPage;
    assert i + 1 <= e / PAGE_ENTRIES;
  }

  /** The first entry read with the name is on the next page, or the first read behind it. */
  lemma FirstReadStep(s: Fs, d: nat, ino: Inode, name: seq<byte>, i: nat, num: nat, e: nat)
    requires i < INODE_BLOCKS && num > 0 && FirstRead(s, d, ino, name, i, e, PAGE_ENTRIES * i + num)
    ensures var (s1, n) := (FetchPage(s, d, ino.blocks[i]).0, Min(PAGE_ENTRIES, num));
      var page := PageRead(s, d, ino, i, i);
      if e < PAGE_ENTRIES * i + n then
        && ScanPage(page, name, 0, n) == Some(e - PAGE_ENTRIES * i)
        && EntryRead(s, d, ino, i, e) == PageEntry(page, e - PAGE_ENTRIES * i)
      else
        && ScanPage(page, name, 0, n).None?
        && FirstRead(s1, d, ino, name, i + 1, e, PAGE_ENTRIES * (i + 1) + (num - n))
        && EntryRead(s, d, ino, i, e) == EntryRead(s1, d, ino, i + 1, e)
  {
    hide FetchPage, EntryRead, ReadsAs, PageRead;
    var (s1, n) := (FetchPage(s, d, ino.blocks[i]).0, Min(PAGE_ENTRIES, num));
    var page := PageRead(s, d, ino, i, i);
    forall j: nat | j < n && PAGE_ENTRIES * i + j < e ensures !NamedPlace(page, name, j) {
      ReadOnPage(s, d, ino, name, i, j);
    }
    if e < PAGE_ENTRIES * i + n {
      var j := e - PAGE_ENTRIES * i;
      ReadOnPage(s, d, ino, name, i, j);
      ScanIs(page, name, n, j);
    } else {
      ScanMisses(page, name, n);
      ReadBehind(s, d, ino, name, i, e);
      var next := i + 1;
      forall k: nat | PAGE_ENTRIES * next <= k < e ensures !ReadsAs(s1, d, ino, name, next, k) {
        ReadBehind(s, d, ino, name, i, k);
      }
    }
  }

  /** The state after the pages of blocks from .. i have been read. */
  function PagesRead(s: Fs, d: nat, ino: Inode, from: nat, i: nat): Fs
    requires from <= i < INODE_BLOCKS
    decreases i - from
  {
    var s1 := FetchPage(s, d, ino.blocks[from]).0;
    if from == i then s1 else PagesRead(s1, d, ino, from + 1, i)
  }

  // ------------------------------------------------------------------ the page seen first, after a hit

  /** Page p' is page p with entry x in its first place without a name, if there is one. */
  ghost predicate Noted(p: Block, p': Block, x: seq<byte>)
    requires |x| == ENTRY_SIZE
  {
    if NoPlace(p, []) then p' == p
    else exists j: nat :: FirstPlace(p, [], j) && PutAt(p, p', x, j)
  }

  ghost predicate NoPlace(p: Block, name: seq<byte>) {
    forall j: nat :: j < PAGE_ENTRIES ==> !NamedPlace(p, name, j)
  }

  ghost predicate PutAt(p: Block, p': Block, x: seq<byte>, j: nat)
    requires |x| == ENTRY_SIZE
  {
    forall i: nat :: i < PAGE_ENTRIES ==> PageEntry(p', i) == if i == j then x else PageEntry(p, i)
  }

  lemma {:induction false} FillIs(p: Block, j: nat, x: seq<byte>)
    requires |x| == ENTRY_SIZE && forall i: nat :: i < j && i < PAGE_ENTRIES ==> !NamedPlace(p, [], i)
    ensures Noted(p, FillFirstGap(p, j, x), x)
    decreases PAGE_ENTRIES - j
  {
    hide EntryName, PageEntry;
    if j < PAGE_ENTRIES {
      if NamedPlace(p, [], j) {
        assert FirstPlace(p, [], j) && PutAt(p, PutEntry(p, j, x), x, j);
      } else {
        FillIs(p, j + 1, x);
      }
    }
  }

  /** The state after a hit with entry x: the pages read, and x noted on the page of the slot seen first. */
  ghost predicate AfterHit(u: Fs, s': Fs, part: Option<nat>, x: seq<byte>)
    requires |x| == ENTRY_SIZE && (part.Some? ==> part.value < DIR_SLOTS)
  {
    if part.None? then s' == u
    else
      var k := part.value;
      && s' == u.(dcache := u.dcache[k := u.dcache[k].(page := s'.dcache[k].page)])
      && Noted(u.dcache[k].page, s'.dcache[k].page, x)
  }

  lemma {:induction false} SearchBlocksHits(s: Fs, d: InodeId, name: seq<byte>, part: Option<nat>, iblock: nat,
        num: nat, e: nat, g: Owners)
    requires Searching(s, d, name, part, iblock, num, g)
    requires FirstRead(s, d, s.itab[d], name, iblock, e, PAGE_ENTRIES * iblock + num)
    ensures iblock <= e / PAGE_ENTRIES < 2 && (part.Some? ==> part.value < DIR_SLOTS)
    ensures var (x, (s', r)) := (EntryRead(s, d, s.itab[d], iblock, e), SearchBlocks(s, d, name, part, iblock, num));
      r == Ok(EntryInode(x)) && AfterHit(PagesRead(s, d, s.itab[d], iblock, e / PAGE_ENTRIES), s', part, x)
    decreases num
  {
    hide Inv, FetchPage, ScanPage, PageRead, EntryRead, SearchBlocks, Sound, BlocksFor, FillFirstGap, Noted, FirstRead;
    FirstIsRead(s, d, s.itab[d], name, iblock, e, PAGE_ENTRIES * iblock + num);
    var s1, page := SearchTurn(s, d, name, part, iblock, num, g);
    var n := Min(PAGE_ENTRIES, num);
    NextPageRead(s, d, s.itab[d], iblock, page);
    FirstReadStep(s, d, s.itab[d], name, iblock, num, e);
    TurnAnswers(s, d, name, part, iblock, num, s1, page);
    if e < PAGE_ENTRIES * iblock + n {
      assert e / PAGE_ENTRIES == iblock;
      if part.Some? { FillIs(s1.dcache[part.value].page, 0, EntryRead(s, d, s.itab[d], iblock, e)); }
    } else {
      SearchBlocksHits(s1, d, name, part, iblock + 1, num - n, e, g);
    }
  }

  lemma FirstIsRead(s: Fs, d: nat, ino: Inode, name: seq<byte>, from: nat, e: nat, to: nat)
    requires FirstRead(s, d, ino, name, from, e, to)
    ensures PAGE_ENTRIES * from <= e < to && ReadsAs(s, d, ino, name, from, e)
  {
  }

  // ------------------------------------------------------------------ the search

  /** The first page of the directory, if one is cached, has the name first in place j. */
  ghost predicate FirstHit(s: Fs, d: nat, name: seq<byte>, k: nat, j: nat) {
    FirstPageOf(s, d, k) && FirstPlace(s.dcache[k].page, name, j)
  }

  /** Slot k carries the time of this step, and that is all. */
  function StampedPage(s: Fs, k: nat): Fs
    requires k < DIR_SLOTS
  {
    s.(dcache := s.dcache[k := s.dcache[k].(last := s.time(s.ticks))], ticks := s.ticks + 1)
  }

  /**
   A search answers with the inode in the first place with the name on the first cached page of the directory. That
   costs one stamp. If that page has no such place, or no page is cached, it answers with the first entry that has the
   name as the pages are then read, and notes the entry in the first nameless place of the page seen first. Otherwise it
   misses.
   */
  lemma SearchAnswers(s: Fs, d: InodeId, name: seq<byte>, g: Owners)
    requires Inv(s, g) && 1 <= d < |g.par| && IsDir(s.itab, d) && name != []
    ensures forall k: nat, j: nat :: FirstHit(s, d, name, k, j) ==>
      DirSearch(s, d, name) == (StampedPage(s, k), Ok(EntryInode(PageEntry(s.dcache[k].page, j))))
    ensures NotOnFirst(s, d, name) ==>
      var (t, row, (s', r)) := (SearchStart(s, d), s.itab[d], DirSearch(s, d, name));
      var part := if PageSlotOfDir(s.dcache, d) < DIR_SLOTS then Some(PageSlotOfDir(s.dcache, d)) else None;
      && (forall e: nat :: FirstRead(t, d, row, name, 0, e, Count(row)) ==>
            && e / PAGE_ENTRIES < 2 && r == Ok(EntryInode(EntryRead(t, d, row, 0, e)))
            && AfterHit(PagesRead(t, d, row, 0, e / PAGE_ENTRIES), s', part, EntryRead(t, d, row, 0, e)))
      && (r.Err? <==> forall e: nat :: e < Count(row) ==> !ReadsAs(t, d, row, name, 0, e))
  {
    hide Inv, SearchBlocks, ScanPage, NameRead, EntryRead, EntryName, PageEntry, AfterHit, PagesRead, FirstRead,
          ReadsAs;
    FirstPageIs(s, d);
    DirSearchSound(s, d, name, g);
    var k := PageSlotOfDir(s.dcache, d);
    forall l: nat, j: nat | FirstHit(s, d, name, l, j)
      ensures DirSearch(s, d, name) == (StampedPage(s, l), Ok(EntryInode(PageEntry(s.dcache[l].page, j))))
    {
      ScanIs(s.dcache[k].page, name, PAGE_ENTRIES, j);
    }
    if NotOnFirst(s, d, name) {
      if k < DIR_SLOTS {
        forall j: nat | j < PAGE_ENTRIES ensures !NamedPlace(s.dcache[k].page, name, j) {
          assert FirstPageOf(s, d, k);
        }
        ScanMisses(s.dcache[k].page, name, PAGE_ENTRIES);
      }
      LaterAnswer(s, d, name, g);
    }
  }

  lemma LaterAnswer(s: Fs, d: InodeId, name: seq<byte>, g: Owners)
    requires Inv(s, g) && 1 <= d < |g.par| && IsDir(s.itab, d) && name != [] && !OnFirstPage(s, d, name)
    ensures var (t, row, (s', r)) := (SearchStart(s, d), s.itab[d], DirSearch(s, d, name));
      var part := if PageSlotOfDir(s.dcache, d) < DIR_SLOTS then Some(PageSlotOfDir(s.dcache, d)) else None;
      && (forall e: nat :: FirstRead(t, d, row, name, 0, e, Count(row)) ==>
            && e / PAGE_ENTRIES < 2 && r == Ok(EntryInode(EntryRead(t, d, row, 0, e)))
            && AfterHit(PagesRead(t, d, row, 0, e / PAGE_ENTRIES), s', part, EntryRead(t, d, row, 0, e)))
      && (r.Err? <==> forall e: nat :: e < Count(row) ==> !ReadsAs(t, d, row, name, 0, e))
  {
    hide Inv, SearchBlocks, ScanPage, EntryRead, AfterHit, PagesRead, FirstRead, ReadsAs;
    StartIsSearching(s, d, name, g);
    SearchExact(s, d, name, g);
    DirSearchSound(s, d, name, g);
    var (t, row, k) := (SearchStart(s, d), s.itab[d], PageSlotOfDir(s.dcache, d));
    var part := if k < DIR_SLOTS then Some(k) else None;
    assert DirSearch(s, d, name) == SearchBlocks(t, d, name, part, 0, Count(row));
    forall e: nat | FirstRead(t, d, row, name, 0, e, Count(row))
      ensures e / PAGE_ENTRIES < 2 && DirSearch(s, d, name).1 == Ok(EntryInode(EntryRead(t, d, row, 0, e)))
      ensures AfterHit(PagesRead(t, d, row, 0, e / PAGE_ENTRIES), DirSearch(s, d, name).0, part,
                       EntryRead(t, d, row, 0, e))
    {
      SearchBlocksHits(t, d, name, part, 0, Count(row), e, g);
    }
  }

  // ------------------------------------------------------------------ the next listing

  /** A line of a listing whose page is cached and not replaced on the way is what that page has in its place. */
  lemma CachedLine(s: Fs, d: InodeId, i: nat, j: nat, k: nat, max: nat, g: Owners)
    requires Inv(s, g) && 1 <= d < |g.par| && IsDir(s.itab, d) && i < INODE_BLOCKS && j < PAGE_ENTRIES
    requires k < DIR_SLOTS && k == PageSlotOf(s.dcache, d, Eff(s, d).blocks[i])
    requires !Afresh(Acquire(s, d).0, d, Eff(s, d), 0, i) && PAGE_ENTRIES * i + j < Min(Count(Eff(s, d)), max)
    ensures var (r, x) := (FsReaddir(s, d, max).1, PageEntry(s.dcache[k].page, j));
      r.Ok? && PAGE_ENTRIES * i + j < |r.value|
      && r.value[PAGE_ENTRIES * i + j] == Listed(EntryName(x), TypeOf(s, EntryInode(x)))
  {
    hide Inv, FsReaddir, Afresh, PageRead, EntryName, EntryInode, PageEntry, LinesRead;
    ReaddirExact(s, d, max, g);
    AcquireKeepsInv(s, d, g);
    AcquiredDir(s, d, g);
    CachedDirFacts(s, d, g);
    var (t, ino, e) := (Acquire(s, d).0, Eff(s, d), PAGE_ENTRIES * i + j);
    SmallRecord(t, d, ino, g);
    assert e / PAGE_ENTRIES == i && e % PAGE_ENTRIES == j;
    assert i < BlocksFor(ino.size);
    PageReadIs(t, d, ino, 0, i, g);
    LineAt(t, d, ino, Min(Count(ino), max), e);
    SameTypes(s, t, EntryInode(PageEntry(s.dcache[k].page, j)));
  }

  lemma LineAt(t: Fs, d: InodeId, ino: Inode, to: nat, e: nat)
    requires e < to
    ensures LinesRead(t, d, ino, 0, to)[e] == LineOf(t, EntryRead(t, d, ino, 0, e))
  {
    hide EntryRead, LineOf;
  }

  lemma SameTypes(s: Fs, t: Fs, n: nat)
    requires t.inoMap == s.inoMap && SameDirRows(s.itab, t.itab)
    ensures TypeOf(t, n) == TypeOf(s, n)
  {
  }

  /** With the first page of a directory cached first, a hit in the second block leaves it in its slot. */
  lemma FirstPageStays(s: Fs, d: InodeId, k: nat, g: Owners)
    requires Inv(s, g) && 1 <= d < |g.par| && IsDir(s.itab, d) && BlocksFor(s.itab[d].size) == 2
    requires FirstPageOf(s, d, k) && s.dcache[k].num == s.itab[d].blocks[0]
    requires Older(s) && ExactLru.Ticking(s.time)
    ensures var u := PagesRead(SearchStart(s, d), d, s.itab[d], 0, 1);
      && PageSlotOf(u.dcache, d, s.itab[d].blocks[0]) == k && u.dcache[k].page == s.dcache[k].page
      && PagesOnly(s, u)
  {
    hide Inv, FetchPage, ExactLru.Ticking, Older, Newest;
    FirstPageIs(s, d);
    ExactLru.TickingPositive(s.time, s.ticks);
    ExactLru.TickingPositive(s.time, s.ticks + 1);
    var (row, t) := (s.itab[d], SearchStart(s, d));
    var (b0, b1) := (row.blocks[0], row.blocks[1]);
    StampedOlder(s, k);
    TouchPageKeepsInv(s, k, g);
    FetchKeepsRecord(t, d, row, 0, g);
    var t1 := FetchPage(t, d, b0).0;
    ApartOfInv(s, g);
    ApartOfInv(t1, g);
    OwnSlot(t, d, k);
    HitStamps(t, d, b0);
    FetchNewest(t, d, b0, b0);
    FetchKeepsRecord(t1, d, row, 1, g);
    BlocksApart(t1, d, row, 0, 1, g);
    ExactLru.TickingPositive(t1.time, t1.ticks);
    FetchNewest(t1, d, b1, b0);
    FetchKeepsOther(t1, d, b1, b0);
  }

  /** Noting an entry moves no page. */
  lemma NotedSlots(u: Fs, s': Fs, d: nat, b: nat, k: nat, x: seq<byte>)
    requires k < DIR_SLOTS && |x| == ENTRY_SIZE && AfterHit(u, s', Some(k), x)
    ensures PageSlotOf(s'.dcache, d, b) == PageSlotOf(u.dcache, d, b)
  {
    assert PageKeys(s'.dcache) == PageKeys(u.dcache);
  }

  lemma NotedPlace(p: Block, p': Block, x: seq<byte>, j: nat)
    requires |x| == ENTRY_SIZE && Noted(p, p', x) && FirstPlace(p, [], j)
    ensures j < PAGE_ENTRIES && PageEntry(p', j) == x
  {
    hide EntryName, PageEntry;
    assert NamedPlace(p, [], j);
    var i: nat :| FirstPlace(p, [], i) && PutAt(p, p', x, i);
    assert i == j;
  }

  lemma SecondBlock(s: Fs, d: nat, e: nat, g: Owners)
    requires Inv(s, g) && 1 <= d < |g.par| && IsDir(s.itab, d) && PAGE_ENTRIES <= e < Count(s.itab[d])
    ensures e / PAGE_ENTRIES == 1 && BlocksFor(s.itab[d].size) == 2
  {
    DirectoriesAreSmall(s.store.disk, s.itab, g.par, d);
    SizeOfDir(s, d, g);
  }

  lemma SameInodes(s: Fs, s': Fs, d: InodeId, n: nat)
    requires PagesOnly(s, s')
    ensures Eff(s', d) == Eff(s, d) && TypeOf(s', n) == TypeOf(s, n)
    ensures Acquire(s', d).0.dcache == s'.dcache
  {
  }

  /**
   A hit in the second block shows in the next listing: with the first block's page cached first, line j of it, for the
   first nameless place j, is the entry found, wherever that lies, if the listing gets there.
   */
  lemma NextListingShows(s: Fs, d: InodeId, name: seq<byte>, k: nat, j: nat, e: nat, max: nat, g: Owners)
    requires Inv(s, g) && 1 <= d < |g.par| && IsDir(s.itab, d) && name != [] && Older(s) && ExactLru.Ticking(s.time)
    requires FirstPageOf(s, d, k) && s.dcache[k].num == s.itab[d].blocks[0] && NotOnFirst(s, d, name)
    requires FirstRead(SearchStart(s, d), d, s.itab[d], name, 0, e, Count(s.itab[d])) && PAGE_ENTRIES <= e
    requires FirstPlace(s.dcache[k].page, [], j) && j < Min(Count(Eff(s, d)), max)
    ensures var (s', found) := DirSearch(s, d, name);
      var r := FsReaddir(s', d, max).1;
      found.Ok? && r.Ok? && j < |r.value| && r.value[j] == Listed(name, TypeOf(s, found.value))
  {
    hide Inv, FsReaddir, DirSearch, EntryRead, EntryName, EntryInode, PageEntry, Older, ExactLru.Ticking, NotOnFirst,
          FirstPlace, Acquire, FirstRead, Noted;
    var s' := DirSearch(s, d, name).0;
    var x := HitNoted(s, d, name, k, e, g);
    NotedPlace(s.dcache[k].page, s'.dcache[k].page, x, j);
    SameInodes(s, s', d, EntryInode(x));
    CachedDirFacts(s, d, g);
    CachedLine(s', d, 0, j, k, max, g);
  }

  /** What such a hit leaves: the page in its slot, with the entry noted. */
  lemma HitNoted(s: Fs, d: InodeId, name: seq<byte>, k: nat, e: nat, g: Owners) returns (x: seq<byte>)
    requires Inv(s, g) && 1 <= d < |g.par| && IsDir(s.itab, d) && name != [] && Older(s) && ExactLru.Ticking(s.time)
    requires FirstPageOf(s, d, k) && s.dcache[k].num == s.itab[d].blocks[0] && NotOnFirst(s, d, name)
    requires FirstRead(SearchStart(s, d), d, s.itab[d], name, 0, e, Count(s.itab[d])) && PAGE_ENTRIES <= e
    ensures |x| == ENTRY_SIZE && EntryName(x) == name
    ensures var (s', r) := DirSearch(s, d, name);
      && r == Ok(EntryInode(x)) && PagesOnly(s, s') && Inv(s', g)
      && PageSlotOf(s'.dcache, d, s.itab[d].blocks[0]) == k && Noted(s.dcache[k].page, s'.dcache[k].page, x)
  {
    hide Inv, DirSearch, EntryRead, EntryName, EntryInode, PageEntry, Older, ExactLru.Ticking, PagesRead, NotOnFirst,
          FirstRead, Noted;
    var row := s.itab[d];
    FirstIsRead(SearchStart(s, d), d, row, name, 0, e, Count(row));
    SecondBlock(s, d, e, g);
    FirstPageStays(s, d, k, g);
    FirstPageIs(s, d);
    SearchAnswers(s, d, name, g);
    DirSearchSound(s, d, name, g);
    x := EntryRead(SearchStart(s, d), d, row, 0, e);
    NotedSlots(PagesRead(SearchStart(s, d), d, row, 0, 1), DirSearch(s, d, name).0, d, row.blocks[0], k, x);
  }

  lemma HitStamps(t: Fs, d: nat, b: nat)
    requires PageSlotOf(t.dcache, d, b) < DIR_SLOTS
    ensures FetchPage(t, d, b).0 == StampedPage(t, PageSlotOf(t.dcache, d, b))
    ensures PageSlotOf(FetchPage(t, d, b).0.dcache, d, b) == PageSlotOf(t.dcache, d, b)
  {
    assert PageKeys(FetchPage(t, d, b).0.dcache) == PageKeys(t.dcache);
  }

  /** The slot of a page is the only one with its key. */
  lemma OwnSlot(t: Fs, d: nat, k: nat)
    requires k < DIR_SLOTS && t.dcache[k].dir == d != 0 && PagesApart(t.dcache)
    ensures PageSlotOf(t.dcache, d, t.dcache[k].num) == k
  {
    var l := PageSlotOf(t.dcache, d, t.dcache[k].num);
    assert PageKeys(t.dcache)[k] == (d, t.dcache[k].num);
  }

  lemma StampedOlder(s: Fs, k: nat)
    requires k < DIR_SLOTS && Older(s) && s.time(s.ticks) < s.time(s.ticks + 1)
    ensures Older(TouchPage(s, k))
  {
  }

  // ------------------------------------------------------------------ fs_lookup

  /** Inode m is what a search for the name gives. */
  ghost predicate Answers(s: Fs, d: InodeId, name: seq<byte>, m: nat) {
    || (exists k: nat, j: nat :: FirstHit(s, d, name, k, j) && m == EntryInode(PageEntry(s.dcache[k].page, j)))
    || (NotOnFirst(s, d, name) && exists e: nat ::
          FirstRead(SearchStart(s, d), d, s.itab[d], name, 0, e, Count(s.itab[d]))
          && m == EntryInode(EntryRead(SearchStart(s, d), d, s.itab[d], 0, e)))
  }

  /** If some entry is read with the name, one is the first. */
  lemma {:induction false} FirstExists(s: Fs, d: nat, ino: Inode, name: seq<byte>, e: nat, to: nat) returns (f: nat)
    requires e < to && ReadsAs(s, d, ino, name, 0, e)
    ensures FirstRead(s, d, ino, name, 0, f, to)
    decreases e
  {
    hide ReadsAs;
    if i: nat :| i < e && ReadsAs(s, d, ino, name, 0, i) {
      f := FirstExists(s, d, ino, name, i, to);
    } else {
      f := e;
    }
  }

  /** If some place has the name, one is the first. */
  lemma {:induction false} FirstPlaceExists(page: Block, name: seq<byte>, j: nat) returns (f: nat)
    requires j < PAGE_ENTRIES && NamedPlace(page, name, j)
    ensures FirstPlace(page, name, f)
    decreases j
  {
    hide NamedPlace;
    if i: nat :| i < j && NamedPlace(page, name, i) {
      f := FirstPlaceExists(page, name, i);
    } else {
      f := j;
    }
  }

  lemma SearchGives(s: Fs, d: InodeId, name: seq<byte>, m: nat, g: Owners)
    requires Inv(s, g) && 1 <= d < |g.par| && IsDir(s.itab, d) && name != []
    ensures DirSearch(s, d, name).1 == Ok(m) <==> Answers(s, d, name, m)
  {
    hide Inv, DirSearch, EntryRead, EntryName, PageEntry, AfterHit, PagesRead, FirstRead, ReadsAs, FirstPlace,
          SearchStart, EntryInode, NamedPlace;
    SearchAnswers(s, d, name, g);
    DirSearchSound(s, d, name, g);
    if NotOnFirst(s, d, name) {
      NotHit(s, d, name);
      if DirSearch(s, d, name).1.Ok? {
        var e: nat :| e < Count(s.itab[d]) && ReadsAs(SearchStart(s, d), d, s.itab[d], name, 0, e);
        var f := FirstExists(SearchStart(s, d), d, s.itab[d], name, e, Count(s.itab[d]));
      }
    } else {
      var k: nat, j: nat :| FirstPageOf(s, d, k) && j < PAGE_ENTRIES && NamedPlace(s.dcache[k].page, name, j);
      var f := FirstPlaceExists(s.dcache[k].page, name, j);
      assert FirstHit(s, d, name, k, f);
    }
  }

  lemma NotHit(s: Fs, d: nat, name: seq<byte>)
    requires NotOnFirst(s, d, name)
    ensures forall k: nat, j: nat :: !FirstHit(s, d, name, k, j)
  {
    hide NamedPlace;
  }

  /** Where the names lead from directory d, each answered in the state in which it is looked for. */
  ghost function Walk(s: Fs, d: nat, names: seq<seq<byte>>): Lookup
    decreases |names|
  {
    if names == [] then Found(d)
    else if d >= INODES || s.itab[d].itype != FS_DIR then Refused
    else if m: nat :| Answers(s, d, names[0], m) then Walk(DirSearch(s, d, names[0]).0, m, names[1..])
    else Missing
  }

  lemma {:induction false} WalkIs(s: Fs, d: nat, names: seq<seq<byte>>, g: Owners)
    requires Inv(s, g) && 1 <= d < |g.par| && forall i :: 0 <= i < |names| ==> names[i] != []
    ensures LookupFrom(s, d, names).1 == Walk(s, d, names)
    decreases |names|
  {
    hide RowsOk, SlotsOk, StoreOk, OwnersOk, PagesOk, DirSearch, IsEntry, Answers;
    if names != [] {
      UsedIffBelow(s, g, d);
      if s.itab[d].itype == FS_DIR {
        DirSearchSound(s, d, names[0], g);
        var (s1, r) := DirSearch(s, d, names[0]);
        forall x: nat ensures r == Ok(x) <==> Answers(s, d, names[0], x) { SearchGives(s, d, names[0], x, g); }
        if r.Ok? {
          EntryUsed(s.store.disk, s.itab, g.par, d, names[0], r.value);
          WalkIs(s1, r.value, names[1..], g);
        }
      }
    }
  }

  /** What fs_lookup answers, in every state. */
  lemma LookupAnswers(s: Fs, path: seq<byte>, g: Owners)
    requires Inv(s, g)
    ensures FsLookup(s, path).1
         == if path == [] || path[0] != SLASH then Refused
            else if Tokens(path) == [] then RootOnly else Walk(s, ROOT, Tokens(path))
  {
    hide Inv, LookupFrom, Walk, Tokens;
    assert 2 <= |g.par| by { RootInUse(s, g); }
    if path != [] && path[0] == SLASH && Tokens(path) != [] { WalkIs(s, ROOT, Tokens(path), g); }
  }

  lemma RootInUse(s: Fs, g: Owners)
    requires Inv(s, g)
    ensures 2 <= |g.par|
  {
  }
}
