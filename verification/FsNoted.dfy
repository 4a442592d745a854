/**
 A run in which a hit leaves a trace: of 33 files created in one directory the last is looked up, and from then on a
 listing shows it in the second line.
 */
module FsNoted {
  import opened Bytes
  import opened Bitmap
  import opened BlockStore
  import ExactLru
  import opened FsState
  import opened FsTree
  import opened FsInv
  import opened FsCoherence
  import opened FsCalls
  import opened FsDirs
  import opened FsSearch
  import opened FsPages
  import opened FsNamespace
  import opened FsListing
  import opened FsStart
  import opened FsRuns
  import opened FsCreated
  import opened FsClock
  import opened FsStale
  import opened FsPushedOut
  import opened FsHits

  /** Different names for files in the root. */
  ghost predicate Names33(names: seq<seq<byte>>) {
    && |names| == 33 && (forall i :: 0 <= i < 33 ==> GoodName(names[i]))
    && forall i, j :: 0 <= i < j < 33 ==> names[i] != names[j]
  }

  /** The first i of them have been created, the inode cache is untouched. */
  ghost predicate Made33(s: Fs, names: seq<seq<byte>>, i: nat, g: Owners) {
    && Inv(s, g) && |g.par| == i + 2 && |g.own| <= META_BLOCKS + (i + 31) / 32
    && IsDir(s.itab, ROOT) && s.itab[ROOT].size == ENTRY_SIZE * i
    && (forall k :: 0 <= k < INODE_SLOTS ==> s.icache[k].num == 0)
    && (forall m: nat :: 2 <= m < i + 2 ==> s.itab[m].itype == FS_FILE)
    && (forall k: nat :: k < i && k < |names| ==> (ROOT, names[k], k + 2) in Entries(s))
    && forall name: seq<byte>, m: nat :: (ROOT, name, m) in Entries(s) ==>
         2 <= m < i + 2 && m - 2 < |names| && name == names[m - 2]
  }

  /** Slot v alone holds a page of the root: its first block as it was after the first creation. */
  ghost predicate OldPage(s: Fs, v: nat, name: seq<byte>) {
    && v < DIR_SLOTS && s.dcache[v].dir == ROOT && s.dcache[v].num == s.itab[ROOT].blocks[0]
    && (forall k :: 0 <= k < DIR_SLOTS && k != v ==> s.dcache[k].dir != ROOT)
    && NamedPlace(s.dcache[v].page, name, 0) && EntryInode(PageEntry(s.dcache[v].page, 0)) == 2
    && forall j: nat :: 1 <= j < PAGE_ENTRIES ==> NamedPlace(s.dcache[v].page, [], j)
  }

  lemma CreateNext(s: Fs, names: seq<seq<byte>>, i: nat, g: Owners) returns (g': Owners)
    requires Names33(names) && i < 33 && Made33(s, names, i, g) && META_BLOCKS + 1 < s.NumBlocks()
    ensures var (s', r) := FsCreate(s, ROOT, names[i]);
      && r == Ok(i + 2) && s'.time == s.time && s'.NumBlocks() == s.NumBlocks() && Made33(s', names, i + 1, g')
  {
    hide Inv, MakeNode, Entries, CoherentAt, GoodName, Files;
    RootIsDir(s, g);
    g' := MakeAnother(s, ROOT, names[i], FS_FILE, g);
  }

  /** The page cache after it is that of the search that missed. */
  lemma CreateNextPages(s: Fs, names: seq<seq<byte>>, i: nat, g: Owners)
    requires Made33(s, names, i, g) && i < |names| && GoodName(names[i]) && FsCreate(s, ROOT, names[i]).1.Ok?
    ensures var s' := FsCreate(s, ROOT, names[i]).0;
      && (i > 0 ==> s'.itab[ROOT].blocks[0] == s.itab[ROOT].blocks[0])
      && s'.dcache == DirSearch(s, ROOT, names[i]).0.dcache && DirSearch(s, ROOT, names[i]).1.Err?
  {
    hide Inv, MakeNode, Entries, GoodName, DirSearch;
    GoodIsNonempty(names[i]);
    SearchKeepsTables(s, ROOT, names[i], g);
    MakeLeaves(s, ROOT, names[i], FS_FILE);
  }

  /** The second creation caches the root's page with one name on it. */
  lemma OldPageAppears(s: Fs, names: seq<seq<byte>>, g: Owners) returns (v: nat)
    requires Made33(s, names, 1, g) && |names| == 33 && names[0] != [] && GoodName(names[1])
    requires PageSlotOfDir(s.dcache, ROOT) == DIR_SLOTS && DirSearch(s, ROOT, names[1]).1.Err?
    ensures OldPage(s.(dcache := DirSearch(s, ROOT, names[1]).0.dcache), v, names[0])
  {
    hide Inv, DirSearch, IsEntry, EntryName, EntryInode, PageEntry, ScanPage, PageSlotOfDir;
    GoodIsNonempty(names[1]);
    v := ColdMissCaches(s, ROOT, names[1], g);
    assert (ROOT, names[0], 0 + 2) in Entries(s);
    PageOfOne(s, names[0], 2, g);
    RestNameless(s, g);
  }

  lemma RestNameless(s: Fs, g: Owners)
    requires Inv(s, g) && |g.par| > ROOT && IsDir(s.itab, ROOT) && s.itab[ROOT].size == ENTRY_SIZE
    ensures s.itab[ROOT].blocks[0] < s.NumBlocks()
    ensures forall j: nat :: 1 <= j < PAGE_ENTRIES ==> NamedPlace(s.store.disk[s.itab[ROOT].blocks[0]], [], j)
  {
    hide RowsOk, SlotsOk, StoreOk, OwnersOk, MapsOk, PagesOk, EntryName, PageEntry;
    DirBlock(s, ROOT, 0, g);
    forall j: nat | 1 <= j < PAGE_ENTRIES ensures NamedPlace(s.store.disk[s.itab[ROOT].blocks[0]], [], j) {
      NamedPlaceIsEntry(s, ROOT, 0, j, g);
    }
  }

  lemma NamedOnce(page: Block, a: seq<byte>, b: seq<byte>, j: nat)
    requires j < PAGE_ENTRIES && NamedPlace(page, a, j) && a != b
    ensures !NamedPlace(page, b, j)
  {
  }

  /** A search that misses with only the old page cached leaves it, in its slot. */
  lemma MissKeepsOldPage(s: Fs, names: seq<seq<byte>>, i: nat, v: nat, name: seq<byte>, g: Owners)
    requires Made33(s, names, i, g) && 1 <= i <= 32 && name != [] && OldPage(s, v, name)
    requires 1 <= i && i < |names| && names[i] != [] && names[i] != name
    ensures DirSearch(s, ROOT, names[i]).1 == Err
    ensures OldPage(s.(dcache := DirSearch(s, ROOT, names[i]).0.dcache), v, name)
  {
    hide Inv, Entries, EntryName, PageEntry, EntryInode, TouchPage;
    var page := s.dcache[v].page;
    forall j: nat | j < PAGE_ENTRIES ensures !NamedPlace(page, names[i], j) {
      NamedOnce(page, if j == 0 then name else [], names[i], j);
    }
    ScanMisses(page, names[i], PAGE_ENTRIES);
    ScanMisses(page, names[i], i);
    FirstPageIs(s, ROOT);
    assert FirstPageOf(s, ROOT, v);
    var t := TouchPage(s, v);
    TouchIs(s, v);
    ApartOfInv(s, g);
    OwnSlot(s, ROOT, v);
    OneBlockMiss(s, t, v, names[i], i, g);
  }

  lemma TouchIs(s: Fs, k: nat)
    requires k < DIR_SLOTS
    ensures TouchPage(s, k) == StampedPage(s, k)
  {
  }

  /** The block loop over the one block, cached in slot v. */
  lemma OneBlockMiss(s: Fs, t: Fs, v: nat, name: seq<byte>, i: nat, g: Owners)
    requires v < DIR_SLOTS && t == StampedPage(s, v) && PageSlotOfDir(s.dcache, ROOT) == v
    requires PageSlotOf(s.dcache, ROOT, s.itab[ROOT].blocks[0]) == v && Count(s.itab[ROOT]) == i && 1 <= i <= 32
    requires ScanPage(s.dcache[v].page, name, 0, PAGE_ENTRIES).None? && ScanPage(s.dcache[v].page, name, 0, i).None?
    ensures DirSearch(s, ROOT, name) == (StampedPage(t, v), Err)
  {
    hide ScanPage, FillFirstGap;
    assert PageKeys(t.dcache) == PageKeys(s.dcache);
    var b := s.itab[ROOT].blocks[0];
    assert FetchPage(t, ROOT, b) == (StampedPage(t, v), Some(s.dcache[v].page));
    assert SearchBlocks(StampedPage(t, v), ROOT, name, Some(v), 1, 0) == (StampedPage(t, v), Err);
  }

  // ------------------------------------------------------------------ all creations

  function CreatesOf(names: seq<seq<byte>>): seq<Call> {
    seq(|names|, i requires 0 <= i < |names| => CreateIn(ROOT, names[i]))
  }

  /** The creations from the third on. */
  lemma {:induction false} OldPageStays(s: Fs, names: seq<seq<byte>>, i: nat, v: nat, g: Owners) returns (g': Owners)
    requires Names33(names) && 2 <= i <= 33 && Made33(s, names, i, g) && META_BLOCKS + 1 < s.NumBlocks()
    requires OldPage(s, v, names[0]) && (i == 33 ==> DirSearch(s, ROOT, names[32]).1.Ok?)
    ensures var s' := Run(s, CreatesOf(names[i..])).0;
      && Made33(s', names, 33, g') && OldPage(s', v, names[0]) && DirSearch(s', ROOT, names[32]).1.Ok?
      && s'.time == s.time && s'.NumBlocks() == s.NumBlocks()
    decreases 33 - i
  {
    hide Inv, MakeNode, Entries, GoodName, Made33, OldPage, DirSearch;
    if i == 33 {
      g' := g;
    } else {
      var s1 := FsCreate(s, ROOT, names[i]).0;
      var g1 := CreateNext(s, names, i, g);
      CreateNextPages(s, names, i, g);
      GoodIsNonempty(names[i]);
      GoodIsNonempty(names[0]);
      MissKeepsOldPage(s, names, i, v, names[0], g);
      OldPageOf(s, s1, v, names[0], DirSearch(s, ROOT, names[i]).0.dcache);
      if i == 32 { LastIsFound(s, names, g); }
      g' := OldPageStays(s1, names, i + 1, v, g1);
      assert CreatesOf(names[i..])[1..] == CreatesOf(names[i + 1..]);
    }
  }

  lemma OldPageOf(s: Fs, s1: Fs, v: nat, name: seq<byte>, c: DirCache)
    requires OldPage(s.(dcache := c), v, name) && s1.dcache == c
    requires s1.itab[ROOT].blocks[0] == s.itab[ROOT].blocks[0]
    ensures OldPage(s1, v, name)
  {
    hide EntryName, EntryInode, PageEntry;
  }

  /** The 33rd entry begins a new block, so it is found. */
  lemma LastIsFound(s: Fs, names: seq<seq<byte>>, g: Owners)
    requires Names33(names) && Made33(s, names, 32, g) && FsCreate(s, ROOT, names[32]).1.Ok?
    ensures DirSearch(FsCreate(s, ROOT, names[32]).0, ROOT, names[32]).1.Ok?
  {
    hide Inv, MakeNode, DirSearch, Entries, IsEntry, NameAfresh;
    CreatedNameFoundIff(s, ROOT, names[32], FS_FILE, g);
  }

  // ------------------------------------------------------------------ the lookup and the listing

  /** The old page has no name but the first. */
  lemma OldPageHas(s: Fs, v: nat, name: seq<byte>, other: seq<byte>)
    requires OldPage(s, v, name) && other != [] && other != name
    ensures NotOnFirst(s, ROOT, other) && FirstPageOf(s, ROOT, v)
    ensures name != [] ==> FirstPlace(s.dcache[v].page, [], 1)
  {
    hide EntryInode;
    forall j: nat | j < PAGE_ENTRIES ensures !NamedPlace(s.dcache[v].page, other, j) {
      NamedOnce(s.dcache[v].page, if j == 0 then name else [], other, j);
    }
    assert NamedPlace(s.dcache[v].page, name, 0) && NamedPlace(s.dcache[v].page, [], 1);
  }

  /** So the entry found lies in the second block. */
  lemma FoundBehind(s: Fs, v: nat, name: seq<byte>, other: seq<byte>, g: Owners) returns (e: nat)
    requires Inv(s, g) && ROOT < |g.par| && IsDir(s.itab, ROOT) && s.itab[ROOT].size == ENTRY_SIZE * 33
    requires OldPage(s, v, name) && other != [] && other != name && DirSearch(s, ROOT, other).1.Ok?
    ensures FirstRead(SearchStart(s, ROOT), ROOT, s.itab[ROOT], other, 0, e, 33) && PAGE_ENTRIES <= e
  {
    hide Inv, DirSearch, EntryRead, EntryName, PageEntry, EntryInode, PageRead, TouchPage;
    var (t, row) := (SearchStart(s, ROOT), s.itab[ROOT]);
    OldPageHas(s, v, name, other);
    SearchAnswers(s, ROOT, other, g);
    var i: nat :| i < 33 && ReadsAs(t, ROOT, row, other, 0, i);
    e := FirstExists(t, ROOT, row, other, i, 33);
    if e < PAGE_ENTRIES {
      FirstPageIs(s, ROOT);
      TouchIs(s, v);
      StartIsSearching(s, ROOT, other, g);
      OldPageRead(s, t, v, g);
      ReadOnPage(t, ROOT, row, other, 0, e);
      assert false;
    }
  }

  lemma OldPageRead(s: Fs, t: Fs, v: nat, g: Owners)
    requires v < DIR_SLOTS && t == StampedPage(s, v) && DirRecord(t, ROOT, s.itab[ROOT], g) && Inv(s, g)
    requires s.dcache[v].dir == ROOT && s.dcache[v].num == s.itab[ROOT].blocks[0] && 0 < BlocksFor(s.itab[ROOT].size)
    ensures PageRead(t, ROOT, s.itab[ROOT], 0, 0) == s.dcache[v].page
  {
    hide Inv, PageEntry;
    ApartOfInv(s, g);
    OwnSlot(s, ROOT, v);
    assert PageKeys(t.dcache) == PageKeys(s.dcache);
  }

  /** The last name leads to the last inode. */
  lemma FoundNumber(s: Fs, names: seq<seq<byte>>, g: Owners)
    requires Names33(names) && Made33(s, names, 33, g) && DirSearch(s, ROOT, names[32]).1.Ok?
    ensures DirSearch(s, ROOT, names[32]).1 == Ok(34)
  {
    hide Inv, DirSearch, IsEntry;
    GoodIsNonempty(names[32]);
    DirSearchSound(s, ROOT, names[32], g);
    var m := DirSearch(s, ROOT, names[32]).1.value;
    assert (ROOT, names[32], m) in Entries(s);
  }

  lemma OneStep(s: Fs, name: seq<byte>)
    requires IsSet(s.inoMap, ROOT) && IsDir(s.itab, ROOT) && DirSearch(s, ROOT, name).1.Ok?
    ensures var (s1, r) := DirSearch(s, ROOT, name); LookupFrom(s, ROOT, [name]) == (s1, Found(r.value))
  {
    hide DirSearch;
    var (s1, r) := DirSearch(s, ROOT, name);
    assert [name][1..] == [];
    assert LookupFrom(s1, r.value, []) == (s1, Found(r.value));
  }

  lemma RootWalk(s: Fs, name: seq<byte>, g: Owners)
    requires Inv(s, g) && IsDir(s.itab, ROOT) && SLASH !in name && name != [] && DirSearch(s, ROOT, name).1.Ok?
    ensures FsLookup(s, [SLASH] + name)
         == (DirSearch(s, ROOT, name).0, Found(DirSearch(s, ROOT, name).1.value))
  {
    hide Inv, DirSearch, Tokens;
    RootBits(s, g);
    OneName(name);
    OneStep(s, name);
  }

  /** The root is not cached, and the files are of type file. */
  lemma RootRecord(s: Fs, names: seq<seq<byte>>, g: Owners)
    requires Made33(s, names, 33, g)
    ensures Eff(s, ROOT) == s.itab[ROOT] && Count(Eff(s, ROOT)) == 33
    ensures TypeOf(s, 2) == FS_FILE && TypeOf(s, 34) == FS_FILE
  {
    UsedIffBelow(s, g, 2);
    UsedIffBelow(s, g, 34);
    hide Inv, Entries;
    NoSlot(s.icache, ROOT);
  }

  lemma NotedElsewhere(p: Block, p': Block, x: seq<byte>)
    requires |x| == ENTRY_SIZE && Noted(p, p', x) && FirstPlace(p, [], 1)
    ensures PageEntry(p', 0) == PageEntry(p, 0)
  {
    hide EntryName, PageEntry;
    assert NamedPlace(p, [], 1);
    var i: nat :| FirstPlace(p, [], i) && PutAt(p, p', x, i);
    assert i == 1;
  }

  lemma FirstLine(s: Fs, s': Fs, v: nat, names: seq<seq<byte>>, x: seq<byte>, g: Owners)
    requires |names| == 33 && Made33(s, names, 33, g) && OldPage(s, v, names[0]) && PagesOnly(s, s') && Inv(s', g)
    requires names[0] != [] && |x| == ENTRY_SIZE && FirstPlace(s.dcache[v].page, [], 1)
    requires PageSlotOf(s'.dcache, ROOT, s.itab[ROOT].blocks[0]) == v && Noted(s.dcache[v].page, s'.dcache[v].page, x)
    ensures var r := FsReaddir(s', ROOT, 2).1;
      r.Ok? && |r.value| == 2 && r.value[0] == Listed(names[0], FS_FILE)
  {
    hide Inv, FsReaddir, Entries, EntryName, EntryInode, PageEntry, Noted, TypeOf, Acquire, Eff, FirstPlace;
    RootRecord(s, names, g);
    SameInodes(s, s', ROOT, 2);
    NotedElsewhere(s.dcache[v].page, s'.dcache[v].page, x);
    ReaddirOk(s', ROOT, 2, g);
    CachedLine(s', ROOT, 0, 0, v, 2, g);
  }

  lemma LookupThenList(s: Fs, names: seq<seq<byte>>, v: nat, g: Owners)
    requires Names33(names) && Made33(s, names, 33, g) && OldPage(s, v, names[0]) && SLASH !in names[32]
    requires DirSearch(s, ROOT, names[32]).1.Ok? && Older(s) && ExactLru.Ticking(s.time)
    ensures var (s', l) := FsLookup(s, [SLASH] + names[32]);
      && l == Found(34)
      && FsReaddir(s', ROOT, 2).1 == Ok([Listed(names[0], FS_FILE), Listed(names[32], FS_FILE)])
  {
    hide Inv, DirSearch, FsReaddir, Entries, EntryName, EntryInode, PageEntry, Older, ExactLru.Ticking, NotOnFirst,
          FirstRead, Noted, GoodName, TypeOf, FsLookup, FirstPlace, Eff;
    GoodIsNonempty(names[0]);
    GoodIsNonempty(names[32]);
    OldPageHas(s, v, names[0], names[32]);
    var e := FoundBehind(s, v, names[0], names[32], g);
    var s' := DirSearch(s, ROOT, names[32]).0;
    FoundNumber(s, names, g);
    RootWalk(s, names[32], g);
    RootRecord(s, names, g);
    var x := HitNoted(s, ROOT, names[32], v, e, g);
    NextListingShows(s, ROOT, names[32], v, 1, e, 2, g);
    FirstLine(s, s', v, names, x, g);
    var lines := FsReaddir(s', ROOT, 2).1.value;
    assert lines == [lines[0], lines[1]];
  }

  // ------------------------------------------------------------------ the run

  lemma {:induction false} RunInTwo(s: Fs, a: seq<Call>, b: seq<Call>)
    ensures var ((s1, r1), all) := (Run(s, a), Run(s, a + b));
      all.0 == Run(s1, b).0 && all.1 == r1 + Run(s1, b).1
    decreases |a|
  {
    hide Step;
    if a == [] {
      assert a + b == b;
    } else {
      assert (a + b)[1..] == a[1..] + b;
      RunInTwo(Step(s, a[0]).0, a[1..], b);
    }
  }

  lemma AfterTwo(n: nat, time: nat -> int, names: seq<seq<byte>>) returns (v: nat, g: Owners)
    requires META_BLOCKS + 1 < n <= 8 * BLOCK_SIZE && Names33(names)
    ensures var s := FsCreate(FsCreate(Formatted(n, time), ROOT, names[0]).0, ROOT, names[1]).0;
      Made33(s, names, 2, g) && OldPage(s, v, names[0]) && s.time == time && s.NumBlocks() == n
  {
    hide Formatted, Inv, MakeNode, Entries, GoodName, DirSearch, Made33, PageSlotOfDir;
    var s := Formatted(n, time);
    NothingMade(n, time, names);
    var g1 := CreateNext(s, names, 0, START);
    CreateNextPages(s, names, 0, START);
    var s1 := FsCreate(s, ROOT, names[0]).0;
    EmptyRootSearch(n, time, names[0]);
    g := CreateNext(s1, names, 1, g1);
    CreateNextPages(s1, names, 1, g1);
    GoodIsNonempty(names[0]);
    v := OldPageAppears(s1, names, g1);
    OldPageOf(s1, FsCreate(s1, ROOT, names[1]).0, v, names[0], DirSearch(s1, ROOT, names[1]).0.dcache);
  }

  lemma NothingMade(n: nat, time: nat -> int, names: seq<seq<byte>>)
    requires META_BLOCKS < n <= 8 * BLOCK_SIZE
    ensures var s := Formatted(n, time); Made33(s, names, 0, START) && s.time == time && s.NumBlocks() == n
  {
    hide Formatted, Inv, Entries;
    FormattedOk(n, time);
    FormattedFresh(n, time);
    NoEntriesYet(n, time);
  }

  lemma EmptyRootSearch(n: nat, time: nat -> int, name: seq<byte>)
    requires META_BLOCKS < n <= 8 * BLOCK_SIZE
    ensures DirSearch(Formatted(n, time), ROOT, name).0.dcache == Formatted(n, time).dcache
    ensures PageSlotOfDir(Formatted(n, time).dcache, ROOT) == DIR_SLOTS
  {
    hide Formatted, DirSearch, PageSlotOfDir;
    FormattedFresh(n, time);
    SearchOfEmpty(Formatted(n, time), ROOT, name);
  }

  /**
   33 files are created in the root of a formatted disk, the last is looked up, and two entries are listed: the reply is
   the first and the last, since the lookup noted the last in the second place of the page it had seen first.
   */
  lemma LookupBringsLastNameForward(n: nat, time: nat -> int, names: seq<seq<byte>>)
    requires META_BLOCKS + 1 < n <= 8 * BLOCK_SIZE && ExactLru.Ticking(time) && Names33(names) && SLASH !in names[32]
    ensures var replies := Run(Formatted(n, time), CreatesOf(names) + [LookUp([SLASH] + names[32]), ListOf(ROOT, 2)]).1;
      && replies[33] == LookupReply(Found(34))
      && replies[34] == ListReply(Ok([Listed(names[0], FS_FILE), Listed(names[32], FS_FILE)]))
  {
    hide Formatted, Inv, MakeNode, Entries, GoodName, DirSearch, Made33, OldPage, FsLookup, FsReaddir, Run,
          ExactLru.Ticking, Older;
    var s := Formatted(n, time);
    var two := [CreateIn(ROOT, names[0]), CreateIn(ROOT, names[1])];
    var v, g2 := AfterTwo(n, time, names);
    var s2 := FsCreate(FsCreate(s, ROOT, names[0]).0, ROOT, names[1]).0;
    var g := OldPageStays(s2, names, 2, v, g2);
    assert CreatesOf(names) == two + CreatesOf(names[2..]);
    RunInTwo(s, two, CreatesOf(names[2..]));
    TwoSteps(s, two[0], two[1]);
    var s33 := Run(s, CreatesOf(names)).0;
    StampsAreOlder(n, time, CreatesOf(names));
    LookupThenList(s33, names, v, g);
    RunInTwo(s, CreatesOf(names), [LookUp([SLASH] + names[32]), ListOf(ROOT, 2)]);
    TwoSteps(s33, LookUp([SLASH] + names[32]), ListOf(ROOT, 2));
  }

  lemma TwoSteps(s: Fs, a: Call, b: Call)
    ensures var (s1, r) := Step(s, a);
      Run(s, [a, b]).0 == Step(s1, b).0 && Run(s, [a, b]).1 == [r, Step(s1, b).1]
  {
    hide Step;
    var s1 := Step(s, a).0;
    assert [a, b][1..] == [b] && [b][1..] == [];
    var q := Step(s1, b).1;
    assert Run(s1, [b]).1 == [q] + Run(Step(s1, b).0, []).1 && [q] + [] == [q];
    assert Run(s, [a, b]).1 == [Step(s, a).1] + Run(s1, [b]).1;
  }
}
