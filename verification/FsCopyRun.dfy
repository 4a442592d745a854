/** A copy of a file with something in it that succeeds: its data reaches the disk and the new file reads empty. */
module FsCopyRun {
  import opened Bytes
  import opened Bitmap
  import opened BlockStore
  import opened FsState
  import opened FsFiles
  import opened FsTree
  import opened FsInv
  import opened FsContent
  import opened FsWriting
  import opened FsCoherence
  import opened FsCalls
  import opened FsWriteCalls
  import opened FsDirs
  import opened FsSearch
  import opened FsNamespace
  import opened FsCopying
  import opened FsCopyLaw
  import opened FsStart
  import opened FsRuns
  import opened FsWalk
  import opened FsCreated
  import opened FsStale
  import opened FsPushedOut

  // ------------------------------------------------------------------ directories of one entry

  /** Directory dir has one entry, with this name and inode. */
  ghost predicate OneEntry(s: Fs, dir: InodeId, name: seq<byte>, m: nat) {
    s.itab[dir].size == ENTRY_SIZE && name != [] && IsEntry(s.store.disk, s.itab, dir, name, m)
  }

  /** Every cached page of the directory is its first block as it is on the disk. */
  ghost predicate PagesFresh(s: Fs, dir: InodeId) {
    var b := s.itab[dir].blocks[0];
    forall k :: 0 <= k < DIR_SLOTS && s.dcache[k].dir == dir ==>
      s.dcache[k].num == b < s.NumBlocks() && s.dcache[k].page == s.store.disk[b]
  }

  /** A search for the name of the only entry finds it, with or without a cached page, and caches nothing stale. */
  lemma OnlyEntryFound(s: Fs, dir: InodeId, name: seq<byte>, m: nat, g: Owners)
    requires Inv(s, g) && 1 <= dir < |g.par| && OneEntry(s, dir, name, m) && PagesFresh(s, dir)
    ensures var (s', r) := DirSearch(s, dir, name);
      && r == Ok(m) && PagesOnly(s, s') && Inv(s', g)
      && forall d: InodeId :: PagesFresh(s, d) ==> PagesFresh(s', d)
  {
    hide Inv, DirSearch, IsEntry, TouchPage, AddPage, PagesFresh, PageSlotOfDir;
    SearchOutcome(s, dir, name, m, g);
    EntryInDir(s, dir, name, m);
    DirSearchSound(s, dir, name, g);
    forall d: InodeId | PagesFresh(s, d) ensures PagesFresh(DirSearch(s, dir, name).0, d) {
      FreshKept(s, dir, PageSlotOfDir(s.dcache, dir), d);
    }
  }

  lemma FreshKept(s: Fs, dir: InodeId, k: nat, d: InodeId)
    requires PagesFresh(s, d) && s.itab[dir].blocks[0] < s.NumBlocks()
    ensures k < DIR_SLOTS ==> PagesFresh(TouchPage(s, k), d)
    ensures PagesFresh(AddPage(s, dir, s.itab[dir].blocks[0], s.store.disk[s.itab[dir].blocks[0]]), d)
  {
  }

  lemma SearchOutcome(s: Fs, dir: InodeId, name: seq<byte>, m: nat, g: Owners)
    requires Inv(s, g) && 1 <= dir < |g.par| && OneEntry(s, dir, name, m) && PagesFresh(s, dir)
    ensures var (s', r) := DirSearch(s, dir, name);
      var (k, b) := (PageSlotOfDir(s.dcache, dir), s.itab[dir].blocks[0]);
      && r == Ok(m) && b < s.NumBlocks()
      && s' == if k < DIR_SLOTS then TouchPage(s, k) else AddPage(s, dir, b, s.store.disk[b])
  {
    DirBlock(s, dir, 0, g);
    var b := s.itab[dir].blocks[0];
    var page := s.store.disk[b];
    hide Inv, PageEntry, EntryName, EntryInode, TouchPage, AddPage;
    assert DiskEntry(s.store.disk, s.itab[dir], 0) == PageEntry(page, 0);
    assert ScanPage(page, name, 0, PAGE_ENTRIES) == Some(0) && ScanPage(page, name, 0, 1) == Some(0);
    var k := PageSlotOfDir(s.dcache, dir);
    if k == DIR_SLOTS {
      assert PageSlotOf(s.dcache, dir, b) == DIR_SLOTS;
      assert FetchPage(s, dir, b).1 == Some(page);
    }
  }

  // ------------------------------------------------------------------ a file in a directory in the root

  /** The root names directory 2, which names file 3; no page of either is stale. */
  ghost predicate TwoLevels(s: Fs, d: seq<byte>, a: seq<byte>, g: Owners) {
    && Inv(s, g) && |g.par| == 4
    && OneEntry(s, ROOT, d, 2) && OneEntry(s, 2, a, 3) && PagesFresh(s, ROOT) && PagesFresh(s, 2)
  }

  lemma LevelsUsed(s: Fs, d: seq<byte>, a: seq<byte>, g: Owners)
    requires TwoLevels(s, d, a, g)
    ensures IsSet(s.inoMap, ROOT) && IsSet(s.inoMap, 2) && IsDir(s.itab, ROOT) && IsDir(s.itab, 2)
  {
    UsedIffBelow(s, g, ROOT);
    UsedIffBelow(s, g, 2);
  }

  lemma PagesKeepLevels(s: Fs, s1: Fs, d: seq<byte>, a: seq<byte>, g: Owners)
    requires TwoLevels(s, d, a, g) && PagesOnly(s, s1) && Inv(s1, g)
    requires forall dir: InodeId :: PagesFresh(s, dir) ==> PagesFresh(s1, dir)
    ensures TwoLevels(s1, d, a, g)
  {
    hide Inv, IsEntry, PagesFresh;
  }

  lemma OneLevelWalk(s: Fs, d: seq<byte>, a: seq<byte>, rest: seq<seq<byte>>, g: Owners)
    requires TwoLevels(s, d, a, g)
    ensures var s1 := DirSearch(s, ROOT, d).0;
      && PagesOnly(s, s1) && TwoLevels(s1, d, a, g) && LookupFrom(s, ROOT, [d] + rest) == LookupFrom(s1, 2, rest)
  {
    hide Inv, PagesFresh, DirSearch, IsEntry;
    LevelsUsed(s, d, a, g);
    OnlyEntryFound(s, ROOT, d, 2, g);
    PagesKeepLevels(s, DirSearch(s, ROOT, d).0, d, a, g);
    assert ([d] + rest)[1..] == rest;
  }

  lemma WalkToDir(s: Fs, d: seq<byte>, a: seq<byte>, g: Owners)
    requires TwoLevels(s, d, a, g) && SLASH !in d
    ensures var (s', l) := FsLookup(s, PathOf([d])); l == Found(2) && PagesOnly(s, s') && TwoLevels(s', d, a, g)
  {
    hide LookupFrom, DirSearch, TwoLevels, Tokens;
    NamesNotEmpty(s, d, a, g);
    PathRoundTrip([d]);
    OneLevelWalk(s, d, a, [], g);
    assert [d] + [] == [d];
    WalkEnds(DirSearch(s, ROOT, d).0, 2);
  }

  lemma WalkToFile(s: Fs, d: seq<byte>, a: seq<byte>, g: Owners)
    requires TwoLevels(s, d, a, g) && SLASH !in d && SLASH !in a
    ensures var (s', l) := FsLookup(s, PathOf([d, a])); l == Found(3) && PagesOnly(s, s') && TwoLevels(s', d, a, g)
  {
    hide LookupFrom, DirSearch, Tokens, Inv, PagesFresh, IsEntry;
    NamesNotEmpty(s, d, a, g);
    PathRoundTrip([d, a]);
    OneLevelWalk(s, d, a, [a], g);
    assert [d] + [a] == [d, a];
    var s1 := DirSearch(s, ROOT, d).0;
    OnlyEntryFound(s1, 2, a, 3, g);
    PagesKeepLevels(s1, DirSearch(s1, 2, a).0, d, a, g);
    LevelsUsed(s1, d, a, g);
    SecondStep(s1, a);
  }

  lemma WalkEnds(s: Fs, dir: nat)
    ensures LookupFrom(s, dir, []) == (s, Found(dir))
  {
  }

  lemma SecondStep(s: Fs, a: seq<byte>)
    requires IsSet(s.inoMap, 2) && IsDir(s.itab, 2) && DirSearch(s, 2, a).1 == Ok(3)
    ensures LookupFrom(s, 2, [a]) == (DirSearch(s, 2, a).0, Found(3))
  {
    hide DirSearch;
    assert [a][1..] == [];
    WalkEnds(DirSearch(s, 2, a).0, 3);
  }

  lemma NamesNotEmpty(s: Fs, d: seq<byte>, a: seq<byte>, g: Owners)
    requires TwoLevels(s, d, a, g)
    ensures d != [] && a != []
  {
  }

  // ------------------------------------------------------------------ the target

  lemma {:induction false} LastSlashAt(path: seq<byte>, name: seq<byte>)
    requires SLASH !in name
    ensures LastSlash(path + [SLASH] + name) == Some(|path|)
  {
    var all := path + [SLASH] + name;
    var p := LastSlash(all);
    assert all[|path|] == SLASH;
    assert forall i :: |path| < i < |all| ==> all[i] == name[i - |path| - 1];
  }

  lemma TargetParts(d: seq<byte>, x: seq<byte>)
    requires SLASH !in x && |d| + 1 < NAME_SIZE && |x| < NAME_SIZE
    ensures var tgt := PathOf([d, x]);
      LastSlash(tgt) == Some(|d| + 1) && TargetFits(tgt) && DirPart(tgt) == PathOf([d]) && FileName(tgt) == x
      && tgt[..|d| + 1] == PathOf([d])
  {
    var tgt := PathOf([d, x]);
    assert PathOf([x]) == [SLASH] + x;
    assert PathOf([d]) == [SLASH] + d;
    assert tgt == PathOf([d]) + [SLASH] + x;
    LastSlashAt(PathOf([d]), x);
  }

  lemma OnlyName(s: Fs, dir: InodeId, name: seq<byte>, m: nat, other: seq<byte>)
    requires OneEntry(s, dir, name, m) && other != name
    ensures forall k: nat :: (dir, other, k) !in Entries(s)
  {
    hide DiskEntry, EntryName, EntryInode;
    assert Count(s.itab[dir]) == 1;
    forall k: nat ensures !IsEntry(s.store.disk, s.itab, dir, other, k) {}
  }

  /** The target in the same directory as the source. */
  lemma TargetMade(s: Fs, d: seq<byte>, a: seq<byte>, x: seq<byte>, g: Owners) returns (g': Owners)
    requires TwoLevels(s, d, a, g) && SLASH !in d && GoodName(x) && x != a
    ensures var (s', made) := MakeTarget(s, PathOf([d]), x);
      && made == Ok(4) && Inv(s', g') && |g'.own| == |g.own| && s'.icache == s.icache
      && s'.NumBlocks() == s.NumBlocks() && s'.time == s.time
  {
    hide Inv, MakeNode, FsLookup, PagesFresh, IsEntry, Entries, GoodName, CoherentAt, Files;
    WalkToDir(s, d, a, g);
    var s1 := FsLookup(s, PathOf([d])).0;
    LevelsUsed(s1, d, a, g);
    OnlyName(s1, 2, a, 3, x);
    g' := MakeAnother(s1, 2, x, FS_FILE, g);
  }

  // ------------------------------------------------------------------ the copy

  /** File 3 is cached in slot 0 alone, and no other slot was ever used. */
  ghost predicate OnlyCached(s: Fs) {
    s.icache[0].num == 3 && forall k :: 1 <= k < INODE_SLOTS ==> s.icache[k].num == s.icache[k].last == 0
  }

  lemma OnlyCachedSlot(s: Fs)
    requires OnlyCached(s)
    ensures InodeSlotOf(s.icache, 3) == 0
  {
  }

  lemma OnlyCachedStays(s: Fs)
    requires OnlyCached(s) && s.Now() > 0
    ensures SourceStays(s, 3)
  {
    OnlyCachedSlot(s);
    var s1 := Hold(s, 3, false).0;
    VictimIs(s1, 1);
  }

  lemma AttrsKeepLevels(s: Fs, d: seq<byte>, a: seq<byte>, g: Owners)
    requires TwoLevels(s, d, a, g) && IsFile(s, 3) && OnlyCached(s)
    ensures var (s', r) := FsGetAttrs(s, 3);
      && TwoLevels(s', d, a, g) && OnlyCached(s') && IsFile(s', 3) && s'.time == s.time
      && r.Ok? && r.value.itype == FS_FILE && Eff(s', 3) == Eff(s, 3) && s'.store == s.store
  {
    hide Inv, IsEntry, IsSet;
    OnlyCachedSlot(s);
    AttrsOfCached(s, 3, g);
  }

  /** The state in which the copy starts on the data. */
  lemma ReachesTarget(s: Fs, d: seq<byte>, a: seq<byte>, x: seq<byte>, g: Owners) returns (s3: Fs, g3: Owners)
    requires TwoLevels(s, d, a, g) && IsFile(s, 3) && OnlyCached(s)
    requires SLASH !in d && SLASH !in a && SLASH !in x && GoodName(x) && x != a && |d| + 1 < NAME_SIZE
    ensures Progress(s, PathOf([d, a]), PathOf([d, x])) == Target(s3, 3, 4)
    ensures !CopyFaults(s, PathOf([d, a]), PathOf([d, x]))
    ensures Inv(s3, g3) && |g3.own| == |g.own| && OnlyCached(s3) && s3.time == s.time && s3.NumBlocks() == s.NumBlocks()
    ensures Eff(s3, 3) == Eff(s, 3)
  {
    hide TwoLevels, FsLookup, FsGetAttrs, MakeTarget, PathOf, LastSlash, Inv, IsSet, OnlySlashes;
    WalkToFile(s, d, a, g);
    var s1 := FsLookup(s, PathOf([d, a])).0;
    AttrsKeepLevels(s1, d, a, g);
    var s2 := FsGetAttrs(s1, 3).0;
    TargetParts(d, x);
    g3 := TargetMade(s2, d, a, x, g);
    s3 := MakeTarget(s2, PathOf([d]), x).0;
    WalkToDir(s, d, a, g);
    RootOnlyIff(s, PathOf([d]));
    RootOnlyIff(s, PathOf([d, a]));
  }

  lemma CopyGoesThrough(s: Fs, d: seq<byte>, a: seq<byte>, x: seq<byte>, buffer: seq<byte>, g: Owners)
    requires TwoLevels(s, d, a, g) && OnlyCached(s) && CoherentAt(s, 3) && ContentOf(s, 3) == Some(buffer)
    requires SLASH !in d && SLASH !in a && SLASH !in x && GoodName(x) && x != a && |d| + 1 < NAME_SIZE
    requires IsCString(d) && |g.own| + BlocksFor(|buffer|) <= s.NumBlocks() && forall i: nat :: s.time(i) > 0
    ensures var (s', r) := FsCopy(s, PathOf([d, a]), PathOf([d, x]));
      && r == Ok(()) && ContentOf(s', 3) == Some(buffer) && ContentOf(s', 4) == Some([])
      && Content(s'.store, s'.itab[4]) == buffer
  {
    hide FsCopy, PathOf, Inv, IsFile, Content, Eff, CoherentAt, CopyFaults, Progress, OneEntry, PagesFresh, EntryMade,
          SameEntries, CopiesKept, SourceStays;
    var (src, tgt) := (PathOf([d, a]), PathOf([d, x]));
    var s3, g3 := ReachesTarget(s, d, a, x, g);
    TargetString(d, x);
    var g' := CopyOk(s, src, tgt, g);
    var g2 := CopyShows(s, src, tgt, g);
    OneOwnSize(s3, g2, g3);
    assert |Content(s.store, Eff(s, 3))| == Eff(s, 3).size;
    CopyReadsBackIff(s, src, tgt, g);
    OnlyCachedStays(s3);
    assert FileSame(s, FsCopy(s, src, tgt).0, 3);
  }

  lemma TargetString(d: seq<byte>, x: seq<byte>)
    requires IsCString(d) && IsCString(x)
    ensures IsCString(PathOf([d, x]))
  {
    assert PathOf([d, x]) == [SLASH] + d + ([SLASH] + x) by { assert PathOf([x]) == [SLASH] + x; }
  }

  // ------------------------------------------------------------------ the run

  /** A creation in a directory without entries leaves the page cache alone. */
  lemma FirstEntryMade(s: Fs, dir: InodeId, name: seq<byte>, itype: nat)
    requires PageSlotOfDir(s.dcache, dir) == DIR_SLOTS && s.itab[dir].size == 0
    requires MakeNode(s, dir, name, itype).1.Ok?
    ensures MakeNode(s, dir, name, itype).0.dcache == s.dcache
  {
    hide MakeNode;
    MakeLeaves(s, dir, name, itype);
    SearchOfEmpty(s, dir, name);
  }

  lemma EntryOf(s: Fs, dir: InodeId, name: seq<byte>, m: nat)
    requires s.itab[dir].size == ENTRY_SIZE && name != [] && (dir, name, m) in Entries(s)
    ensures OneEntry(s, dir, name, m)
  {
    hide IsEntry;
  }

  ghost predicate Untouched(s: Fs) {
    && (forall k :: 0 <= k < INODE_SLOTS ==> s.icache[k] == InodeSlot(0, NewInode(0), false, 0))
    && (forall k :: 0 <= k < DIR_SLOTS ==> s.dcache[k].dir == 0)
  }

  lemma MakeLevels(n: nat, time: nat -> int, d: seq<byte>, a: seq<byte>) returns (g: Owners)
    requires META_BLOCKS + 1 < n <= 8 * BLOCK_SIZE && GoodName(d) && GoodName(a)
    ensures var (s1, r1) := FsMkdir(Formatted(n, time), ROOT, d);
      var (s2, r2) := FsCreate(s1, 2, a);
      && r1 == Ok(2) && r2 == Ok(3) && TwoLevels(s2, d, a, g) && |g.own| == META_BLOCKS + 2 && Untouched(s2)
      && s2.time == time && s2.NumBlocks() == n && CoherentAt(s2, 3) && Files(s2) == map[3 := []]
  {
    hide Formatted, Inv, MakeNode, Files, Entries, CoherentAt, GoodName, PageSlotOfDir;
    var s := Formatted(n, time);
    FormattedOk(n, time);
    FormattedFresh(n, time);
    FormattedStore(n, time);
    NoEntriesYet(n, time);
    GoodIsNonempty(d);
    GoodIsNonempty(a);
    NoPageOf(s, 2);
    var g1 := MakeAnother(s, ROOT, d, FS_DIR, START);
    FirstEntryMade(s, ROOT, d, FS_DIR);
    var s1 := FsMkdir(s, ROOT, d).0;
    g := MakeAnother(s1, 2, a, FS_FILE, g1);
    FirstEntryMade(s1, 2, a, FS_FILE);
    var s2 := FsCreate(s1, 2, a).0;
    EntryOf(s2, ROOT, d, 2);
    EntryOf(s2, 2, a, 3);
  }

  lemma NoPageOf(s: Fs, dir: nat)
    requires dir != 0 && forall k :: 0 <= k < DIR_SLOTS ==> s.dcache[k].dir == 0
    ensures PageSlotOfDir(s.dcache, dir) == DIR_SLOTS
  {
  }

  lemma AttrsOfUntouched(s: Fs, d: seq<byte>, a: seq<byte>, g: Owners)
    requires TwoLevels(s, d, a, g) && Untouched(s) && s.Now() > 0
    ensures var s' := FsGetAttrs(s, 3).0;
      && OnlyCached(s') && s'.dcache == s.dcache && s'.time == s.time && s'.NumBlocks() == s.NumBlocks()
      && s'.itab == s.itab && s'.store == s.store
  {
    hide Inv, IsEntry, PagesFresh;
    StillUsed(s, 3, g);
    NoSlot(s.icache, 3);
    VictimIs(s, 0);
    BringsIn(s, 3, 0);
  }

  /** A write through the one cached copy leaves the rest of the inode cache alone. */
  lemma WriteKeepsOneCached(s: Fs, buffer: seq<byte>, g: Owners)
    requires Inv(s, g) && OnlyCached(s) && IsFile(s, 3) && FsWrite(s, 3, 0, buffer).1.Ok?
    requires HasRoom(Eff(s, 3).size, 0, |buffer|, |g.own|, s.NumBlocks())
    ensures OnlyCached(FsWrite(s, 3, 0, buffer).0)
  {
    hide Inv, Content, FsWrite, HasRoom, WriteThrough, IsFile, Quiet, Eff;
    OnlyCachedSlot(s);
    AcquireQuiet(s, 3, g);
    AcquireFinds(s, 3, g);
    var (s1, ref) := Acquire(s, 3);
    AcquiredFile(s, s1, ref.value, 3, g);
    FileFacts(s, 3, g);
    WriteTables(s1, 3, ref.value, 0, buffer, g);
    assert FsWrite(s, 3, 0, buffer) == WriteThrough(s1, 3, ref.value, 0, buffer) by { WriteStarts(s, 3, buffer); }
  }

  lemma WrittenLevels(s: Fs, d: seq<byte>, a: seq<byte>, buffer: seq<byte>, g: Owners) returns (g': Owners)
    requires Inv(s, g) && |g.par| == 4 && OneEntry(s, ROOT, d, 2) && OneEntry(s, 2, a, 3)
    requires forall k :: 0 <= k < DIR_SLOTS ==> s.dcache[k].dir == 0
    requires OnlyCached(s) && CoherentAt(s, 3) && ContentOf(s, 3) == Some([])
    requires HasRoom(0, 0, |buffer|, |g.own|, s.NumBlocks())
    ensures var (s', r) := FsWrite(s, 3, 0, buffer);
      && r == Ok(()) && TwoLevels(s', d, a, g') && OnlyCached(s') && CoherentAt(s', 3)
      && ContentOf(s', 3) == Some(buffer) && |g'.own| == |g.own| + BlocksFor(|buffer|)
      && s'.time == s.time && s'.NumBlocks() == s.NumBlocks()
  {
    hide Inv, Content, FsWrite, HasRoom, Eff, IsFile, CoherentAt, MetaKept, FileSame, CopiesKept, SeenAfterWrite,
          IsEntry, Splice;
    EmptyFileSize(s, 3);
    OnlyCachedSlot(s);
    g' := WriteOk(s, 3, 0, buffer, g);
    FirstSpliceIsBuffer(buffer);
    WriteKeepsOneCached(s, buffer, g);
    var s' := FsWrite(s, 3, 0, buffer).0;
    assert IsEntry(s'.store.disk, s'.itab, ROOT, d, 2) && IsEntry(s'.store.disk, s'.itab, 2, a, 3);
    assert s'.itab[ROOT] == s.itab[ROOT] && s'.itab[2] == s.itab[2] by {
      EntryInDir(s, ROOT, d, 2);
      EntryInDir(s, 2, a, 3);
    }
  }

  /**
   A directory in the root and a file in it are made, the file is looked at and written, and then copied within the
   directory. The copy succeeds and its data is in the new file's row of the inode table. Yet the new file reads empty;
   the source is as it was.
   */
  lemma CopyIsOnDiskAndReadsEmpty(n: nat, time: nat -> int, d: seq<byte>, a: seq<byte>, x: seq<byte>,
        buffer: seq<byte>)
    requires META_BLOCKS + 2 + 2 * BlocksFor(|buffer|) <= n <= 8 * BLOCK_SIZE && |buffer| <= MAX_FILE
    requires GoodName(d) && |d| + 1 < NAME_SIZE && GoodName(a) && GoodName(x) && x != a
    requires SLASH !in d && SLASH !in a && SLASH !in x && forall i: nat :: time(i) > 0
    ensures var (s, replies) := Run(Formatted(n, time), [MkdirIn(ROOT, d), CreateIn(2, a), AttrsOf(3),
          WriteAt(3, 0, buffer), CopyTo(PathOf([d, a]), PathOf([d, x]))]);
      && replies[4] == DoneReply(Ok(())) && ContentOf(s, 3) == Some(buffer) && ContentOf(s, 4) == Some([])
      && Content(s.store, s.itab[4]) == buffer
  {
    hide Formatted, Inv, FsWrite, FsGetAttrs, MakeNode, FsCopy, HasRoom, Files, GoodName, TwoLevels, OnlyCached,
          ContentOf, Content, CoherentAt, Run, PathOf;
    var g := MakeLevels(n, time, d, a);
    var s2 := FsCreate(FsMkdir(Formatted(n, time), ROOT, d).0, 2, a).0;
    AttrsOfUntouched(s2, d, a, g);
    var s3 := FsGetAttrs(s2, 3).0;
    FreshFileSeen(s2, s3, d, a, g);
    BlocksForWrite(|buffer|, n);
    var g4 := WrittenLevels(s3, d, a, buffer, g);
    var s4 := FsWrite(s3, 3, 0, buffer).0;
    GoodIsNonempty(d);
    CopyGoesThrough(s4, d, a, x, buffer, g4);
    FiveSteps(Formatted(n, time), [MkdirIn(ROOT, d), CreateIn(2, a), AttrsOf(3), WriteAt(3, 0, buffer),
          CopyTo(PathOf([d, a]), PathOf([d, x]))]);
  }

  /** Looking at the file just created brings its one copy in. */
  lemma FreshFileSeen(s: Fs, s3: Fs, d: seq<byte>, a: seq<byte>, g: Owners)
    requires TwoLevels(s, d, a, g) && CoherentAt(s, 3) && Files(s) == map[3 := []] && s3 == FsGetAttrs(s, 3).0
    requires s3.itab == s.itab && s3.store == s.store
    ensures Inv(s3, g) && CoherentAt(s3, 3) && ContentOf(s3, 3) == Some([])
    ensures |g.par| == 4 && OneEntry(s3, ROOT, d, 2) && OneEntry(s3, 2, a, 3)
  {
    hide Inv, CoherentAt, IsFile, Content, Eff, Files, IsEntry, FsGetAttrs, SeenAs, PagesFresh;
    FileIn(s, 3);
    GetAttrsOk(s, 3, g);
    QuietInv(s, s3, g);
    QuietFiles(s, s3, g);
    assert FileSame(s, s3, 3);
  }

  lemma BlocksForWrite(count: nat, n: nat)
    requires count <= MAX_FILE && META_BLOCKS + 2 + 2 * BlocksFor(count) <= n
    ensures HasRoom(0, 0, count, META_BLOCKS + 2, n)
  {
  }

  lemma FiveSteps(s: Fs, c: seq<Call>)
    requires |c| == 5
    ensures var s4 := Step(Step(Step(Step(s, c[0]).0, c[1]).0, c[2]).0, c[3]).0;
      Run(s, c).0 == Step(s4, c[4]).0 && Run(s, c).1[4] == Step(s4, c[4]).1
  {
    hide Step;
    var s1 := Step(s, c[0]).0;
    var s2 := Step(s1, c[1]).0;
    var s3 := Step(s2, c[2]).0;
    var s4 := Step(s3, c[3]).0;
    var (c1, c2, c3, c4) := (c[1..], c[2..], c[3..], c[4..]);
    assert c1[1..] == c2 && c2[1..] == c3 && c3[1..] == c4;
    assert Run(s4, c4) == (Step(s4, c[4]).0, [Step(s4, c[4]).1] + []);
    assert Run(s3, c3).0 == Run(s4, c4).0 && Run(s3, c3).1[1] == Run(s4, c4).1[0];
    assert Run(s2, c2).0 == Run(s3, c3).0 && Run(s2, c2).1[2] == Run(s3, c3).1[1];
    assert Run(s1, c1).0 == Run(s2, c2).0 && Run(s1, c1).1[3] == Run(s2, c2).1[2];
    assert Run(s, c).0 == Run(s1, c1).0 && Run(s, c).1[4] == Run(s1, c1).1[3];
  }
}
