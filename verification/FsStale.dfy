/**
 What the never-refreshed caches hide, as runs of a few calls on a formatted disk: a first write to a file nobody has
 looked at, and a second name created in a directory.
 */
module FsStale {
  import opened Bytes
  import opened Bitmap
  import opened Slots
  import opened BlockStore
  import opened FsState
  import opened FsFiles
  import opened FsTree
  import opened FsInv
  import opened FsContent
  import opened FsWriting
  import opened FsCoherence
  import opened FsCalls
  import opened FsWriteCalls
  import opened FsMeta
  import opened FsDirs
  import opened FsSearch
  import opened FsMake
  import opened FsNamespace
  import opened FsStart
  import opened FsRuns
  import opened FsWalk
  import opened FsCreated

  // ------------------------------------------------------------------ created, written, read

  lemma FirstSpliceIsBuffer(buffer: seq<byte>)
    ensures Splice([], 0, buffer) == buffer && Splice([], 0, buffer)[..0] == []
  {
  }

  /** A first write that grows a file nobody has cached. */
  lemma FirstWrite(s: Fs, file: InodeId, buffer: seq<byte>, g: Owners)
    requires Inv(s, g) && IsFile(s, file) && !Resident(s, file) && buffer != []
    requires Content(s.store, Eff(s, file)) == []
    requires HasRoom(0, 0, |buffer|, |g.own|, s.NumBlocks())
    ensures var (s', r) := FsWrite(s, file, 0, buffer);
      && r == Ok(()) && Resident(s', file)
      && (Content(s'.store, Eff(s', file)) == buffer <==> SecondVictim(s, file) <= FirstVictim(s))
      && (FirstVictim(s) < SecondVictim(s, file) ==> Content(s'.store, Eff(s', file)) == [])
  {
    hide Inv, CoherentAt, Content, FsWrite, HasRoom, Resident, FirstVictim, SecondVictim;
    assert Eff(s, file).size == |Content(s.store, Eff(s, file))|;
    var g' := WriteOk(s, file, 0, buffer, g);
    GrownWrite(s, file, 0, buffer, g);
    FirstSpliceIsBuffer(buffer);
  }

  /** With all slots as old as each other, an insertion with a positive time moves the next one on to slot 1. */
  lemma VictimsOfFreshCache(s: Fs, file: InodeId)
    requires !Resident(s, file) && IsSet(s.inoMap, file) && s.Now() > 0
    requires forall k :: 0 <= k < INODE_SLOTS ==> s.icache[k].last == 0
    ensures FirstVictim(s) == 0 && SecondVictim(s, file) == 1
  {
    var s1 := Acquire(s, file).0;
    assert Oldest(InodeTimes(s.icache), FirstVictim(s), 4);
    assert Oldest(InodeTimes(s1.icache), SecondVictim(s, file), 4);
  }

  /** The inode cache is still zeroed and no page of the root is cached. */
  ghost predicate Fresh(s: Fs) {
    && (forall k :: 0 <= k < INODE_SLOTS ==> s.icache[k] == InodeSlot(0, NewInode(0), false, 0))
    && PageSlotOfDir(s.dcache, ROOT) == DIR_SLOTS
  }

  lemma FormattedFresh(n: nat, time: nat -> int)
    requires META_BLOCKS < n <= 8 * BLOCK_SIZE
    ensures var s := Formatted(n, time);
      Fresh(s) && s.NumBlocks() == n && s.time == time && s.itab[ROOT] == NewInode(FS_DIR)
  {
    hide Formatted;
    FormattedRows(n, time);
    FormattedStore(n, time);
  }

  /** fs_create in a root that is still empty. */
  lemma CreateInEmptyRoot(s: Fs, name: seq<byte>, g: Owners) returns (g': Owners)
    requires Inv(s, g) && Coherent(s) && Fresh(s) && GoodName(name) && Files(s) == map[]
    requires |g.own| == META_BLOCKS && |g.par| == 2 && s.itab[ROOT] == NewInode(FS_DIR)
    ensures var (s', r) := FsCreate(s, ROOT, name);
      && r == Ok(2) && Inv(s', g') && |g'.own| == META_BLOCKS + 1 && |g'.par| == 3 && Coherent(s')
      && s'.NumBlocks() == s.NumBlocks() && s'.time == s.time && Fresh(s') && Files(s') == map[2 := []]
      && NewRecord(s', 2, FS_FILE) && IsEntry(s'.store.disk, s'.itab, ROOT, name, 2) && s'.itab[ROOT].size == ENTRY_SIZE
  {
    hide Inv, CoherentAt, Files, IsEntry, Quiet, LoadTable, MakeNode, PageSlotOfDir;
    SearchOfEmpty(s, ROOT, name);
    g' := MakeNodeOk(s, ROOT, name, FS_FILE, g);
    MakeLeaves(s, ROOT, name, FS_FILE);
    InvLimits(s, g);
  }

  /** fs_create in the root of a formatted disk succeeds with inode 2 for every good name. */
  lemma FirstCreate(n: nat, time: nat -> int, name: seq<byte>) returns (g: Owners)
    requires META_BLOCKS < n <= 8 * BLOCK_SIZE && GoodName(name)
    ensures var (s, r) := FsCreate(Formatted(n, time), ROOT, name);
      && r == Ok(2) && Inv(s, g) && |g.own| == META_BLOCKS + 1 && |g.par| == 3 && Coherent(s)
      && s.NumBlocks() == n && s.time == time && Fresh(s) && Files(s) == map[2 := []]
      && NewRecord(s, 2, FS_FILE) && IsEntry(s.store.disk, s.itab, ROOT, name, 2) && s.itab[ROOT].size == ENTRY_SIZE
  {
    hide Formatted, Inv, CoherentAt, Files, IsEntry, MakeNode, Fresh, NewRecord, GoodName;
    FormattedOk(n, time);
    FormattedFresh(n, time);
    g := CreateInEmptyRoot(Formatted(n, time), name, START);
  }

  lemma RootBits(s: Fs, g: Owners)
    requires Inv(s, g)
    ensures IsSet(s.inoMap, ROOT)
  {
    UsedIffBelow(s, g, ROOT);
  }

  lemma NewIsNotCached(s: Fs, n: nat)
    requires NewRecord(s, n, FS_FILE)
    ensures !Resident(s, n)
  {
    NoSlot(s.icache, n);
  }

  /** The attributes of a cached file leave its record as it is. */
  lemma AttrsOfCached(s: Fs, file: InodeId, g: Owners)
    requires Inv(s, g) && IsFile(s, file) && Resident(s, file)
    ensures var (s', r) := FsGetAttrs(s, file);
      && r == Ok(Attrs(file, FS_FILE, Eff(s, file).size, -1))
      && Eff(s', file) == Eff(s, file) && s'.store == s.store && IsFile(s', file) && Inv(s', g)
  {
    FileFacts(s, file, g);
    hide Inv;
    var k := InodeSlotOf(s.icache, file);
    TouchInodeKeepsInv(s, k, g);
    assert InodeNums(TouchInode(s, k).icache) == InodeNums(s.icache);
  }

  /** The write, the attributes and the read that follow a create, with the inode cache still zeroed. */
  lemma WrittenUnseen(s: Fs, buffer: seq<byte>, offset: nat, count: nat, g: Owners)
    requires Inv(s, g) && Coherent(s) && NewRecord(s, 2, FS_FILE) && 2 in Files(s) && Files(s)[2] == [] && s.Now() > 0
    requires Fresh(s)
    requires buffer != [] && HasRoom(0, 0, |buffer|, |g.own|, s.NumBlocks())
    ensures var (s2, r) := FsWrite(s, 2, 0, buffer);
      var (s3, a) := FsGetAttrs(s2, 2);
      r == Ok(()) && a == Ok(Attrs(2, FS_FILE, 0, -1)) && FsRead(s3, 2, offset, count).1 == Ok([])
  {
    hide Inv, CoherentAt, Content, FsWrite, FsRead, FsGetAttrs, HasRoom, FirstVictim, SecondVictim, Eff, Files, IsFile,
          Resident;
    var s2 := FsWrite(s, 2, 0, buffer).0;
    FileIn(s, 2);
    UsedFile(s, 2);
    NewIsNotCached(s, 2);
    FirstWrite(s, 2, buffer, g);
    VictimsOfFreshCache(s, 2);
    var g2 := WriteOk(s, 2, 0, buffer, g);
    StillFile(s, s2, 2, g2);
    assert Eff(s2, 2).size == |Content(s2.store, Eff(s2, 2))|;
    AttrsOfCached(s2, 2, g2);
    ReadOk(FsGetAttrs(s2, 2).0, 2, offset, count, g2);
  }

  /**
   The calls behind the repository's own test: create, write, the attributes the server asks for after a write, read.
   Every write of a first file succeeds, the size reported is 0 and every read returns nothing, under any clock with
   positive times.
   */
  lemma CreateWriteReadIsEmpty(n: nat, time: nat -> int, name: seq<byte>, buffer: seq<byte>, offset: nat, count: nat)
    requires META_BLOCKS < n <= 8 * BLOCK_SIZE && forall i: nat :: time(i) > 0
    requires GoodName(name) && buffer != [] && HasRoom(0, 0, |buffer|, META_BLOCKS + 1, n)
    ensures Run(Formatted(n, time), [CreateIn(ROOT, name), WriteAt(2, 0, buffer), AttrsOf(2), ReadAt(2, offset,
          count)]).1
         == [MadeReply(Ok(2)), DoneReply(Ok(())), AttrsReply(Ok(Attrs(2, FS_FILE, 0, -1))), ReadReply(Ok([]))]
  {
    hide Formatted, Inv, CoherentAt, IsEntry, FsWrite, FsRead, FsGetAttrs, MakeNode, HasRoom, Files, Run, Fresh,
          NewRecord, GoodName;
    var g := FirstCreate(n, time, name);
    WrittenUnseen(FsCreate(Formatted(n, time), ROOT, name).0, buffer, offset, count, g);
    FourCalls(Formatted(n, time), CreateIn(ROOT, name), WriteAt(2, 0, buffer), AttrsOf(2), ReadAt(2, offset, count));
  }

  lemma FourCalls(s: Fs, a: Call, b: Call, c: Call, d: Call)
    ensures var (s1, r1) := Step(s, a);
      var (s2, r2) := Step(s1, b);
      var (s3, r3) := Step(s2, c);
      Run(s, [a, b, c, d]).1 == [r1, r2, r3, Step(s3, d).1]
  {
    hide Step;
    var s1 := Step(s, a).0;
    ThreeCalls(s1, b, c, d);
    assert [a, b, c, d][1..] == [b, c, d];
    assert Run(s, [a, b, c, d]).1 == [Step(s, a).1] + Run(s1, [b, c, d]).1;
  }

  lemma FileIn(s: Fs, n: nat)
    requires n in Files(s)
    ensures n < INODES && IsFile(s, n) && Files(s)[n] == Content(s.store, Eff(s, n))
  {
  }

  lemma UsedFile(s: Fs, n: nat)
    requires IsFile(s, n)
    ensures n < INODES && IsSet(s.inoMap, n)
  {
  }

  lemma StillFile(s: Fs, s': Fs, n: nat, g': Owners)
    requires IsFile(s, n) && SameElsewhere(s, s')
    ensures IsFile(s', n)
  {
  }

  lemma ThreeCalls(s: Fs, a: Call, b: Call, c: Call)
    ensures var (s1, r1) := Step(s, a);
      var (s2, r2) := Step(s1, b);
      Run(s, [a, b, c]).1 == [r1, r2, Step(s2, c).1]
  {
    hide Step;
    var (s1, r1) := Step(s, a);
    var (s2, r2) := Step(s1, b);
    assert [a, b, c][1..] == [b, c] && [b, c][1..] == [c];
    assert Run(s2, [c]).1 == [Step(s2, c).1] + Run(Step(s2, c).0, []).1;
    assert Run(s1, [b, c]).1 == [r2] + Run(s2, [c]).1;
    assert Run(s, [a, b, c]).1 == [r1] + Run(s1, [b, c]).1;
  }

  // ------------------------------------------------------------------ created, overfilled, written

  /** A write to an empty file that fails for want of blocks takes all there are. */
  lemma Overfilled(s: Fs, big: seq<byte>, g: Owners) returns (g': Owners)
    requires Inv(s, g) && ContentOf(s, 2) == Some([])
    requires BlocksFor(|big|) <= INODE_BLOCKS && |g.own| + BlocksFor(|big|) > s.NumBlocks()
    ensures var (s', r) := FsWrite(s, 2, 0, big);
      r == Err && Inv(s', g') && |g'.own| == s.NumBlocks() == s'.NumBlocks() && ContentOf(s', 2) == Some([])
  {
    hide Inv, Content, FsWrite, Eff, MetaKept, SameEntries, FileSame, CopiesKept, AfterAcquire, SeenAfterWrite, IsFile,
          ContentOf, Splice, CoherentAt, SameDirRows;
    EmptyFileSize(s, 2);
    InvLimits(s, g);
    g' := WriteOk(s, 2, 0, big, g);
    OwnLookupSeen(s, 2, big);
  }

  /** On a full disk no write to an empty file succeeds. */
  lemma WriteOnFullDisk(s: Fs, buffer: seq<byte>, g: Owners)
    requires Inv(s, g) && ContentOf(s, 2) == Some([]) && buffer != [] && |g.own| == s.NumBlocks()
    ensures FsWrite(s, 2, 0, buffer).1 == Err
  {
    hide Inv, Content, FsWrite, Eff, MetaKept, SameEntries, FileSame, CopiesKept, AfterAcquire, SeenAfterWrite, IsFile,
          ContentOf, Splice, CoherentAt, SameElsewhere;
    EmptyFileSize(s, 2);
    var g' := WriteOk(s, 2, 0, buffer, g);
  }

  lemma EmptyFileSize(s: Fs, n: nat)
    requires ContentOf(s, n) == Some([])
    ensures n < INODES && IsFile(s, n) && Eff(s, n).size == 0
  {
    assert |Content(s.store, Eff(s, n))| == Eff(s, n).size;
  }

  /** A failed write leaves its own file as it was. */
  lemma OwnLookupSeen(s: Fs, n: nat, buffer: seq<byte>)
    ensures SeenAfterWrite(s, n, 0, |buffer|, false, n) == ContentOf(s, n)
  {
    hide Content, Eff;
  }

  /**
   A file created on a formatted disk, then a write that finds too few free blocks, then one that would have had room:
   both fail, but the second succeeds when the first is left out.
   */
  lemma FailedWriteLeavesNoRoom(n: nat, time: nat -> int, name: seq<byte>, big: seq<byte>, small: seq<byte>)
    requires META_BLOCKS < n <= 8 * BLOCK_SIZE && GoodName(name) && small != []
    requires BlocksFor(|big|) <= INODE_BLOCKS && META_BLOCKS + 1 + BlocksFor(|big|) > n
    requires HasRoom(0, 0, |small|, META_BLOCKS + 1, n)
    ensures Run(Formatted(n, time), [CreateIn(ROOT, name), WriteAt(2, 0, big), WriteAt(2, 0, small)]).1
         == [MadeReply(Ok(2)), DoneReply(Err), DoneReply(Err)]
    ensures FsWrite(FsCreate(Formatted(n, time), ROOT, name).0, 2, 0, small).1 == Ok(())
  {
    hide Formatted, Inv, CoherentAt, IsEntry, FsWrite, MakeNode, HasRoom, Files, Run, Fresh, NewRecord, GoodName,
          Content, Eff, IsFile;
    var g := FirstCreate(n, time, name);
    var s := FsCreate(Formatted(n, time), ROOT, name).0;
    FileIn(s, 2);
    EmptyFileSize(s, 2);
    var g1 := Overfilled(s, big, g);
    WriteOnFullDisk(FsWrite(s, 2, 0, big).0, small, g1);
    var g' := WriteOk(s, 2, 0, small, g);
    ThreeCalls(Formatted(n, time), CreateIn(ROOT, name), WriteAt(2, 0, big), WriteAt(2, 0, small));
  }

  // ------------------------------------------------------------------ created, looked up

  /** The page cache after a search of a one-page directory that was not cached: one slot holds that page. */
  ghost predicate OnePageCached(c: DirCache, v: nat, d: nat, b: nat, page: Block) {
    && v < DIR_SLOTS && c[v].dir == d && c[v].num == b && c[v].page == page
    && forall k :: 0 <= k < DIR_SLOTS && k != v ==> c[k].dir != d
  }

  lemma ColdMissCaches(s: Fs, d: InodeId, name: seq<byte>, g: Owners) returns (v: nat)
    requires Inv(s, g) && 1 <= d < |g.par| && IsDir(s.itab, d) && name != []
    requires PageSlotOfDir(s.dcache, d) == DIR_SLOTS && 1 <= Count(s.itab[d]) <= PAGE_ENTRIES
    requires DirSearch(s, d, name).1.Err?
    ensures var b := s.itab[d].blocks[0];
      && b < s.NumBlocks()
      && OnePageCached(DirSearch(s, d, name).0.dcache, v, d, b, s.store.disk[b])
      && ScanPage(s.store.disk[b], name, 0, Count(s.itab[d])).None?
  {
    hide Inv, ScanPage;
    DirBlock(s, d, 0, g);
    var b := s.itab[d].blocks[0];
    v := Victim(PageTimes(s.dcache));
    var num := Count(s.itab[d]);
    var s1 := AddPage(s, d, b, s.store.disk[b]);
    assert FetchPage(s, d, b) == (s1, Some(s.store.disk[b]));
    assert SearchBlocks(s1, d, name, None, 1, num - num) == (s1, Err);
  }

  lemma SearchOfEmpty(s: Fs, dir: InodeId, name: seq<byte>)
    requires PageSlotOfDir(s.dcache, dir) == DIR_SLOTS && Count(s.itab[dir]) == 0
    ensures DirSearch(s, dir, name) == (s, Err)
  {
  }

  /** A path of one name. */
  lemma OneName(name: seq<byte>)
    requires SLASH !in name && name != []
    ensures Tokens([SLASH] + name) == [name]
  {
    PathRoundTrip([name]);
    assert PathOf([name]) == [SLASH] + name;
  }

  /** The second creation and the lookup of its name. */
  lemma SecondNameUnseen(s: Fs, a: seq<byte>, b: seq<byte>, g: Owners)
    requires Inv(s, g) && |g.par| == 3 && s.itab[ROOT].size == ENTRY_SIZE && PageSlotOfDir(s.dcache, ROOT) == DIR_SLOTS
    requires IsEntry(s.store.disk, s.itab, ROOT, a, 2) && GoodName(b) && a != b && SLASH !in b
    ensures var (s2, r) := FsCreate(s, ROOT, b);
      r == Ok(3) && FsLookup(s2, [SLASH] + b).1 == Missing
  {
    hide Inv, CoherentAt, IsEntry, Files, MakeNode, DirSearch, PageSlotOfDir, LoadTable, Quiet, Tokens, NewRecord;
    RootIsDir(s, g);
    OtherNameAbsent(s, a, b, g);
    var g2 := MakeNodeOk(s, ROOT, b, FS_FILE, g);
    CreatedNameFoundIff(s, ROOT, b, FS_FILE, g);
    var s2 := FsCreate(s, ROOT, b).0;
    RootIsDir(s2, g2);
    RootBits(s2, g2);
    SearchEnds(s2, b, g2);
    OneName(b);
    assert FsLookup(s2, [SLASH] + b) == LookupFrom(s2, ROOT, [b]);
  }

  /** Two names created in the root of a formatted disk: both creations succeed and the second name is not found. */
  lemma SecondNameIsMissing(n: nat, time: nat -> int, a: seq<byte>, b: seq<byte>)
    requires META_BLOCKS < n <= 8 * BLOCK_SIZE && GoodName(a) && GoodName(b) && a != b && SLASH !in b
    ensures Run(Formatted(n, time), [CreateIn(ROOT, a), CreateIn(ROOT, b), LookUp([SLASH] + b)]).1
         == [MadeReply(Ok(2)), MadeReply(Ok(3)), LookupReply(Missing)]
  {
    hide Formatted, Inv, CoherentAt, IsEntry, MakeNode, FsLookup, Files, Run, NewRecord, GoodName, PageSlotOfDir;
    var g := FirstCreate(n, time, a);
    var s1 := FsCreate(Formatted(n, time), ROOT, a).0;
    SecondNameUnseen(s1, a, b, g);
    ThreeCalls(Formatted(n, time), CreateIn(ROOT, a), CreateIn(ROOT, b), LookUp([SLASH] + b));
  }

  lemma SearchEnds(s: Fs, name: seq<byte>, g: Owners)
    requires Inv(s, g) && IsDir(s.itab, ROOT) && name != [] && ROOT < |g.par|
    ensures !DirSearch(s, ROOT, name).1.Abort?
  {
    DirSearchSound(s, ROOT, name, g);
  }

  lemma RootIsDir(s: Fs, g: Owners)
    requires Inv(s, g)
    ensures IsDir(s.itab, ROOT) && ROOT < |g.par|
  {
    assert RowOk(s.itab[ROOT], ROOT, g);
  }

  lemma OtherNameAbsent(s: Fs, a: seq<byte>, b: seq<byte>, g: Owners)
    requires Inv(s, g) && IsDir(s.itab, ROOT) && ROOT < |g.par| && s.itab[ROOT].size == ENTRY_SIZE
    requires IsEntry(s.store.disk, s.itab, ROOT, a, 2) && a != b && b != []
    requires PageSlotOfDir(s.dcache, ROOT) == DIR_SLOTS
    ensures DirSearch(s, ROOT, b).1 == Err
  {
    hide Inv, DirSearch, EntryName, EntryInode, DiskEntry;
    ColdSearchExact(s, ROOT, b, g);
    DirSearchSound(s, ROOT, b, g);
    assert IsEntry(s.store.disk, s.itab, ROOT, a, 2) ==> EntryIs(DiskEntry(s.store.disk, s.itab[ROOT], 0), a, 2);
    forall m: nat ensures !IsEntry(s.store.disk, s.itab, ROOT, b, m) {}
  }

  // ------------------------------------------------------------------ created, listed

  /** The one page of a directory with one entry. */
  lemma PageOfOne(s: Fs, name: seq<byte>, n: nat, g: Owners)
    requires Inv(s, g) && |g.par| > ROOT && IsDir(s.itab, ROOT) && s.itab[ROOT].size == ENTRY_SIZE
    requires IsEntry(s.store.disk, s.itab, ROOT, name, n)
    ensures var b := s.itab[ROOT].blocks[0];
      && b < s.NumBlocks()
      && EntryName(PageEntry(s.store.disk[b], 0)) == name && EntryInode(PageEntry(s.store.disk[b], 0)) == n
      && PageEntry(s.store.disk[b], 1) == Zeros(ENTRY_SIZE)
  {
    hide RowsOk, SlotsOk, StoreOk, PagesOk, OwnersOk, MapsOk, EntryName, EntryInode;
    DirBlock(s, ROOT, 0, g);
    assert TailClear(s.store.disk, s.itab, ROOT, 1);
    assert EntryIs(DiskEntry(s.store.disk, s.itab[ROOT], 0), name, n);
  }

  /** A listing of two places of the root from a page with one entry, in an inode cache that holds only the root. */
  lemma TwoPlacesListed(s: Fs, page: Block, name: seq<byte>, n: nat)
    requires EntryName(PageEntry(page, 0)) == name && EntryInode(PageEntry(page, 0)) == n
    requires PageEntry(page, 1) == Zeros(ENTRY_SIZE) && 2 <= n < INODES && IsSet(s.inoMap, n)
    requires s.icache[0].num == ROOT && forall k :: 1 <= k < INODE_SLOTS ==>
          s.icache[k] == InodeSlot(0, NewInode(0), false, 0)
    ensures ListPage(s, page, 0, 2, []).1 == [Listed(name, s.itab[n].itype), Listed([], 0)]
  {
    NoSlot(s.icache, n);
    assert s.icache[1].num == 0;
    ZeroEntryNameless();
    assert EntryInode(Zeros(ENTRY_SIZE)) == 0;
    hide EntryName, EntryInode, PageEntry, Zeros, IsSet;
    var e0, e1 := PageEntry(page, 0), PageEntry(page, 1);
    assert ListedType(s, n) == (s, s.itab[n].itype);
    assert ListedType(s, 0).1 == 0;
    var one := [Listed(name, s.itab[n].itype)];
    assert [] + one == one;
    assert ListPage(s, page, 0, 2, []) == ListPage(s, page, 1, 2, one);
    var s1 := ListedType(s, 0).0;
    assert ListPage(s, page, 1, 2, one) == ListPage(s1, page, 2, 2, one + [Listed([], 0)]);
  }

  /** After the second creation the listing still comes from the old page: its second line has no name and no type. */
  lemma SecondNameUnlisted(s: Fs, a: seq<byte>, b: seq<byte>, max: nat, g: Owners)
    requires Inv(s, g) && |g.par| == 3 && s.itab[ROOT].size == ENTRY_SIZE && Fresh(s) && NewRecord(s, 2, FS_FILE)
          && 2 <= max
    requires IsEntry(s.store.disk, s.itab, ROOT, a, 2) && GoodName(b) && a != b
    ensures FsReaddir(FsCreate(s, ROOT, b).0, ROOT, max).1 == Ok([Listed(a, FS_FILE), Listed([], 0)])
  {
    hide Inv, CoherentAt, IsEntry, Files, MakeNode, DirSearch, PageSlotOfDir, LoadTable, Quiet, ListPage, ListedType;
    RootIsDir(s, g);
    OtherNameAbsent(s, a, b, g);
    var g2 := MakeNodeOk(s, ROOT, b, FS_FILE, g);
    var s2 := FsCreate(s, ROOT, b).0;
    MakeLeaves(s, ROOT, b, FS_FILE);
    SearchKeepsTables(s, ROOT, b, g);
    var v := ColdMissCaches(s, ROOT, b, g);
    PageOfOne(s, a, 2, g);
    var page := s.store.disk[s.itab[ROOT].blocks[0]];
    RootBits(s2, g2);
    RootIsDir(s2, g2);
    StillUsed(s2, 2, g2);
    RowKept(s, ROOT, b, FS_FILE, g);
    ListFromPage(s2, page, v, a, max);
  }

  lemma StillUsed(s: Fs, n: nat, g: Owners)
    requires Inv(s, g) && n < |g.par| <= INODES
    ensures n < INODES ==> IsSet(s.inoMap, n)
  {
    if n < INODES { UsedIffBelow(s, g, n); }
  }

  /** A creation leaves the rows of other inodes alone. */
  lemma RowKept(s: Fs, dir: InodeId, name: seq<byte>, itype: nat, g: Owners)
    requires Inv(s, g) && MakeNode(s, dir, name, itype).1.Ok? && |g.par| == 3 && dir == ROOT && IsDir(s.itab, ROOT)
          && name != []
    ensures MakeNode(s, dir, name, itype).0.itab[2] == s.itab[2]
  {
    hide DirSearch, StoreMeta, PutEntry, PageEntry, RowsOk, SlotsOk, StoreOk, TreeOk, PagesOk, OwnersOk;
    SearchKeepsTables(s, dir, name, g);
    NextInode(s, g);
    UsedIffBelow(s, g, 2);
  }

  lemma ListFromPage(s: Fs, page: Block, v: nat, name: seq<byte>, max: nat)
    requires OnePageCached(s.dcache, v, ROOT, s.itab[ROOT].blocks[0], page) && s.itab[ROOT].size == 2 * ENTRY_SIZE
          && 2 <= max
    requires IsDir(s.itab, ROOT) && IsSet(s.inoMap, ROOT) && IsSet(s.inoMap, 2) && s.itab[2].itype == FS_FILE
    requires forall k :: 0 <= k < INODE_SLOTS ==> s.icache[k] == InodeSlot(0, NewInode(0), false, 0)
    requires EntryName(PageEntry(page, 0)) == name && EntryInode(PageEntry(page, 0)) == 2
          && PageEntry(page, 1) == Zeros(ENTRY_SIZE)
    ensures FsReaddir(s, ROOT, max).1 == Ok([Listed(name, FS_FILE), Listed([], 0)])
  {
    NoSlot(s.icache, ROOT);
    assert Oldest(InodeTimes(s.icache), FirstVictim(s), 4);
    hide ListPage, EntryName, EntryInode, PageEntry, IsSet, Victim;
    var s1 := AddInode(s, ROOT, false);
    assert FirstVictim(s) == 0;
    assert Acquire(s, ROOT) == (s1, Some(InRow(ROOT)));
    var ino := s.itab[ROOT];
    assert s1.dcache[v].dir == ROOT && s1.dcache[v].num == ino.blocks[0];
    assert PageSlotOf(s1.dcache, ROOT, ino.blocks[0]) == v;
    var s2 := TouchPage(s1, v);
    TwoPlacesListed(s2, page, name, 2);
    var none: seq<Listed> := [];
    var (s3, lines) := ListPage(s2, page, 0, 2, none);
    assert ListBlocks(s1, ROOT, ino, 0, 2, none) == ListBlocks(s3, ROOT, ino, 1, 0, lines);
  }

  /**
   Two names created in the root of a formatted disk, then listed: the reply has the first name and a line with an
   empty name whose type is neither file nor directory, on which the server's listing service ends the process.
   */
  lemma SecondNameIsNotListed(n: nat, time: nat -> int, a: seq<byte>, b: seq<byte>, max: nat)
    requires META_BLOCKS < n <= 8 * BLOCK_SIZE && GoodName(a) && GoodName(b) && a != b && 2 <= max
    ensures Run(Formatted(n, time), [CreateIn(ROOT, a), CreateIn(ROOT, b), ListOf(ROOT, max)]).1[2]
         == ListReply(Ok([Listed(a, FS_FILE), Listed([], 0)]))
  {
    hide Formatted, Inv, CoherentAt, IsEntry, MakeNode, FsReaddir, Files, Run, NewRecord, GoodName, Fresh;
    var g := FirstCreate(n, time, a);
    var s1 := FsCreate(Formatted(n, time), ROOT, a).0;
    SecondNameUnlisted(s1, a, b, max, g);
    ThreeCalls(Formatted(n, time), CreateIn(ROOT, a), CreateIn(ROOT, b), ListOf(ROOT, max));
  }
}
