/**
 The inode cache without its clock: over any run the inodes in its slots are those of a machine that only keeps the
 slots in the order of their last use.
 */
module FsInodeOrder {
  import opened Bytes
  import opened Bitmap
  import opened Slots
  import opened SlotOrder
  import opened BlockStore
  import ExactLru
  import opened FsState
  import opened FsFiles
  import opened FsTree
  import opened FsInv
  import opened FsContent
  import opened FsAlloc
  import opened FsWriting
  import opened FsCoherence
  import opened FsCalls
  import opened FsWriteCalls
  import opened FsMeta
  import opened FsDirs
  import opened FsSearch
  import opened FsPages
  import opened FsMake
  import opened FsNamespace
  import opened FsListing
  import opened FsCopying
  import opened FsStart
  import opened FsRuns
  import opened FsClock
  import opened FsPushedOut

  // ------------------------------------------------------------------ one use

  ghost predicate Follows(s: Fs, l: Lru<nat>) {
    ExactLru.Ticking(s.time) && Tracks(InodeNums(s.icache), InodeTimes(s.icache), s.Now(), l)
  }

  /** Slots with the same inodes and stamps, and a clock that went on. */
  ghost predicate SameUses(s: Fs, s': Fs) {
    && InodeNums(s'.icache) == InodeNums(s.icache) && InodeTimes(s'.icache) == InodeTimes(s.icache)
    && s'.time == s.time && s.ticks <= s'.ticks
  }

  lemma FollowsOn(s: Fs, s': Fs, l: Lru<nat>)
    requires Follows(s, l) && SameUses(s, s')
    ensures Follows(s', l)
  {
    TicksOn(s.time, s.ticks, s'.ticks);
    hide ExactLru.Ticking;
  }

  /** One slot now holds inode n with the time of this step or later; after that the clock goes on. */
  ghost predicate SlotUsed(s: Fs, s': Fs, k: nat, n: nat) {
    && k < INODE_SLOTS && s'.time == s.time && s.ticks < s'.ticks
    && InodeNums(s'.icache) == InodeNums(s.icache)[k := n]
    && exists tick: nat ::
         s.ticks <= tick < s'.ticks && InodeTimes(s'.icache) == InodeTimes(s.icache)[k := s.time(tick)]
  }

  lemma UsedFollows(s: Fs, s': Fs, k: nat, n: nat, l: Lru<nat>)
    requires Follows(s, l) && SlotUsed(s, s', k, n)
    ensures Follows(s', Used(l, k).(keys := l.keys[k := n]))
  {
    hide Without, ByStamp;
    var tick: nat :| s.ticks <= tick < s'.ticks && InodeTimes(s'.icache) == InodeTimes(s.icache)[k := s.time(tick)];
    TicksOn(s.time, s.ticks, tick);
    TicksOn(s.time, tick + 1, s'.ticks);
    ExactLru.TickingPositive(s.time, tick);
    hide ExactLru.Ticking;
    UseTracks(InodeNums(s.icache), InodeTimes(s.icache), s.Now(), l, k, n, s.time(tick), s'.Now());
  }

  /** An insertion, which takes the slot used longest ago. */
  lemma PutFollows(s: Fs, s': Fs, n: nat, l: Lru<nat>)
    requires Follows(s, l) && SlotUsed(s, s', Victim(InodeTimes(s.icache)), n)
    ensures Follows(s', BringIn(l, n))
  {
    hide ByStamp, ExactLru.Ticking;
    VictimTracks(InodeNums(s.icache), InodeTimes(s.icache), s.Now(), l);
    UsedFollows(s, s', l.order[0], n, l);
  }

  lemma AcquireFollows(s: Fs, n: InodeId, l: Lru<nat>)
    requires Follows(s, l) && (Resident(s, n) || IsSet(s.inoMap, n))
    ensures Follows(Acquire(s, n).0, After(l, Lookup(n)))
  {
    hide ByStamp, ExactLru.Ticking, Used, BringIn;
    var s' := Acquire(s, n).0;
    var k := InodeSlotOf(s.icache, n);
    if k < INODE_SLOTS {
      TouchUses(s, k);
      UsedFollows(s, s', k, n, l);
      SameKeys(l, k, n);
    } else {
      AddUses(s, n, false);
      PutFollows(s, s', n, l);
    }
  }

  lemma SameKeys(l: Lru<nat>, k: nat, n: nat)
    requires k < |l.keys| && l.keys[k] == n
    ensures Used(l, k).(keys := l.keys[k := n]) == Used(l, k)
  {
    assert l.keys[k := n] == l.keys;
  }

  lemma TouchUses(s: Fs, k: nat)
    requires k < INODE_SLOTS
    ensures SlotUsed(s, TouchInode(s, k), k, s.icache[k].num)
  {
    var s' := TouchInode(s, k);
    assert InodeNums(s'.icache) == InodeNums(s.icache)[k := s.icache[k].num as nat];
    assert InodeTimes(s'.icache) == InodeTimes(s.icache)[k := s.time(s.ticks)];
  }

  lemma AddUses(s: Fs, n: InodeId, dirty: bool)
    ensures SlotUsed(s, AddInode(s, n, dirty), Victim(InodeTimes(s.icache)), n)
  {
    var s', v := AddInode(s, n, dirty), Victim(InodeTimes(s.icache));
    assert InodeNums(s'.icache) == InodeNums(s.icache)[v := n as nat];
    assert InodeTimes(s'.icache) == InodeTimes(s.icache)[v := s.time(s.ticks)];
  }

  // ------------------------------------------------------------------ the uses of one call

  function FindUses(s: Fs, n: nat): seq<Use<nat>> {
    if n < INODES && IsSet(s.inoMap, n) then [Lookup(n)] else []
  }

  /** The inodes of entries .. to-1 as they are read: a listing asks the cache for their types. */
  function Glances(s: Fs, dir: InodeId, ino: Inode, from: nat, to: nat): seq<Use<nat>>
    requires PAGE_ENTRIES * from <= to
  {
    seq(to - PAGE_ENTRIES * from,
        i requires 0 <= i => Glance(EntryInode(EntryRead(s, dir, ino, from, PAGE_ENTRIES * from + i))))
  }

  /** A write that makes an uncached file longer puts its inode in once more at the end. */
  function WriteUses(s: Fs, file: nat, offset: nat, buffer: seq<byte>): seq<Use<nat>> {
    FindUses(s, file)
      + if file < INODES && FsWrite(s, file, offset, buffer).1.Ok? && !Visible(s, file, offset, |buffer|)
        then [Insert(file)] else []
  }

  function ListUses(s: Fs, dir: nat, max: int): seq<Use<nat>> {
    if max < 0 then []
    else
      FindUses(s, dir)
        + if dir < INODES && IsSet(s.inoMap, dir) && IsDir(s.itab, dir)
          then Glances(s, dir, Eff(s, dir), 0, Min(Count(Eff(s, dir)), max)) else []
  }

  /** A copy looks its source up twice, then the new file. */
  function CopyUses(s: Fs, p: CopyProgress): seq<Use<nat>> {
    match p
    case NoSource => []
    case NoTarget(source) => FindUses(s, source)
    case Target(_, from, to) => [Lookup(from as nat), Lookup(from as nat), Lookup(to)]
  }

  /** What a call uses the inode cache for. */
  function UsesOf(s: Fs, c: Call): seq<Use<nat>> {
    match c
    case AttrsOf(file) => FindUses(s, file)
    case ReadAt(file, _, _) => FindUses(s, file)
    case WriteAt(file, offset, buffer) => WriteUses(s, file, offset, buffer)
    case ListOf(dir, max) => ListUses(s, dir, max)
    case CopyTo(src, tgt) => CopyUses(s, Progress(s, src, tgt))
    case _ => []
  }

  lemma CachedIsUsed(s: Fs, n: nat, g: Owners)
    requires Inv(s, g) && Resident(s, n) && n < INODES
    ensures IsSet(s.inoMap, n)
  {
    hide StoreOk, TreeOk, PagesOk;
    assert SlotOk(s.icache[InodeSlotOf(s.icache, n)], s.itab, g);
    UsedIffBelow(s, g, n);
  }

  /** The lookup most calls begin with. */
  lemma FindFollows(s: Fs, n: InodeId, l: Lru<nat>, g: Owners)
    requires Follows(s, l) && Inv(s, g)
    ensures Follows(Acquire(s, n).0, AfterAll(l, FindUses(s, n)))
  {
    hide Inv, Follows, After, IsSet;
    if Resident(s, n) { CachedIsUsed(s, n, g); }
    NoUses(l);
    OneUse(l, Lookup(n));
    if IsSet(s.inoMap, n) { AcquireFollows(s, n, l); }
  }

  lemma AttrsFollows(s: Fs, file: nat, l: Lru<nat>, g: Owners)
    requires Follows(s, l) && Inv(s, g)
    ensures Follows(FsGetAttrs(s, file).0, AfterAll(l, FindUses(s, file)))
  {
    hide Inv, Follows, After, AfterAll, IsSet;
    if file < INODES { FindFollows(s, file, l, g); } else { NoUses(l); }
  }

  lemma {:induction false} ReadLoopUses(s: Fs, ino: Inode, offset: nat, max: nat, iblock: nat, acc: seq<byte>)
    ensures SameUses(s, ReadLoop(s, ino, offset, max, iblock, acc).0)
    decreases BlocksFor(ino.size) - iblock
  {
    hide Touch, Add, BlocksFor;
    if |acc| < max && iblock < BlocksFor(ino.size) && iblock < INODE_BLOCKS {
      var (s1, data) := FetchBlock(s, ino.blocks[iblock]);
      if data.Some? {
        var start := if |acc| == 0 then offset % BLOCK_SIZE else 0;
        var num := Min(BLOCK_SIZE - start, max - |acc|);
        ReadLoopUses(s1, ino, offset, max, iblock + 1, acc + data.value[start..start + num]);
      }
    }
  }

  lemma ReadFollows(s: Fs, file: nat, offset: nat, count: nat, l: Lru<nat>, g: Owners)
    requires Follows(s, l) && Inv(s, g)
    ensures Follows(FsRead(s, file, offset, count).0, AfterAll(l, FindUses(s, file)))
  {
    hide Inv, Follows, After, AfterAll, IsSet, ReadLoop, SameUses, Acquire;
    if file < INODES {
      FindFollows(s, file, l, g);
      var (s1, ref) := Acquire(s, file);
      if ref.Some? {
        var ino := Load(s1, ref.value);
        if offset < ino.size {
          ReadLoopUses(s1, ino, offset, Min(count, ino.size - offset), offset / BLOCK_SIZE, []);
          FollowsOn(s1, ReadLoop(s1, ino, offset, Min(count, ino.size - offset), offset / BLOCK_SIZE, []).0,
                    AfterAll(l, FindUses(s, file)));
        }
      }
    } else {
      NoUses(l);
    }
  }

  // ------------------------------------------------------------------ fs_write

  /** Within the write proper: the copy made at the end, if one is. */
  lemma ThroughFollows(s: Fs, file: InodeId, ref: Ref, o: nat, buffer: seq<byte>, l: Lru<nat>, g: Owners)
    requires Follows(s, l) && Inv(s, g) && Refers(s, ref, file) && file < |g.par| && s.itab[file].itype == FS_FILE
    requires o <= Load(s, ref).size && (ref.InRow? ==> NoDirtyCopy(s, file))
    ensures var (s', r) := WriteThrough(s, file, ref, o, buffer);
      Follows(s', if r.Ok? && ref.InRow? && Grows(s, ref, o, |buffer|) then BringIn(l, file) else l)
  {
    hide Inv, Follows, WriteThrough, HasRoom, BringIn, SameUses, SlotUsed, WriteEffect, Content;
    WriteThroughPages(s, file, ref, o, buffer);
    var s' := WriteThrough(s, file, ref, o, buffer).0;
    if HasRoom(Load(s, ref).size, o, |buffer|, |g.own|, s.NumBlocks()) {
      WriteSucceeds(s, file, ref, o, buffer, g);
      if ref.InRow? && Grows(s, ref, o, |buffer|) {
        GrownStamp(s, file, o, buffer, g);
        GrownUse(s, s', file, ref);
        PutFollows(s, s', file, l);
      } else {
        WrittenUses(s, s', file, ref, Grows(s, ref, o, |buffer|));
        FollowsOn(s, s', l);
      }
    } else {
      var g' := WriteFails(s, file, ref, o, buffer, g);
      FailedUses(s, s', ref, g);
      FollowsOn(s, s', l);
    }
  }

  lemma GrownUse(s: Fs, s': Fs, file: InodeId, ref: Ref)
    requires ref.InRow? && ref.n == file && s'.time == s.time && TablesAfter(s, s', file, ref, true)
    requires s.ticks < s'.ticks && s'.icache[Victim(InodeTimes(s.icache))].last == s.time(s'.ticks - 1)
    ensures SlotUsed(s, s', Victim(InodeTimes(s.icache)), file)
  {
    var v := Victim(InodeTimes(s.icache));
    assert InodeNums(s'.icache) == InodeNums(s.icache)[v := file as nat];
    assert InodeTimes(s'.icache) == InodeTimes(s.icache)[v := s.time(s'.ticks - 1)];
  }

  lemma WrittenUses(s: Fs, s': Fs, file: InodeId, ref: Ref, grows: bool)
    requires ValidRef(ref) && TablesAfter(s, s', file, ref, grows) && (ref.InRow? ==> !grows)
    requires SamePages(s, s')
    ensures SameUses(s, s')
  {
    assert InodeNums(s'.icache) == InodeNums(s.icache) && InodeTimes(s'.icache) == InodeTimes(s.icache);
  }

  lemma FailedUses(s: Fs, s': Fs, ref: Ref, g: Owners)
    requires ValidRef(ref) && WriteLeftContents(s, s', ref, g.own) && SamePages(s, s')
    ensures SameUses(s, s')
  {
    assert InodeNums(s'.icache) == InodeNums(s.icache) && InodeTimes(s'.icache) == InodeTimes(s.icache);
  }

  lemma WriteFollows(s: Fs, file: nat, offset: nat, buffer: seq<byte>, l: Lru<nat>, g: Owners)
    requires Follows(s, l) && Inv(s, g)
    ensures Follows(FsWrite(s, file, offset, buffer).0, AfterAll(l, WriteUses(s, file, offset, buffer)))
  {
    hide Inv, Follows, After, AfterAll, IsSet, WriteThrough, Acquire, WriteCall, Eff, BringIn, IsFile;
    if file < INODES && IsFile(s, file) {
      WriteFileFollows(s, file, offset, buffer, l, g);
    } else {
      var g' := WriteOk(s, file, offset, buffer, g);
      WriteToNoFile(s, file, offset, buffer, g);
      NothingAppended(FindUses(s, file));
      if file < INODES {
        NoFileNoWrite(s, file, offset, buffer, g);
        FindFollows(s, file, l, g);
      } else {
        NoUses(l);
      }
    }
  }

  lemma NothingAppended(u: seq<Use<nat>>)
    ensures u + [] == u
  {
  }

  lemma NoFileNoWrite(s: Fs, file: InodeId, offset: nat, buffer: seq<byte>, g: Owners)
    requires Inv(s, g) && !IsFile(s, file)
    ensures FsWrite(s, file, offset, buffer) == (Acquire(s, file).0, Err)
  {
    hide Inv, WriteThrough, Eff, Resident, Refers, NoDirtyCopy;
    AcquireFinds(s, file, g);
    AcquireKeepsInv(s, file, g);
    FileFacts(s, file, g);
  }

  lemma WriteFileFollows(s: Fs, file: InodeId, offset: nat, buffer: seq<byte>, l: Lru<nat>, g: Owners)
    requires Follows(s, l) && Inv(s, g) && IsFile(s, file)
    ensures Follows(FsWrite(s, file, offset, buffer).0, AfterAll(l, WriteUses(s, file, offset, buffer)))
  {
    hide Inv, Follows, After, IsSet, WriteThrough, Acquire, Eff, BringIn, Quiet, Resident, Refers;
    FindFollows(s, file, l, g);
    AcquireQuiet(s, file, g);
    AcquireFinds(s, file, g);
    AcquireKeepsInv(s, file, g);
    FileFacts(s, file, g);
    var (s1, ref) := Acquire(s, file);
    AcquiredFile(s, s1, ref.value, file, g);
    var o := Min(offset, Eff(s, file).size);
    var l1 := AfterAll(l, FindUses(s, file));
    ThroughFollows(s1, file, ref.value, o, buffer, l1, g);
    AfterBoth(l, FindUses(s, file), [Insert(file)]);
    OneUse(l1, Insert(file));
    InsertIs(l1, file);
    NothingAppended(FindUses(s, file));
  }

  lemma InsertIs(l: Lru<nat>, n: nat)
    ensures After(l, Insert(n)) == BringIn(l, n)
  {
  }

  // ------------------------------------------------------------------ fs_readdir

  /** The types of the inodes on places j .. n-1 of a page. */
  function PageGlances(page: Block, j: nat, n: nat): seq<Use<nat>>
    requires j <= n <= PAGE_ENTRIES
  {
    seq(n - j, i requires 0 <= i < n - j => Glance(EntryInode(PageEntry(page, j + i))))
  }

  lemma TypeFollows(s: Fs, n: nat, l: Lru<nat>)
    requires Follows(s, l)
    ensures Follows(ListedType(s, n).0, After(l, Glance(n)))
  {
    hide ByStamp, ExactLru.Ticking, Used;
    var k := InodeSlotOf(s.icache, n);
    if k < INODE_SLOTS {
      TouchUses(s, k);
      UsedFollows(s, TouchInode(s, k), k, n, l);
      SameKeys(l, k, n);
    }
  }

  lemma {:induction false} ListPageFollows(s: Fs, page: Block, j: nat, n: nat, acc: seq<Listed>, l: Lru<nat>)
    requires Follows(s, l) && j <= n <= PAGE_ENTRIES
    ensures Follows(ListPage(s, page, j, n, acc).0, AfterAll(l, PageGlances(page, j, n)))
    decreases n - j
  {
    hide Follows, After, ListedType, EntryName, EntryInode, PageEntry;
    if j < n {
      var x := PageEntry(page, j);
      TypeFollows(s, EntryInode(x), l);
      var (s1, t) := ListedType(s, EntryInode(x));
      ListPageFollows(s1, page, j + 1, n, acc + [Listed(EntryName(x), t)], After(l, Glance(EntryInode(x))));
      assert PageGlances(page, j, n)[1..] == PageGlances(page, j + 1, n);
    } else {
      NoUses(l);
      assert PageGlances(page, j, n) == [];
    }
  }

  lemma FetchUses(s: Fs, d: nat, b: nat)
    ensures SameUses(s, FetchPage(s, d, b).0)
  {
  }

  lemma GlancesStep(s: Fs, s1: Fs, s2: Fs, dir: InodeId, ino: Inode, iblock: nat, n: nat, num: nat, page: Block)
    requires 0 < num && n == Min(PAGE_ENTRIES, num) && iblock < 2 && PAGE_ENTRIES * iblock + num <= 62
    requires FetchPage(s, dir, ino.blocks[iblock]) == (s1, Some(page))
    requires s2.store == s1.store && s2.dcache == s1.dcache && s2.itab == s.itab && s2.inoMap == s.inoMap
    ensures Glances(s, dir, ino, iblock, PAGE_ENTRIES * iblock + num)
         == PageGlances(page, 0, n) + Glances(s2, dir, ino, iblock + 1, PAGE_ENTRIES * (iblock + 1) + (num - n))
  {
    hide FetchPage, PageEntry, EntryInode;
    var all, first := Glances(s, dir, ino, iblock, PAGE_ENTRIES * iblock + num), PageGlances(page, 0, n);
    var rest := Glances(s2, dir, ino, iblock + 1, PAGE_ENTRIES * (iblock + 1) + (num - n));
    forall i | 0 <= i < num ensures all[i] == (first + rest)[i] {
      var e := PAGE_ENTRIES * iblock + i;
      if i < n {
        assert e / PAGE_ENTRIES == iblock && e % PAGE_ENTRIES == i;
        NextPageRead(s, dir, ino, iblock, page);
        assert EntryRead(s, dir, ino, iblock, e) == PageEntry(page, i);
        assert first[i] == Glance(EntryInode(PageEntry(page, i)));
      } else {
        assert e / PAGE_ENTRIES == iblock + 1 && e == PAGE_ENTRIES * (iblock + 1) + (i - n);
        RestSame(s, s1, s2, dir, ino, iblock, e);
        assert rest[i - n] == Glance(EntryInode(EntryRead(s2, dir, ino, iblock + 1, e)));
      }
    }
  }

  lemma {:induction false} ListBlocksFollows(s: Fs, dir: InodeId, ino: Inode, iblock: nat, num: nat, acc: seq<Listed>,
        l: Lru<nat>, g: Owners)
    requires DirRecord(s, dir, ino, g) && (num == 0 || num + PAGE_ENTRIES * iblock <= Count(ino)) && Follows(s, l)
    ensures Follows(ListBlocks(s, dir, ino, iblock, num, acc).0,
                    AfterAll(l, Glances(s, dir, ino, iblock, PAGE_ENTRIES * iblock + num)))
    decreases num
  {
    hide Inv, FetchPage, ListPage, DirPrefix, Glances, PageGlances, Follows, AfterAll, SameUses;
    if num > 0 {
      assert iblock < BlocksFor(ino.size);
      FetchKeepsRecord(s, dir, ino, iblock, g);
      FetchPageIs(s, dir, ino.blocks[iblock]);
      var (s1, page) := FetchPage(s, dir, ino.blocks[iblock]);
      var n := Min(PAGE_ENTRIES, num);
      FetchUses(s, dir, ino.blocks[iblock]);
      FollowsOn(s, s1, l);
      ListPageFollows(s1, page.value, 0, n, acc, l);
      ListPageIs(s1, page.value, 0, n, acc, g);
      ListPageKeepsInv(s1, dir, page.value, n, acc, g);
      var (s2, acc2) := ListPage(s1, page.value, 0, n, acc);
      SmallRecord(s, dir, ino, g);
      GlancesStep(s, s1, s2, dir, ino, iblock, n, num, page.value);
      var l2 := AfterAll(l, PageGlances(page.value, 0, n));
      ListBlocksFollows(s2, dir, ino, iblock + 1, num - n, acc2, l2, g);
      AfterBoth(l, PageGlances(page.value, 0, n),
                Glances(s2, dir, ino, iblock + 1, PAGE_ENTRIES * (iblock + 1) + (num - n)));
    } else {
      NoGlances(s, dir, ino, iblock);
      NoUses(l);
    }
  }

  lemma NoGlances(s: Fs, dir: InodeId, ino: Inode, iblock: nat)
    ensures Glances(s, dir, ino, iblock, PAGE_ENTRIES * iblock) == []
  {
  }

  /** What is read of a directory depends on the page cache and the disk alone. */
  lemma GlancesSame(s: Fs, t: Fs, dir: InodeId, ino: Inode, to: nat)
    requires t.store == s.store && t.dcache == s.dcache && t.time == s.time
    requires to <= 62
    ensures Glances(t, dir, ino, 0, to) == Glances(s, dir, ino, 0, to)
  {
    hide EntryInode, PageEntry;
    var a, b := Glances(t, dir, ino, 0, to), Glances(s, dir, ino, 0, to);
    forall i | 0 <= i < to ensures a[i] == b[i] {
      EntrySame(s, t, dir, ino, i);
    }
  }

  lemma EntrySame(s: Fs, t: Fs, dir: InodeId, ino: Inode, e: nat)
    requires t.store == s.store && t.dcache == s.dcache && t.time == s.time && e < 62
    ensures EntryRead(t, dir, ino, 0, e) == EntryRead(s, dir, ino, 0, e)
  {
    hide PageEntry;
    if e >= PAGE_ENTRIES {
      var (s1, t1) := (FetchPage(s, dir, ino.blocks[0]).0, FetchPage(t, dir, ino.blocks[0]).0);
      assert PageKeys(t1.dcache) == PageKeys(s1.dcache) && e / PAGE_ENTRIES == 1;
      assert forall k :: 0 <= k < DIR_SLOTS ==> t1.dcache[k].page == s1.dcache[k].page;
    }
  }

  lemma ListFollows(s: Fs, dir: nat, max: int, l: Lru<nat>, g: Owners)
    requires Follows(s, l) && Inv(s, g)
    ensures Follows(FsReaddir(s, dir, max).0, AfterAll(l, ListUses(s, dir, max)))
  {
    hide Inv, Follows, After, AfterAll, IsSet, ListBlocks, Acquire, Eff, Glances, FindUses;
    NoUses(l);
    if 0 <= max && dir < INODES {
      FindFollows(s, dir, l, g);
      if IsSet(s.inoMap, dir) && IsDir(s.itab, dir) {
        ListDirFollows(s, dir, max, l, g);
      } else {
        NothingAppended(FindUses(s, dir));
        NotListed(s, dir, max, g);
      }
    } else if 0 <= max {
      NothingAppended(FindUses(s, dir));
      NoNumber(s, dir);
    }
  }

  lemma NoNumber(s: Fs, n: nat)
    requires n >= INODES
    ensures FindUses(s, n) == []
  {
  }

  lemma NotListed(s: Fs, dir: InodeId, max: nat, g: Owners)
    requires Inv(s, g) && !(IsSet(s.inoMap, dir) && IsDir(s.itab, dir))
    ensures FsReaddir(s, dir, max).0 == Acquire(s, dir).0
  {
    hide Inv, ListBlocks, Refers, NoDirtyCopy, Resident;
    MakeBounds(s, dir, g);
    AcquireFinds(s, dir, g);
    AcquireKeepsInv(s, dir, g);
    FileFacts(s, dir, g);
  }

  lemma ListDirFollows(s: Fs, dir: InodeId, max: nat, l: Lru<nat>, g: Owners)
    requires Follows(s, l) && Inv(s, g) && IsSet(s.inoMap, dir) && IsDir(s.itab, dir)
    ensures Follows(FsReaddir(s, dir, max).0, AfterAll(l, ListUses(s, dir, max)))
  {
    hide Inv, Follows, After, AfterAll, ListBlocks, Glances, PageSlotOfDir, Resident, Refers, NoDirtyCopy, DirPrefix,
          Acquire, IsSet, Eff;
    MakeBounds(s, dir, g);
    FindFollows(s, dir, l, g);
    AcquireKeepsInv(s, dir, g);
    AcquireFinds(s, dir, g);
    AcquiredDir(s, dir, g);
    AcquireTime(s, dir);
    CachedDirFacts(s, dir, g);
    FileFacts(s, dir, g);
    var (t, ino) := (Acquire(s, dir).0, Eff(s, dir));
    var to := Min(Count(ino), max);
    ListBlocksFollows(t, dir, ino, 0, to, [], AfterAll(l, FindUses(s, dir)), g);
    GlancesSame(s, t, dir, ino, to);
    AfterBoth(l, FindUses(s, dir), Glances(s, dir, ino, 0, to));
  }

  lemma AcquireTime(s: Fs, n: InodeId)
    ensures Acquire(s, n).0.time == s.time
  {
  }

  // ------------------------------------------------------------------ the calls that leave the inode cache alone

  lemma LookupFollows(s: Fs, path: seq<byte>, l: Lru<nat>, g: Owners)
    requires Follows(s, l) && Inv(s, g)
    ensures Follows(FsLookup(s, path).0, l)
  {
    hide Inv, Follows, FsLookup, Resolves, Older, ExactLru.Ticking;
    LookupSound(s, path, g);
    LookupLater(s, path);
    FollowsOn(s, FsLookup(s, path).0, l);
  }

  lemma MakeFollows(s: Fs, dir: nat, name: seq<byte>, itype: nat, l: Lru<nat>, g: Owners)
    requires Follows(s, l) && Inv(s, g) && IsCString(name) && (itype == FS_DIR || itype == FS_FILE)
    ensures Follows(MakeNode(s, dir, name, itype).0, l)
  {
    hide Inv, Follows, MakeNode, Files, CoherentAt, IsEntry, DirSearch, IsFile, LoadTable, EntryAdded, CopiesKept,
          Older, ExactLru.Ticking, GoodName, NewRecord;
    var g' := MakeNodeOk(s, dir, name, itype, g);
    MakeLater(s, dir, name, itype);
    FollowsOn(s, MakeNode(s, dir, name, itype).0, l);
  }

  // ------------------------------------------------------------------ fs_copy

  lemma {:induction false} CopyLoopUses(s: Fs, src: Ref, dst: Ref, i: nat, used: nat)
    requires ValidRef(src) && ValidRef(dst) && dst.InRow?
    ensures SameUses(s, CopyLoop(s, src, dst, i, used).0)
    decreases used - i
  {
    if i < used && i < INODE_BLOCKS {
      var b := FindFree(s.blkMap, 0, s.NumBlocks());
      if b.Some? {
        CopyOneUses(s, src, dst, i, b.value);
        hide CopyOne;
        var (s1, ok) := CopyOne(s, src, dst, i, b.value);
        if ok { CopyLoopUses(s1, src, dst, i + 1, used); }
      }
    }
  }

  lemma CopyOneUses(s: Fs, src: Ref, dst: Ref, i: nat, b: nat)
    requires ValidRef(src) && ValidRef(dst) && dst.InRow? && i < INODE_BLOCKS && b < s.NumBlocks()
    ensures SameUses(s, CopyOne(s, src, dst, i, b).0)
  {
  }

  /** From the moment both inodes exist: the source is cached, the new one is not. */
  lemma DataFollows(s: Fs, from: InodeId, to: InodeId, l: Lru<nat>)
    requires Follows(s, l) && Resident(s, from) && !Resident(s, to) && from != to
    ensures Follows(CopyData(s, from, to).0, AfterAll(l, [Lookup(from as nat), Lookup(to as nat)]))
  {
    hide Follows, After, CopyLoop, SameUses;
    var (s1, src) := Hold(s, from, false);
    HoldFollows(s, from, false, l);
    var l1 := After(l, Lookup(from));
    StillAbsent(s, from, to);
    var (s2, dst) := Hold(s1, to, true);
    HoldFollows(s1, to, true, l1);
    var l2 := After(l1, Lookup(to));
    TwoUses(l, Lookup(from), Lookup(to));
    var used := BlocksFor(Load(s2, src).size);
    CopyLoopUses(s2, src, dst, 0, used);
    var s3 := CopyLoop(s2, src, dst, 0, used).0;
    RowChanged(s2, s3, CopyData(s, from, to).0, s, from, to, src, dst);
    FollowsOn(s2, CopyData(s, from, to).0, l2);
  }

  lemma TwoUses(l: Lru<nat>, u: Use<nat>, v: Use<nat>)
    ensures AfterAll(l, [u, v]) == After(After(l, u), v)
  {
    assert [u, v][1..] == [v];
    OneUse(After(l, u), v);
  }

  lemma HoldFollows(s: Fs, n: InodeId, dirty: bool, l: Lru<nat>)
    requires Follows(s, l)
    ensures Follows(Hold(s, n, dirty).0, After(l, Lookup(n)))
  {
    hide ByStamp, ExactLru.Ticking, Used, BringIn;
    var s' := Hold(s, n, dirty).0;
    var k := InodeSlotOf(s.icache, n);
    if k < INODE_SLOTS {
      TouchUses(s, k);
      UsedFollows(s, s', k, n, l);
      SameKeys(l, k, n);
    } else {
      AddUses(s, n, dirty);
      PutFollows(s, s', n, l);
    }
  }

  lemma StillAbsent(s: Fs, from: InodeId, to: InodeId)
    requires Resident(s, from) && !Resident(s, to)
    ensures !Resident(Hold(s, from, false).0, to)
  {
    NoSlot(Hold(s, from, false).0.icache, to);
  }

  /** The end of a copy changes a row and stores nothing, as the row is not a cached copy. */
  lemma RowChanged(s2: Fs, s3: Fs, s': Fs, s: Fs, from: InodeId, to: InodeId, src: Ref, dst: Ref)
    requires dst.InRow? && SameUses(s2, s3) && s' == CopyData(s, from, to).0
    requires var (s1, a) := Hold(s, from, false);
      a == src && Hold(s1, to, true) == (s2, dst) && s3 == CopyLoop(s2, src, dst, 0, BlocksFor(Load(s2, src).size)).0
    ensures SameUses(s2, s')
  {
    hide Hold, CopyLoop;
  }

  lemma TargetFollows(s: Fs, dirPart: seq<byte>, name: seq<byte>, l: Lru<nat>, g: Owners)
    requires Follows(s, l) && Inv(s, g) && IsCString(name)
    ensures Follows(MakeTarget(s, dirPart, name).0, l)
  {
    hide Inv, Follows, FsLookup, MakeNode, Resolves;
    LookupSound(s, dirPart, g);
    LookupFollows(s, dirPart, l, g);
    var (s1, d) := FsLookup(s, dirPart);
    if d.Found? { MakeFollows(s1, d.id, name, FS_FILE, l, g); }
  }

  /** The part behind the source's attributes. */
  lemma IntoFollows(s: Fs, from: InodeId, dirPart: seq<byte>, name: seq<byte>, l: Lru<nat>, g: Owners)
    requires Follows(s, l) && Inv(s, g) && IsCString(name) && !OnlySlashes(dirPart)
    requires IsFile(s, from) && Resident(s, from)
    ensures var (s3, made) := MakeTarget(s, dirPart, name);
      Follows(CopyInto(s, from, dirPart, name).0,
              AfterAll(l, if made.Ok? then [Lookup(from as nat), Lookup(made.value)] else []))
  {
    hide Inv, Follows, MakeTarget, CopyData, After, AfterAll, Files, IsFile, Resident, EntryMade, SameEntries,
          CoherentAt, CopiesKept;
    NoUses(l);
    TargetFollows(s, dirPart, name, l, g);
    var g3 := MakeTargetOk(s, dirPart, name, g);
    var (s3, made) := MakeTarget(s, dirPart, name);
    if made.Ok? {
      var n: nat := made.value;
      assert n < INODES && !Resident(s3, n) by { NewIsAbsent(s3, n); }
      FileFacts(s, from, g);
      assert Resident(s3, from) by { SameCacheSameResidents(s, s3, from); }
      DataFollows(s3, from, n, l);
    }
  }

  lemma NewIsAbsent(s: Fs, n: nat)
    requires NewFile(s, n)
    ensures n < INODES && !Resident(s, n)
  {
    NoSlot(s.icache, n);
  }

  lemma CopyFollows(s: Fs, src: seq<byte>, tgt: seq<byte>, l: Lru<nat>, g: Owners)
    requires Follows(s, l) && Inv(s, g) && Proper(CopyTo(src, tgt))
    ensures Follows(FsCopy(s, src, tgt).0, AfterAll(l, CopyUses(s, Progress(s, src, tgt))))
  {
    hide Inv, Follows, FsLookup, FsGetAttrs, CopyInto, MakeTarget, Quiet, Resolves, IsFile, Resident, TargetFits,
          OnlySlashes, AfterAll, FindUses;
    NoUses(l);
    LookupSound(s, src, g);
    LookupFollows(s, src, l, g);
    var (s1, d) := FsLookup(s, src);
    if d.Found? {
      CopySource(s1, d.id, g);
      AttrsFollows(s1, d.id, l, g);
      UsedLookup(s, d.id, g);
      UsedLookup(s1, d.id, g);
      var (s2, a) := FsGetAttrs(s1, d.id);
      QuietInv(s1, s2, g);
      var p := LastSlash(tgt);
      if a.value.itype == FS_FILE && p.Some? && TargetFits(tgt) {
        var (dirPart, name) := (DirPart(tgt), FileName(tgt));
        var l1 := AfterAll(l, [Lookup(d.id)]);
        IntoFollows(s2, d.id, dirPart, name, l1, g);
        var made := MakeTarget(s2, dirPart, name).1;
        NoUses(l1);
        if made.Ok? {
          var (first, rest) := ([Lookup(d.id)], [Lookup(d.id), Lookup(made.value)]);
          AfterBoth(l, first, rest);
          assert first + rest == [Lookup(d.id), Lookup(d.id), Lookup(made.value)];
        }
      }
    }
  }

  lemma UsedLookup(s: Fs, n: nat, g: Owners)
    requires Inv(s, g) && n < |g.par|
    ensures n < INODES && FindUses(s, n) == [Lookup(n)]
  {
    hide StoreOk, TreeOk, PagesOk;
    if n < INODES { UsedIffBelow(s, g, n); }
  }

  // ------------------------------------------------------------------ runs

  lemma StepFollows(s: Fs, c: Call, l: Lru<nat>, g: Owners)
    requires Follows(s, l) && Inv(s, g) && Proper(c)
    ensures Follows(Step(s, c).0, AfterAll(l, UsesOf(s, c)))
  {
    hide Inv, Follows, AfterAll, FsGetAttrs, FsLookup, FsRead, FsWrite, MakeNode, FsReaddir, FsCopy, FindUses,
          WriteUses, ListUses, CopyUses, Progress;
    NoUses(l);
    match c
    case AttrsOf(file) => AttrsFollows(s, file, l, g);
    case LookUp(path) => LookupFollows(s, path, l, g);
    case ReadAt(file, offset, count) => ReadFollows(s, file, offset, count, l, g);
    case WriteAt(file, offset, buffer) => WriteFollows(s, file, offset, buffer, l, g);
    case CreateIn(dir, name) => MakeFollows(s, dir, name, FS_FILE, l, g);
    case MkdirIn(dir, name) => MakeFollows(s, dir, name, FS_DIR, l, g);
    case ListOf(dir, max) => ListFollows(s, dir, max, l, g);
    case CopyTo(src, tgt) => CopyFollows(s, src, tgt, l, g);
  }

  function UsesOfRun(s: Fs, calls: seq<Call>): seq<Use<nat>>
    decreases |calls|
  {
    if calls == [] then [] else UsesOf(s, calls[0]) + UsesOfRun(Step(s, calls[0]).0, calls[1..])
  }

  lemma {:induction false} RunFollows(s: Fs, calls: seq<Call>, l: Lru<nat>, g: Owners)
    requires Follows(s, l) && Inv(s, g) && forall i :: 0 <= i < |calls| ==> Proper(calls[i])
    ensures Follows(Run(s, calls).0, AfterAll(l, UsesOfRun(s, calls)))
    decreases |calls|
  {
    hide Inv, Follows, AfterAll, UsesOf, Step, Proper, Acts;
    if calls == [] {
      NoUses(l);
    } else {
      var s1 := Step(s, calls[0]).0;
      StepFollows(s, calls[0], l, g);
      var g1 := StepOk(s, calls[0], g);
      RunFollows(s1, calls[1..], AfterAll(l, UsesOf(s, calls[0])), g1);
      AfterBoth(l, UsesOf(s, calls[0]), UsesOfRun(s1, calls[1..]));
    }
  }

  /** Four slots with inode 0, the lowest first. */
  const UNUSED: Lru<nat> := Lru([0, 0, 0, 0], [0, 1, 2, 3])

  lemma FormattedFollows(n: nat, time: nat -> int)
    requires META_BLOCKS < n <= 8 * BLOCK_SIZE && ExactLru.Ticking(time)
    ensures Follows(Formatted(n, time), UNUSED)
  {
    hide Formatted, ExactLru.Ticking;
    FormattedStore(n, time);
    ExactLru.TickingPositive(time, 0);
    var s, order := Formatted(n, time), UNUSED.order;
    assert InodeNums(s.icache) == [0, 0, 0, 0];
    forall k: nat | k < INODE_SLOTS ensures Find(order, k, 0) < 4 { assert order[k] == k; }
  }

  /**
   Over any run of proper calls from the formatted disk, under any positive clock that strictly increases: slot by slot
   the inode cache holds the inodes that the machine without a clock holds, and its next victim is the machine's.
   */
  lemma RunsKeepInodesByUse(n: nat, time: nat -> int, calls: seq<Call>)
    requires META_BLOCKS < n <= 8 * BLOCK_SIZE && ExactLru.Ticking(time)
    requires forall i :: 0 <= i < |calls| ==> Proper(calls[i])
    ensures var (s, l) := (Run(Formatted(n, time), calls).0, AfterAll(UNUSED, UsesOfRun(Formatted(n, time), calls)));
      InodeNums(s.icache) == l.keys && l.order != [] && Victim(InodeTimes(s.icache)) == l.order[0]
  {
    hide Formatted, Inv, Run, AfterAll, UsesOfRun, ExactLru.Ticking, ByStamp, Coherent, Files;
    FormattedOk(n, time);
    FormattedFollows(n, time);
    RunFollows(Formatted(n, time), calls, UNUSED, START);
    var (s, l) := (Run(Formatted(n, time), calls).0, AfterAll(UNUSED, UsesOfRun(Formatted(n, time), calls)));
    VictimTracks(InodeNums(s.icache), InodeTimes(s.icache), s.Now(), l);
  }
}
