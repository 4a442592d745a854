/** fs_lookup, fs_create, fs_mkdir and fs_readdir as calls: what each changes for files, directories and replies. */
module FsNamespace {
  import opened Bytes
  import opened Bitmap
  import opened BlockStore
  import opened FsState
  import opened FsTree
  import opened FsInv
  import opened FsContent
  import opened FsAlloc
  import opened FsWriting
  import opened FsCoherence
  import opened FsCalls
  import opened FsMeta
  import opened FsDirs
  import opened FsSearch
  import opened FsMake

  /** Steps on the page cache change no file. */
  lemma PagesOnlyQuiet(s: Fs, s': Fs, g: Owners)
    requires Inv(s, g) && PagesOnly(s, s') && Inv(s', g)
    ensures Quiet(s, s', g)
  {
    hide Inv, View, RecordsKept, RecordsMoved;
    UnchangedTables(s, s');
  }

  lemma PagesOnlyFiles(s: Fs, s': Fs)
    requires PagesOnly(s, s')
    ensures Files(s') == Files(s)
  {
    hide View, Content;
    UnchangedTables(s, s');
  }

  lemma LookupQuiet(s: Fs, path: seq<byte>, g: Owners)
    requires Inv(s, g)
    ensures Quiet(s, FsLookup(s, path).0, g) && !FsLookup(s, path).1.Fault?
  {
    hide Inv, Quiet, Resolves;
    LookupSound(s, path, g);
    PagesOnlyQuiet(s, FsLookup(s, path).0, g);
  }

  // ------------------------------------------------------------------ fs_create and fs_mkdir

  /** A name the directory calls accept. */
  predicate GoodName(name: seq<byte>) {
    name != [] && |name| < NAME_SIZE && IsCString(name)
  }

  lemma MadeRecords(s: Fs, s': Fs, g: Owners, dir: nat, name: seq<byte>, itype: nat)
    requires Inv(s, g) && Made(s, s', g, dir, name, itype)
    ensures forall n: nat :: n < INODES ==> s'.itab[n].itype == if n == |g.par| then itype else s.itab[n].itype
    ensures forall n: nat :: n < INODES && n != |g.par| && s.itab[n].itype != FS_DIR ==> Eff(s', n) == Eff(s, n)
    ensures Eff(s', |g.par|) == NewInode(itype)
    ensures forall k :: 0 <= k < INODE_SLOTS ==> s.icache[k].num != |g.par|
  {
    hide MadeTree, StoreOk, TreeOk, PagesOk, RowsOk, LoadTable;
    forall k | 0 <= k < INODE_SLOTS ensures s.icache[k].num != |g.par| {
      assert SlotOk(s.icache[k], s.itab, g);
    }
    NoSlot(s'.icache, |g.par|);
  }

  lemma MadeCoherent(s: Fs, s': Fs, g: Owners, dir: nat, name: seq<byte>, itype: nat)
    requires Inv(s, g) && Made(s, s', g, dir, name, itype)
    ensures forall n: nat :: CoherentAt(s, n) ==> CoherentAt(s', n)
    ensures CoherentAt(s', |g.par|)
  {
    MadeRecords(s, s', g, dir, name, itype);
    hide Inv, MadeTree, LoadTable;
    forall n: nat, k | CoherentAt(s, n) && 0 <= k < INODE_SLOTS && s.icache[k].num == n
      ensures CleanAgrees(s'.icache[k], s'.itab)
    {
      assert CleanAgrees(s.icache[k], s.itab);
    }
  }

  lemma MadeFileKept(s: Fs, s': Fs, g: Owners, dir: nat, name: seq<byte>, itype: nat, n: nat)
    requires Inv(s, g) && Made(s, s', g, dir, name, itype) && IsFile(s, n)
    ensures Content(s'.store, Eff(s', n)) == Content(s.store, Eff(s, n))
  {
    MadeRecords(s, s', g, dir, name, itype);
    EffIsRecord(s, n);
    MadeRecordKept(s, s', g, dir, name, itype, n, Eff(s, n));
  }

  lemma MadeCopiesKept(s: Fs, s': Fs, g: Owners, dir: nat, name: seq<byte>, itype: nat, n: nat)
    requires Inv(s, g) && Made(s, s', g, dir, name, itype)
    ensures CopiesKept(s, s', n)
  {
    if IsFile(s, n) {
      MadeRow(s, s', g, dir, name, itype, n);
      hide Inv, Made, View, Content;
      assert forall k: nat, r: Inode :: CopyOf(s', n, k, r) == CopyOf(s, n, k, r);
      hide CopyOf;
      forall r: Inode | RecordOf(s', n, r) ensures RecordHeld(s, s', n, r) {
        MadeRecordKept(s, s', g, dir, name, itype, n, r);
      }
    }
  }

  lemma MadeRow(s: Fs, s': Fs, g: Owners, dir: nat, name: seq<byte>, itype: nat, n: nat)
    requires Inv(s, g) && Made(s, s', g, dir, name, itype) && IsFile(s, n)
    ensures IsFile(s', n) && s'.itab[n] == s.itab[n] && s'.icache == s.icache
  {
    MadeIsFile(s, s', g, dir, name, itype);
    FileFacts(s, n, g);
    hide Inv, MadeTree, LoadTable;
  }

  lemma MadeRecordKept(s: Fs, s': Fs, g: Owners, dir: nat, name: seq<byte>, itype: nat, n: nat, r: Inode)
    requires Inv(s, g) && Made(s, s', g, dir, name, itype) && IsFile(s, n) && RecordOf(s, n, r)
    ensures Content(s'.store, r) == Content(s.store, r)
  {
    FileFacts(s, n, g);
    RecordOwned(s, n, r, g);
    hide Inv, View, Content, RecordOf;
    forall i: nat | i < INODE_BLOCKS && i < BlocksFor(r.size)
      ensures View(s'.store, r.blocks[i]) == View(s.store, r.blocks[i])
    {
      UsedBlockIsFileBlock(r, n, i, s.itab, g);
    }
    ContentFrame(s.store, s'.store, r);
  }

  lemma MadeFiles(s: Fs, s': Fs, g: Owners, dir: nat, name: seq<byte>, itype: nat)
    requires Inv(s, g) && Made(s, s', g, dir, name, itype)
    ensures Files(s') == if itype == FS_FILE then Files(s)[|g.par| := []] else Files(s)
  {
    hide Inv, Made, Eff, Content, IsFile;
    MadeIsFile(s, s', g, dir, name, itype);
    forall n: nat | n < INODES && IsFile(s, n)
      ensures Content(s'.store, Eff(s', n)) == Content(s.store, Eff(s, n))
    {
      MadeFileKept(s, s', g, dir, name, itype, n);
    }
    MadeEmpty(s, s', g, dir, name, itype);
  }

  lemma MadeEmpty(s: Fs, s': Fs, g: Owners, dir: nat, name: seq<byte>, itype: nat)
    requires Inv(s, g) && Made(s, s', g, dir, name, itype)
    ensures |g.par| < INODES && Content(s'.store, Eff(s', |g.par|)) == []
  {
    MadeRecords(s, s', g, dir, name, itype);
    hide Inv, MadeTree, View, Eff;
    assert |Content(s'.store, NewInode(itype))| == 0;
  }

  lemma MadeIsFile(s: Fs, s': Fs, g: Owners, dir: nat, name: seq<byte>, itype: nat)
    requires Inv(s, g) && Made(s, s', g, dir, name, itype)
    ensures forall n: nat :: n < INODES ==> (IsFile(s', n) <==> IsFile(s, n) || (n == |g.par| && itype == FS_FILE))
  {
    MadeRecords(s, s', g, dir, name, itype);
    MadeUsed(s, s', g, dir, name, itype);
    hide Inv, Made;
  }

  lemma MadeUsed(s: Fs, s': Fs, g: Owners, dir: nat, name: seq<byte>, itype: nat)
    requires Inv(s, g) && Made(s, s', g, dir, name, itype)
    ensures forall n: nat :: n < INODES ==> (IsSet(s'.inoMap, n) <==> n <= |g.par|)
    ensures forall n: nat :: n < INODES ==> (IsSet(s.inoMap, n) <==> n < |g.par|)
  {
    forall n: nat | n < INODES ensures (IsSet(s'.inoMap, n) <==> n <= |g.par|)
          && (IsSet(s.inoMap, n) <==> n < |g.par|) {
      UsedIffBelow(s, g, n);
      UsedIffBelow(s', Joined(g, dir, s.itab[dir]), n);
    }
  }

  /** Everything about one fs_create (itype FS_FILE) or fs_mkdir (FS_DIR) call. */
  ghost predicate MakeCall(s: Fs, s': Fs, r: Res<nat>, dir: nat, name: seq<byte>, itype: nat, g: Owners, g': Owners) {
    && Inv(s', g') && g.own <= g'.own && g.par <= g'.par && !r.Abort?
    && s'.time == s.time && s'.NumBlocks() == s.NumBlocks()
    && (r.Err? ==> g' == g && Quiet(s, s', g) && PagesOnly(s, s'))
    && (r.Ok? ==>
          && dir < INODES && g' == Joined(g, dir, s.itab[dir])
          && r.value == |g.par| && |g'.par| == |g.par| + 1 && s'.itab[r.value].itype == itype
          && dir < |g.par| && IsDir(s.itab, dir) && GoodName(name)
          && IsEntry(s'.store.disk, s'.itab, dir, name, r.value) && EntryAdded(s, s', dir, name, r.value)
          && s'.store.disk[0] == s'.blkMap && s'.store.disk[1] == s'.inoMap && LoadTable(s'.store.disk) == s'.itab
          && Files(s') == (if itype == FS_FILE then Files(s)[r.value := []] else Files(s))
          && s'.icache == s.icache && NewRecord(s', r.value, itype)
          && (forall o: nat :: o < INODES && o != dir && o != r.value ==> s'.itab[o] == s.itab[o])
          && (forall n: nat :: CopiesKept(s, s', n))
          && CoherentAt(s', r.value) && forall n: nat :: CoherentAt(s, n) ==> CoherentAt(s', n))
  }

  /** An inode as fsi_inode_init leaves it, with no cached copy. */
  ghost predicate NewRecord(s: Fs, n: nat, itype: nat) {
    && 1 <= n < INODES && s.itab[n] == NewInode(itype)
    && forall k :: 0 <= k < INODE_SLOTS ==> s.icache[k].num != n
  }

  /** Whether the disk can take one more entry in the directory. */
  predicate EntryFits(s: Fs, dir: nat, used: nat)
    requires dir < INODES
  {
    s.itab[dir].size % BLOCK_SIZE != 0 || used < s.NumBlocks()
  }

  /**
   fs_create and fs_mkdir succeed exactly for a good name in a used directory that the search misses, while there is
   an inode and a block for it. Success adds the entry and an empty inode and stores the metadata; failure changes
   nothing but the page cache.
   */
  lemma MakeNodeOk(s: Fs, dir: nat, name: seq<byte>, itype: nat, g: Owners) returns (g': Owners)
    requires Inv(s, g) && IsCString(name) && (itype == FS_DIR || itype == FS_FILE)
    ensures var (s', r) := MakeNode(s, dir, name, itype);
      && MakeCall(s, s', r, dir, name, itype, g, g')
      && (r.Ok? <==> dir < |g.par| <= INODES && GoodName(name) && IsDir(s.itab, dir) && DirSearch(s, dir, name).1.Err?
                     && |g.par| < INODES && EntryFits(s, dir, |g.own|))
  {
    hide Inv, Quiet, Made, IsEntry, DirSearch, StoreMeta, RoomForEntry, AppendEntry, Files, CoherentAt, LoadTable,
          CopiesKept;
    MakeBounds(s, dir, g);
    if dir < |g.par| && GoodName(name) && IsDir(s.itab, dir) {
      DirSearchSound(s, dir, name, g);
      var (s1, found) := DirSearch(s, dir, name);
      PagesOnlyQuiet(s, s1, g);
      NextInode(s1, g);
      if found.Err? && |g.par| < INODES {
        g' := MakeInDir(s, s1, dir, name, itype, g);
      } else {
        g' := g;
      }
    } else {
      g' := g;
      NothingQuiet(s, g);
    }
  }

  lemma MakeBounds(s: Fs, dir: nat, g: Owners)
    requires Inv(s, g)
    ensures |g.par| <= INODES
    ensures dir < INODES ==> (IsSet(s.inoMap, dir) <==> dir < |g.par|)
    ensures dir < |g.par| && IsDir(s.itab, dir) ==> 1 <= dir
  {
    if dir < INODES { UsedIffBelow(s, g, dir); }
    assert RowOk(s.itab[0], 0, g);
  }

  lemma NextInode(s: Fs, g: Owners)
    requires Inv(s, g)
    ensures FindFree(s.inoMap, 0, INODES) == if |g.par| < INODES then Some(|g.par|) else None
  {
    FindFreeIsNext(s.inoMap, |g.par|, INODES);
  }

  /** The part of the call after a search that missed. */
  lemma MakeInDir(s: Fs, s1: Fs, dir: InodeId, name: seq<byte>, itype: nat, g: Owners) returns (g': Owners)
    requires Inv(s, g) && 1 <= dir < |g.par| < INODES && GoodName(name) && IsDir(s.itab, dir)
          && (itype == FS_DIR || itype == FS_FILE)
    requires DirSearch(s, dir, name) == (s1, Err) && PagesOnly(s, s1) && Inv(s1, g) && Quiet(s, s1, g)
    requires FindFree(s1.inoMap, 0, INODES) == Some(|g.par|)
    requires IsSet(s.inoMap, dir)
    ensures var (s', r) := MakeNode(s, dir, name, itype);
      && MakeCall(s, s', r, dir, name, itype, g, g')
      && (r.Ok? <==> EntryFits(s, dir, |g.own|))
  {
    hide Inv, Quiet, Made, IsEntry, DirSearch, StoreMeta, RoomForEntry, AppendEntry, Files, CoherentAt, LoadTable,
          CopiesKept;
    InvLimits(s, g);
    MakeSteps(s1, dir, name, itype, g);
    if RoomForEntry(s1, dir).1.Ok? {
      g' := Joined(g, dir, s.itab[dir]);
      MadeCall(s, s1, MakeNode(s, dir, name, itype).0, dir, name, itype, g);
    } else {
      g' := g;
    }
  }

  lemma MadeCall(s: Fs, s1: Fs, s': Fs, dir: InodeId, name: seq<byte>, itype: nat, g: Owners)
    requires Inv(s, g) && Inv(s1, g) && PagesOnly(s, s1) && Quiet(s, s1, g) && GoodName(name)
    requires Made(s1, s', g, dir, name, itype)
    ensures MakeCall(s, s', Ok(|g.par|), dir, name, itype, g, Joined(g, dir, s.itab[dir]))
  {
    hide Inv, IsEntry, Files, CoherentAt, LoadTable, View, Quiet, MadeTree, NewRecord, EntryAdded, GoodName, Made,
          CopiesKept;
    forall n: nat ensures CopiesKept(s, s', n) {
      QuietCopies(s, s1, n, g);
      MadeCopiesKept(s1, s', g, dir, name, itype, n);
      CopiesKeptTwice(s, s1, s', n);
    }
    MadeParts(s1, s', g, dir, name, itype);
    UnchangedTables(s, s1);
    MadeCoherent(s1, s', g, dir, name, itype);
    MadeFiles(s1, s', g, dir, name, itype);
    PagesOnlyFiles(s, s1);
    AddedSince(s, s1, s', dir, name, |g.par|);
  }

  lemma MadeParts(s: Fs, s': Fs, g: Owners, dir: InodeId, name: seq<byte>, itype: nat)
    requires Inv(s, g) && Made(s, s', g, dir, name, itype)
    ensures dir < |g.par| < INODES && IsDir(s.itab, dir) && s'.icache == s.icache && s'.time == s.time
          && s'.NumBlocks() == s.NumBlocks()
    ensures Inv(s', Joined(g, dir, s.itab[dir])) && NewRecord(s', |g.par|, itype) && s'.itab[|g.par|].itype == itype
    ensures IsEntry(s'.store.disk, s'.itab, dir, name, |g.par|) && EntryAdded(s, s', dir, name, |g.par|)
    ensures forall o: nat :: o < INODES && o != dir && o != |g.par| ==> s'.itab[o] == s.itab[o]
    ensures s'.store.disk[0] == s'.blkMap && s'.store.disk[1] == s'.inoMap && LoadTable(s'.store.disk) == s'.itab
  {
    hide Inv, IsEntry, LoadTable, EntryAdded, View;
    MadeRecords(s, s', g, dir, name, itype);
    InvBounds(s, g);
  }

  lemma AddedSince(s: Fs, s1: Fs, s': Fs, dir: nat, name: seq<byte>, n: nat)
    requires PagesOnly(s, s1) && EntryAdded(s1, s', dir, name, n)
    ensures EntryAdded(s, s', dir, name, n)
  {
    hide IsEntry;
  }

  // ------------------------------------------------------------------ fs_readdir

  /** A stale copy of a directory still lists a prefix of its blocks, and few enough. */
  lemma CachedDirFacts(s: Fs, dir: nat, g: Owners)
    requires Inv(s, g) && 1 <= dir < |g.par| && IsDir(s.itab, dir)
    ensures DirPrefix(Eff(s, dir), s.itab[dir]) && Count(Eff(s, dir)) <= Count(s.itab[dir]) <= 62
  {
    hide StoreOk, PagesOk, MapsOk;
    DirectoriesAreSmall(s.store.disk, s.itab, g.par, dir);
    var k := InodeSlotOf(s.icache, dir);
    if k < INODE_SLOTS {
      assert SlotOk(s.icache[k], s.itab, g);
    }
  }

  /** What the type step of a listing does to the state. */
  lemma ListedTypeOk(s: Fs, n: nat, g: Owners)
    requires Inv(s, g)
    ensures var s' := ListedType(s, n).0;
      Quiet(s, s', g) && s'.store == s.store && s'.itab == s.itab
  {
    hide Inv, Quiet;
    var k := InodeSlotOf(s.icache, n);
    if k < INODE_SLOTS {
      TouchQuiet(s, k, g);
    } else {
      NothingQuiet(s, g);
    }
  }

  lemma TouchQuiet(s: Fs, k: nat, g: Owners)
    requires Inv(s, g) && k < INODE_SLOTS
    ensures Quiet(s, TouchInode(s, k), g)
  {
    var s' := TouchInode(s, k);
    TouchInodeKeepsInv(s, k, g);
    hide Inv, View, Content;
    TouchKeepsRecords(s, k);
  }

  lemma QuietTwice(s: Fs, s1: Fs, s2: Fs, g: Owners)
    requires Quiet(s, s1, g) && Quiet(s1, s2, g)
    ensures Quiet(s, s2, g)
  {
    hide Inv, RecordsKept, RecordsMoved, View;
    RecordsKeptTwice(s, s1, s2);
    RecordsMovedTwice(s, s1, s2, -1);
  }

  /** Lines of a listing that carry a name name an on-disk entry of the directory. */
  ghost predicate LinesSound(s: Fs, dir: nat, lines: seq<Listed>) {
    forall i :: 0 <= i < |lines| && lines[i].name != [] ==> exists m: nat :: IsEntry(s.store.disk, s.itab, dir,
          lines[i].name, m)
  }

  lemma {:induction false} ListPageOk(s: Fs, dir: nat, page: Block, j: nat, n: nat, acc: seq<Listed>, g: Owners)
    requires Inv(s, g) && Sound(s, dir, page) && LinesSound(s, dir, acc) && j <= n <= PAGE_ENTRIES
    ensures var (s', lines) := ListPage(s, page, j, n, acc);
      Quiet(s, s', g) && s'.store == s.store && s'.itab == s.itab && |lines| == |acc| + (n - j)
            && LinesSound(s, dir, lines)
    decreases n - j
  {
    hide Inv, Quiet, ListedType, IsEntry;
    if j < n {
      var e := PageEntry(page, j);
      ListedTypeOk(s, EntryInode(e), g);
      var (s1, t) := ListedType(s, EntryInode(e));
      var acc1 := acc + [Listed(EntryName(e), t)];
      LineAdded(s, dir, page, j, acc, t);
      QuietInv(s, s1, g);
      ListPageOk(s1, dir, page, j + 1, n, acc1, g);
      QuietTwice(s, s1, ListPage(s1, page, j + 1, n, acc1).0, g);
    } else {
      NothingQuiet(s, g);
    }
  }

  lemma QuietInv(s: Fs, s1: Fs, g: Owners)
    requires Quiet(s, s1, g)
    ensures Inv(s1, g)
  {
  }

  lemma LineAdded(s: Fs, dir: nat, page: Block, j: nat, acc: seq<Listed>, t: int)
    requires Sound(s, dir, page) && LinesSound(s, dir, acc) && j < PAGE_ENTRIES
    ensures LinesSound(s, dir, acc + [Listed(EntryName(PageEntry(page, j)), t)])
  {
    hide IsEntry;
    var name := EntryName(PageEntry(page, j));
    if name != [] { HitIsEntry(s, dir, page, name, j); }
  }

  /** The block loop of a listing has num entries of the copy ino to go, from block iblock on. */
  ghost predicate Listing(s: Fs, dir: nat, ino: Inode, iblock: nat, num: nat, acc: seq<Listed>, g: Owners) {
    && Inv(s, g) && 1 <= dir < |g.par| && IsDir(s.itab, dir) && DirPrefix(ino, s.itab[dir]) && LinesSound(s, dir, acc)
    && (num == 0 || num + PAGE_ENTRIES * iblock <= Count(ino))
  }

  lemma ListTurn(s: Fs, dir: InodeId, ino: Inode, iblock: nat, num: nat, acc: seq<Listed>, g: Owners)
    returns (s2: Fs, acc2: seq<Listed>)
    requires Listing(s, dir, ino, iblock, num, acc, g) && num > 0
    ensures iblock < 2
    ensures ListBlocks(s, dir, ino, iblock, num, acc)
          == ListBlocks(s2, dir, ino, iblock + 1, num - Min(PAGE_ENTRIES, num), acc2)
    ensures Listing(s2, dir, ino, iblock + 1, num - Min(PAGE_ENTRIES, num), acc2, g)
    ensures Quiet(s, s2, g) && s2.store == s.store && s2.itab == s.itab && |acc2| == |acc| + Min(PAGE_ENTRIES, num)
  {
    hide Inv, Quiet, FetchPage, ListPage, LinesSound, Sound;
    assert iblock < BlocksFor(ino.size) <= BlocksFor(s.itab[dir].size);
    DirBlock(s, dir, iblock, g);
    assert ino.blocks[iblock] == s.itab[dir].blocks[iblock];
    FetchPageOk(s, dir, iblock, g);
    var (s1, page) := FetchPage(s, dir, ino.blocks[iblock]);
    PagesOnlyQuiet(s, s1, g);
    SameSoundness(s, s1, dir, page.value, acc);
    var n := Min(PAGE_ENTRIES, num);
    ListPageOk(s1, dir, page.value, 0, n, acc, g);
    s2, acc2 := ListPage(s1, page.value, 0, n, acc).0, ListPage(s1, page.value, 0, n, acc).1;
    QuietTwice(s, s1, s2, g);
    QuietInv(s, s2, g);
    SameSoundness(s1, s2, dir, page.value, acc2);
  }

  lemma SameSoundness(s: Fs, s1: Fs, dir: nat, page: Block, acc: seq<Listed>)
    requires s1.store == s.store && s1.itab == s.itab
    ensures Sound(s1, dir, page) == Sound(s, dir, page) && LinesSound(s1, dir, acc) == LinesSound(s, dir, acc)
  {
    hide IsEntry;
  }

  lemma {:induction false} ListBlocksOk(s: Fs, dir: InodeId, ino: Inode, iblock: nat, num: nat, acc: seq<Listed>,
        g: Owners)
    requires Listing(s, dir, ino, iblock, num, acc, g)
    ensures var (s', r) := ListBlocks(s, dir, ino, iblock, num, acc);
      && Quiet(s, s', g) && s'.store == s.store && s'.itab == s.itab
      && r.Ok? && |r.value| == |acc| + num && LinesSound(s, dir, r.value)
    decreases num
  {
    hide Inv, Quiet, ListBlocks, Listing, LinesSound;
    if num > 0 {
      var s2, acc2 := ListTurn(s, dir, ino, iblock, num, acc, g);
      ListBlocksOk(s2, dir, ino, iblock + 1, num - Min(PAGE_ENTRIES, num), acc2, g);
      var (s', r) := ListBlocks(s2, dir, ino, iblock + 1, num - Min(PAGE_ENTRIES, num), acc2);
      QuietTwice(s, s2, s', g);
      SameSoundness(s, s2, dir, Zeros(BLOCK_SIZE), r.value);
    } else {
      ListDone(s, dir, ino, iblock, acc, g);
    }
  }

  lemma ListDone(s: Fs, dir: InodeId, ino: Inode, iblock: nat, acc: seq<Listed>, g: Owners)
    requires Listing(s, dir, ino, iblock, 0, acc, g)
    ensures ListBlocks(s, dir, ino, iblock, 0, acc) == (s, Ok(acc)) && Quiet(s, s, g) && LinesSound(s, dir, acc)
  {
    hide Inv, Quiet, LinesSound;
    NothingQuiet(s, g);
  }

  /** Stamps aside, the same copies and rows. */
  ghost predicate SameRecords(s: Fs, s': Fs) {
    forall m: nat :: m < INODES ==> Eff(s', m) == Eff(s, m)
  }

  lemma ListedTypeRecords(s: Fs, n: nat)
    ensures SameRecords(s, ListedType(s, n).0)
  {
    var k := InodeSlotOf(s.icache, n);
    if k < INODE_SLOTS {
      forall m: nat | m < INODES ensures Eff(TouchInode(s, k), m) == Eff(s, m) { TouchMovesRecords(s, k, m); }
    }
  }

  lemma {:induction false} ListPageRecords(s: Fs, page: Block, j: nat, n: nat, acc: seq<Listed>)
    requires n <= PAGE_ENTRIES
    ensures SameRecords(s, ListPage(s, page, j, n, acc).0)
    decreases n - j
  {
    hide ListedType, Eff;
    if j < n {
      var e := PageEntry(page, j);
      var (s1, t) := ListedType(s, EntryInode(e));
      ListedTypeRecords(s, EntryInode(e));
      ListPageRecords(s1, page, j + 1, n, acc + [Listed(EntryName(e), t)]);
    }
  }

  lemma FetchPageRecords(s: Fs, d: nat, b: nat)
    ensures SameRecords(s, FetchPage(s, d, b).0)
  {
    UnchangedTables(s, FetchPage(s, d, b).0);
  }

  lemma {:induction false} ListBlocksRecords(s: Fs, dir: InodeId, ino: Inode, iblock: nat, num: nat, acc: seq<Listed>)
    ensures SameRecords(s, ListBlocks(s, dir, ino, iblock, num, acc).0)
    decreases num
  {
    hide FetchPage, ListPage, Eff, Content;
    if num > 0 && iblock < INODE_BLOCKS {
      var (s1, page) := FetchPage(s, dir, ino.blocks[iblock]);
      FetchPageRecords(s, dir, ino.blocks[iblock]);
      if page.Some? {
        var n := Min(PAGE_ENTRIES, num);
        var (s2, acc2) := ListPage(s1, page.value, 0, n, acc);
        ListPageRecords(s1, page.value, 0, n, acc);
        ListBlocksRecords(s2, dir, ino, iblock + 1, num - n, acc2);
      }
    }
  }

  /**
   fs_readdir never leaves its arrays, and all it does to files is what looking the directory's inode up does. Its reply
   has at most 62 lines whatever the caller's limit, also from a stale cached inode, so it fits the 64 places the server
   has for it; every name in it is an on-disk entry of the directory.
   */
  lemma ReaddirOk(s: Fs, dir: nat, max: int, g: Owners)
    requires Inv(s, g)
    ensures var (s', r) := FsReaddir(s, dir, max);
      && Quiet(s, s', g) && !r.Abort? && (0 <= max ==> SeenAs(s, s', dir)) && (max < 0 ==> s' == s)
      && (r.Ok? <==> dir < |g.par| <= INODES && IsDir(s.itab, dir) && 0 <= max)
      && (r.Ok? ==> |r.value| == Min(Count(Eff(s, dir)), max) && |r.value| <= 62 && LinesSound(s, dir, r.value))
  {
    hide Inv, Quiet, Eff, ListBlocks, LinesSound, DirPrefix, Refers, NoDirtyCopy, Resident, SeenAs, RecordsKept,
          RecordsMoved, AfterAcquire;
    MakeBounds(s, dir, g);
    if dir < INODES && 0 <= max {
      var d: InodeId := dir;
      AcquireQuiet(s, d, g);
      AcquireKeepsCoherence(s, d, g);
      QuietSeen(s, Acquire(s, d).0, d, g);
      AcquireKeepsInv(s, d, g);
      AcquireFinds(s, d, g);
      FileFacts(s, d, g);
      var (s1, ref) := Acquire(s, d);
      if dir < |g.par| && IsDir(s.itab, dir) {
        CachedDirFacts(s, dir, g);
        ListAcquired(s, s1, d, Eff(s, dir), max, g);
      } else {
        QuietInv(s, s1, g);
      }
    } else {
      NothingQuiet(s, g);
      if 0 <= max { NothingSeen(s, dir); }
    }
  }

  lemma ListAcquired(s: Fs, s1: Fs, dir: InodeId, ino: Inode, max: int, g: Owners)
    requires Inv(s, g) && Quiet(s, s1, g) && 1 <= dir < |g.par| && IsDir(s.itab, dir) && 0 <= max
    requires s1 == Acquire(s, dir).0 && DirPrefix(ino, s.itab[dir])
    ensures var (s', r) := ListBlocks(s1, dir, ino, 0, Min(Count(ino), max), []);
      && Quiet(s, s', g) && SeenAs(s, s', dir)
      && r.Ok? && |r.value| == Min(Count(ino), max) && LinesSound(s, dir, r.value)
  {
    hide Inv, ListBlocks, DirPrefix, Eff, AfterAcquire, SeenAs, RecordsKept, RecordsMoved;
    QuietInv(s, s1, g);
    assert s1.itab == s.itab || SameDirRows(s.itab, s1.itab) by { WriteBackSame(s, g); }
    hide Quiet;
    ListBlocksOk(s1, dir, ino, 0, Min(Count(ino), max), [], g);
    var (s', r) := ListBlocks(s1, dir, ino, 0, Min(Count(ino), max), []);
    QuietTwice(s, s1, s', g);
    AcquireKeepsCoherence(s, dir, g);
    ListBlocksRecords(s1, dir, ino, 0, Min(Count(ino), max), []);
    QuietSeen(s, s', dir, g);
    LinesBack(s, s1, dir, r.value);
  }

  lemma WriteBackSame(s: Fs, g: Owners)
    requires Inv(s, g)
    ensures SameDirRows(s.itab, WriteBack(s))
  {
    WriteBackOk(s, g);
  }

  lemma LinesBack(s: Fs, s1: Fs, dir: nat, lines: seq<Listed>)
    requires s1.store == s.store && dir < INODES && s1.itab[dir] == s.itab[dir] && LinesSound(s1, dir, lines)
    ensures LinesSound(s, dir, lines)
  {
    forall i | 0 <= i < |lines| && lines[i].name != []
      ensures exists m: nat :: IsEntry(s.store.disk, s.itab, dir, lines[i].name, m)
    {
      var m: nat :| IsEntry(s1.store.disk, s1.itab, dir, lines[i].name, m);
      assert IsEntry(s.store.disk, s.itab, dir, lines[i].name, m);
    }
  }
}
