/** Exactly when fs_copy succeeds, in terms of lookups and searches, and what entry it then adds. */
module FsCopyLaw {
  import opened Bytes
  import opened Slots
  import opened BlockStore
  import opened FsState
  import opened FsTree
  import opened FsInv
  import opened FsContent
  import opened FsAlloc
  import opened FsCoherence
  import opened FsCalls
  import opened FsMeta
  import opened FsDirs
  import opened FsSearch
  import opened FsMake
  import opened FsNamespace
  import opened FsCopying

  // ------------------------------------------------------------------ the target

  /** The directory of the target is found and takes the name: there is no entry of that name, an inode and a block. */
  ghost predicate TakesName(s: Fs, dirPart: seq<byte>, name: seq<byte>, g: Owners) {
    var (s1, l) := FsLookup(s, dirPart);
    && l.Found? && l.id < INODES && IsDir(s.itab, l.id)
    && GoodName(name) && DirSearch(s1, l.id, name).1.Err?
    && |g.par| < INODES && EntryFits(s, l.id, |g.own|)
  }

  /** Blocks in use once the entry has been added. */
  function UsedAfterEntry(s: Fs, dir: nat, used: nat): nat
    requires dir < INODES
  {
    used + if s.itab[dir].size % BLOCK_SIZE == 0 then 1 else 0
  }

  lemma TargetIff(s: Fs, dirPart: seq<byte>, name: seq<byte>, g: Owners) returns (g': Owners)
    requires Inv(s, g) && IsCString(name)
    ensures var ((s1, l), (s', made)) := (FsLookup(s, dirPart), MakeTarget(s, dirPart, name));
      && (made.Ok? <==> TakesName(s, dirPart, name, g))
      && (made.Ok? ==>
            && (s', made) == FsCreate(s1, l.id, name) && made.value == |g.par| && Inv(s', g')
            && |g'.own| == UsedAfterEntry(s, l.id, |g.own|)
            && EntryAdded(s, s', l.id, name, |g.par|) && s'.icache == s.icache && s'.NumBlocks() == s.NumBlocks())
  {
    hide Inv, FsLookup, MakeNode, Quiet, Files, CoherentAt, Resolves, IsEntry, LoadTable, EntryAdded, GoodName,
          CopiesKept, DirSearch;
    LookupSound(s, dirPart, g);
    var (s1, l) := FsLookup(s, dirPart);
    g' := g;
    if l.Found? {
      MakeBounds(s1, l.id, g);
      g' := MakeNodeOk(s1, l.id, name, FS_FILE, g);
      var (s2, r) := MakeNode(s1, l.id, name, FS_FILE);
      if r.Ok? { AddedSince(s, s1, s2, l.id, name, |g.par|); }
    }
  }

  // ------------------------------------------------------------------ the source

  /** Stamped with the present time the inode's slot is still the one replaced next. */
  predicate Replaced(s: Fs, n: InodeId) {
    var (k, times) := (InodeSlotOf(s.icache, n), InodeTimes(s.icache));
    k < INODE_SLOTS && Oldest(times[k := s.time(s.ticks)], k, INODE_SLOTS)
  }

  lemma ReplacedIff(s: Fs, n: InodeId)
    requires Resident(s, n)
    ensures Replaced(s, n) <==> !SourceStays(s, n)
  {
    var (k, times) := (InodeSlotOf(s.icache, n), InodeTimes(s.icache));
    assert InodeTimes(Hold(s, n, false).0.icache) == times[k := s.time(s.ticks)];
  }

  /** All that a copy from the source inode needs, once the source is cached in state s2. */
  ghost predicate TargetWorks(s: Fs, s2: Fs, from: InodeId, tgtPath: seq<byte>, g: Owners) {
    && LastSlash(tgtPath).Some? && TargetFits(tgtPath) && TakesName(s2, DirPart(tgtPath), FileName(tgtPath), g)
    && var (s3, d) := FsLookup(s2, DirPart(tgtPath));
       || Replaced(FsCreate(s3, d.id, FileName(tgtPath)).0, from)
       || UsedAfterEntry(s2, d.id, |g.own|) + BlocksFor(Eff(s, from).size) <= s.NumBlocks()
  }

  /**
   The source path is found and is a file; the target fits, its directory is found and takes the name; and the disk has
   room for the data, or the new inode replaces the source's cached copy, so that nothing is left to copy.
   */
  ghost predicate CopyWorks(s: Fs, srcPath: seq<byte>, tgtPath: seq<byte>, g: Owners) {
    var (s1, l) := FsLookup(s, srcPath);
    && l.Found? && l.id < INODES && s.itab[l.id].itype == FS_FILE
    && TargetWorks(s, FsGetAttrs(s1, l.id).0, l.id, tgtPath, g)
  }

  lemma OneOwnSize(s: Fs, g: Owners, h: Owners)
    requires Inv(s, g) && Inv(s, h)
    ensures |g.own| == |h.own|
  {
    NextFreeBlock(s, g);
    NextFreeBlock(s, h);
    InvLimits(s, g);
    InvLimits(s, h);
  }

  /** The attributes step leaves the source cached with the record in use before. */
  lemma SourceHeld(s: Fs, s1: Fs, id: nat, g: Owners)
    requires Inv(s, g) && PagesOnly(s, s1) && Inv(s1, g) && 1 <= id < |g.par|
    ensures id < INODES && var s2 := FsGetAttrs(s1, id).0;
      && Quiet(s1, s2, g) && s2.itab[id].itype == s.itab[id].itype && Resident(s2, id) && Eff(s2, id) == Eff(s, id)
      && s2.NumBlocks() == s.NumBlocks()
  {
    hide RowsOk, SlotsOk, StoreOk, TreeOk, OwnersOk, PagesOk, SeenAs, RecordsKept, RecordsMoved, SameViewsBelow;
    GetAttrsOk(s1, id, g);
    AcquireKeepsCoherence(s1, id, g);
    UnchangedTables(s, s1);
  }

  lemma CachedAfterTarget(s2: Fs, s3: Fs, from: InodeId)
    requires s3.icache == s2.icache && Resident(s2, from)
    ensures Resident(s3, from) && Eff(s3, from) == Eff(s2, from)
  {
  }

  /** From the source on. */
  lemma IntoWorksIff(s: Fs, s2: Fs, from: InodeId, tgtPath: seq<byte>, g: Owners)
    requires Inv(s2, g) && IsCString(tgtPath) && IsFile(s2, from) && Resident(s2, from) && Eff(s2, from) == Eff(s, from)
    requires s2.NumBlocks() == s.NumBlocks() && LastSlash(tgtPath).Some? && TargetFits(tgtPath)
    ensures var (s', r) := CopyInto(s2, from, DirPart(tgtPath), FileName(tgtPath));
      && (r.Ok? <==> TargetWorks(s, s2, from, tgtPath, g))
      && (r.Ok? ==>
            var (s3, d) := FsLookup(s2, DirPart(tgtPath));
            && EntryAdded(s2, s', d.id, FileName(tgtPath), |g.par|)
            && MetaKept(FsCreate(s3, d.id, FileName(tgtPath)).0, s'))
  {
    hide Inv, FsLookup, MakeNode, MakeTarget, IsFile, Resident, Eff, EntryAdded, Replaced, SourceStays, OnlySlashes,
          CopyInto, GoodName, DirSearch, SameEntries;
    var (dirPart, name) := (DirPart(tgtPath), FileName(tgtPath));
    var g3 := TargetIff(s2, dirPart, name, g);
    if MakeTarget(s2, dirPart, name).1.Ok? {
      var (s3, made) := MakeTarget(s2, dirPart, name);
      CachedAfterTarget(s2, s3, from);
      ReplacedIff(s3, from);
      NotOfSlashes(s2, dirPart);
      DataWorksIff(s2, from, dirPart, name, g, g3);
      var d := FsLookup(s2, dirPart).1.id;
      if CopyInto(s2, from, dirPart, name).1.Ok? {
        AddedThenSame(s2, s3, CopyInto(s2, from, dirPart, name).0, d, name, |g.par|);
      }
    } else {
      NoTargetNoCopy(s2, from, dirPart, name);
    }
  }

  lemma AddedThenSame(s: Fs, s1: Fs, s': Fs, dir: nat, name: seq<byte>, n: nat)
    requires EntryAdded(s, s1, dir, name, n) && SameEntries(s1, s')
    ensures EntryAdded(s, s', dir, name, n)
  {
    hide IsEntry;
  }

  lemma SameThenAdded(s: Fs, s1: Fs, s': Fs, dir: nat, name: seq<byte>, n: nat)
    requires SameEntries(s, s1) && EntryAdded(s1, s', dir, name, n)
    ensures EntryAdded(s, s', dir, name, n)
  {
    hide IsEntry;
  }

  lemma NoTargetNoCopy(s: Fs, from: InodeId, dirPart: seq<byte>, name: seq<byte>)
    requires !MakeTarget(s, dirPart, name).1.Ok?
    ensures !CopyInto(s, from, dirPart, name).1.Ok?
  {
    hide MakeTarget, CopyData;
  }

  lemma NotOfSlashes(s: Fs, path: seq<byte>)
    requires FsLookup(s, path).1.Found?
    ensures !OnlySlashes(path)
  {
    RootOnlyIff(s, path);
  }

  /** With the target there, only the size of the disk can fail it; nothing after the entry changes a directory. */
  lemma DataWorksIff(s: Fs, from: InodeId, dirPart: seq<byte>, name: seq<byte>, g: Owners, g3: Owners)
    requires Inv(s, g) && IsCString(name) && !OnlySlashes(dirPart) && IsFile(s, from) && Resident(s, from)
    requires var (s3, made) := MakeTarget(s, dirPart, name); made.Ok? && Inv(s3, g3) && made.value == |g.par|
    ensures var ((s3, made), (s', r)) := (MakeTarget(s, dirPart, name), CopyInto(s, from, dirPart, name));
      && (r.Ok? <==> SourceStays(s3, from) ==> |g3.own| + BlocksFor(Eff(s3, from).size) <= s3.NumBlocks())
      && SameEntries(s3, s') && MetaKept(s3, s')
  {
    hide Inv, MakeTarget, CopyInto, IsFile, Resident, Eff, Content, SourceStays, CopyCall, SeenAfterCopy, ContentOf,
          OthersAsHeld, UsesOwned, Unseen;
    var g2, g' := CopyIntoOk(s, from, dirPart, name, g);
    var s3 := MakeTarget(s, dirPart, name).0;
    OneOwnSize(s3, g2, g3);
    UnseenKeepsEntries(s3, CopyInto(s, from, dirPart, name).0, g2, g');
    UnseenKeepsMeta(s3, CopyInto(s, from, dirPart, name).0, g2, g');
  }

  /**
   fs_copy succeeds exactly when CopyWorks holds; then the entry is in the directory that the target's path gave, and
   blocks 0-9 of the disk are as the creation of the new file stored them, without the data's blocks.
   */
  lemma CopyWorksIff(s: Fs, srcPath: seq<byte>, tgtPath: seq<byte>, g: Owners)
    requires Inv(s, g) && IsCString(tgtPath)
    ensures var (s', r) := FsCopy(s, srcPath, tgtPath);
      && (r.Ok? <==> CopyWorks(s, srcPath, tgtPath, g))
      && (r.Ok? ==>
            var (s1, l) := FsLookup(s, srcPath);
            var (s3, d) := FsLookup(FsGetAttrs(s1, l.id).0, DirPart(tgtPath));
            && EntryAdded(s, s', d.id, FileName(tgtPath), |g.par|)
            && MetaKept(FsCreate(s3, d.id, FileName(tgtPath)).0, s'))
  {
    hide Inv, FsLookup, FsGetAttrs, CopyInto, Quiet, Resolves, IsFile, Resident, Eff, EntryAdded, SameEntries, GoodName,
          DirSearch, Replaced, MakeNode, TargetFits;
    LookupSound(s, srcPath, g);
    var (s1, l) := FsLookup(s, srcPath);
    if l.Found? {
      SourceHeld(s, s1, l.id, g);
      CopySource(s1, l.id, g);
      SourceType(s1, l.id, g);
      var s2 := FsGetAttrs(s1, l.id).0;
      QuietInv(s1, s2, g);
      if s.itab[l.id].itype == FS_FILE && LastSlash(tgtPath).Some? && TargetFits(tgtPath) {
        IntoWorksIff(s, s2, l.id, tgtPath, g);
        QuietKeepsEntries(s1, s2, g);
        PagesOnlyQuiet(s, s1, g);
        QuietKeepsEntries(s, s1, g);
        SameEntriesTwice(s, s1, s2);
        if FsCopy(s, srcPath, tgtPath).1.Ok? {
          SameThenAdded(s, s2, FsCopy(s, srcPath, tgtPath).0, FsLookup(s2, DirPart(tgtPath)).1.id, FileName(tgtPath),
                        |g.par|);
        }
      }
    }
  }
}
