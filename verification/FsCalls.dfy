/**
 fs_get_attrs, fs_read and fs_write seen from outside: a map from inode numbers to byte sequences.
 */
module FsCalls {
  import opened Bytes
  import opened Bitmap
  import opened BlockStore
  import opened FsState
  import opened FsFiles
  import opened FsTree
  import opened FsInv
  import opened FsContent
  import opened FsAlloc
  import opened FsWriting
  import opened FsCoherence

  predicate IsFile(s: Fs, n: nat) {
    n < INODES && IsSet(s.inoMap, n) && s.itab[n].itype == FS_FILE
  }

  /** The abstract state: what every file contains. */
  ghost function Files(s: Fs): map<nat, seq<byte>> {
    map n: nat | n < INODES && IsFile(s, n) :: Content(s.store, Eff(s, n))
  }

  /** What one file contains. */
  function ContentOf(s: Fs, n: nat): Option<seq<byte>> {
    if IsFile(s, n) then Some(Content(s.store, Eff(s, n))) else None
  }

  /** A coherent inode stays coherent and, if it is a file, keeps its content. */
  ghost predicate FileSame(s: Fs, s': Fs, n: nat) {
    1 <= n < INODES && CoherentAt(s, n) ==> CoherentAt(s', n) && ContentOf(s', n) == ContentOf(s, n)
  }

  /** What file m contains after inode n has been looked up: that can push out a copy of m. */
  function SeenAfter(s: Fs, n: nat, m: nat): Option<seq<byte>> {
    if IsFile(s, m) then Some(Content(s.store, AfterAcquire(s, n, m))) else None
  }

  /** Every file, coherent or not, contains what it does after inode n has been looked up. */
  ghost predicate SeenAs(s: Fs, s': Fs, n: nat) {
    forall m: nat :: ContentOf(s', m) == SeenAfter(s, n, m)
  }

  /** What a read of count bytes at an offset may return. */
  function Slice(c: seq<byte>, offset: nat, count: nat): seq<byte> {
    if offset >= |c| then [] else c[offset..offset + Min(count, |c| - offset)]
  }

  lemma FileFacts(s: Fs, n: nat, g: Owners)
    requires Inv(s, g) && n < INODES
    ensures IsFile(s, n) <==> n < |g.par| && s.itab[n].itype == FS_FILE
    ensures IsFile(s, n) ==> 1 <= n && UsesOwned(Eff(s, n), n, g.own) && Fits(Eff(s, n))
    ensures Eff(s, n).itype == s.itab[n].itype
  {
    hide StoreOk, TreeOk, PagesOk, UsesOwned, Fits;
    UsedIffBelow(s, g, n);
    assert RowOk(s.itab[n], n, g);
    var k := InodeSlotOf(s.icache, n);
    if k < INODE_SLOTS {
      assert SlotOk(s.icache[k], s.itab, g);
    }
  }

  /** Views of all blocks below n are the same. */
  ghost predicate SameViewsBelow(st: Store, st': Store, n: nat) {
    SameBlockZero(st, st') && forall c: nat :: 0 < c < n && c < |st.disk| ==> View(st', c) == View(st, c)
  }

  lemma SameViewsBelowContent(st: Store, st': Store, ino: Inode, n: nat, own: seq<(nat, nat)>)
    requires UsesOwned(ino, n, own) && SameViewsBelow(st, st', |own|) && |own| <= |st.disk|
    ensures Content(st', ino) == Content(st, ino)
  {
    hide View, Content;
    forall i: nat | i < INODE_BLOCKS && i < BlocksFor(ino.size)
      ensures View(st', ino.blocks[i]) == View(st, ino.blocks[i])
    {
      assert Owns(own, ino.blocks[i], n, i);
    }
    ContentFrame(st, st', ino);
  }

  /** One file's content is unchanged if its record is the same file and no used block changed its view. */
  lemma OneFileKept(s: Fs, s': Fs, n: nat, g: Owners)
    requires Inv(s, g) && IsFile(s, n) && SameFile(Eff(s, n), Eff(s', n))
    requires SameViewsBelow(s.store, s'.store, |g.own|)
    ensures Content(s'.store, Eff(s', n)) == Content(s.store, Eff(s, n))
  {
    hide Inv, SameFile, SameViewsBelow, View, Content;
    FileFacts(s, n, g);
    InvBounds(s, g);
    SameViewsBelowContent(s.store, s'.store, Eff(s, n), n, g.own);
    assert Eff(s, n).size <= MAX_FILE;
    SameFileSameContent(s'.store, Eff(s, n), Eff(s', n));
  }

  lemma FileKept(s: Fs, s': Fs, n: nat, g: Owners)
    requires Inv(s, g) && 1 <= n < INODES && RecordKept(s, s', n) && s'.inoMap == s.inoMap
    requires s'.itab[n].itype == s.itab[n].itype && SameViewsBelow(s.store, s'.store, |g.own|)
    ensures FileSame(s, s', n)
  {
    hide Inv, SameFile, SameViewsBelow, View, Content, Eff, CoherentAt;
    if CoherentAt(s, n) && IsFile(s, n) { OneFileKept(s, s', n, g); }
  }

  /** If every file keeps its content, so does the map of all files. */
  lemma SameFiles(s: Fs, s': Fs)
    requires Coherent(s) && forall n: nat :: FileSame(s, s', n)
    requires !IsFile(s, 0) && !IsFile(s', 0)
    ensures Coherent(s') && Files(s') == Files(s)
  {
    hide CoherentAt, IsFile, Content, Eff;
    forall n: nat | 1 <= n < INODES ensures CoherentAt(s', n) && ContentOf(s', n) == ContentOf(s, n) {
      assert FileSame(s, s', n);
    }
    forall n: nat | n < INODES
      ensures IsFile(s', n) == IsFile(s, n)
      ensures IsFile(s, n) ==> Content(s'.store, Eff(s', n)) == Content(s.store, Eff(s, n))
    {
      assert n == 0 || ContentOf(s', n) == ContentOf(s, n);
    }
  }

  lemma ZeroIsNoFile(s: Fs, g: Owners)
    requires Inv(s, g)
    ensures !IsFile(s, 0)
  {
    FileFacts(s, 0, g);
  }

  /** What an operation that does not write leaves behind. */
  ghost predicate Quiet(s: Fs, s': Fs, g: Owners) {
    && Inv(s', g) && s'.time == s.time && s'.NumBlocks() == s.NumBlocks() && s'.inoMap == s.inoMap
          && s'.blkMap == s.blkMap
    && SameViewsBelow(s.store, s'.store, |g.own|)
    && SameDirRows(s.itab, s'.itab)
    && RecordsKept(s, s') && RecordsMoved(s, s', -1)
  }

  /** Every record of a used inode uses blocks of that inode. */
  lemma RecordOwned(s: Fs, n: nat, r: Inode, g: Owners)
    requires Inv(s, g) && IsFile(s, n) && RecordOf(s, n, r)
    ensures UsesOwned(r, n, g.own) && r.size <= MAX_FILE
  {
    hide StoreOk, TreeOk, PagesOk;
    FileFacts(s, n, g);
    assert RowOk(s.itab[n], n, g);
    if r != s.itab[n] {
      var k: nat :| CopyOf(s, n, k, r);
      assert SlotOk(s.icache[k], s.itab, g);
    }
  }

  /** File n is still one, has no record that it did not have, and each has the content it had. */
  ghost predicate CopiesKept(s: Fs, s': Fs, n: nat) {
    IsFile(s, n) ==> IsFile(s', n) && forall r: Inode :: RecordOf(s', n, r) ==> RecordHeld(s, s', n, r)
  }

  ghost predicate RecordHeld(s: Fs, s': Fs, n: nat, r: Inode) {
    RecordOf(s, n, r) && Content(s'.store, r) == Content(s.store, r)
  }

  lemma CopiesKeptTwice(s: Fs, s1: Fs, s2: Fs, n: nat)
    requires CopiesKept(s, s1, n) && CopiesKept(s1, s2, n)
    ensures CopiesKept(s, s2, n)
  {
    hide RecordOf, Content, IsFile;
    forall r: Inode | IsFile(s, n) && RecordOf(s2, n, r) ensures RecordHeld(s, s2, n, r) {
      assert RecordHeld(s1, s2, n, r) && RecordHeld(s, s1, n, r);
    }
  }

  /** Steps that change no block in use keep all records they do not replace. */
  lemma CopiesByViews(s: Fs, s': Fs, n: nat, g: Owners)
    requires Inv(s, g) && 1 <= n < INODES && RecordMoved(s, s', n) && s'.inoMap == s.inoMap
    requires s'.itab[n].itype == s.itab[n].itype && SameViewsBelow(s.store, s'.store, |g.own|)
    ensures CopiesKept(s, s', n)
  {
    InvBounds(s, g);
    hide Inv, SameViewsBelow, Content, RecordOf, UsesOwned;
    forall r: Inode | IsFile(s, n) && RecordOf(s', n, r) ensures RecordHeld(s, s', n, r) {
      RecordOwned(s, n, r, g);
      SameViewsBelowContent(s.store, s'.store, r, n, g.own);
    }
  }

  /** The record in use is one of them. */
  lemma SeenIsCopy(s: Fs, s': Fs, n: nat)
    requires IsFile(s, n) && CopiesKept(s, s', n)
    ensures exists r: Inode :: RecordOf(s, n, r) && ContentOf(s', n) == Some(Content(s.store, r))
  {
    hide RecordOf, Content, Eff;
    EffIsRecord(s', n);
    assert RecordHeld(s, s', n, Eff(s', n));
  }

  lemma QuietCopies(s: Fs, s': Fs, n: nat, g: Owners)
    requires Inv(s, g) && Quiet(s, s', g)
    ensures CopiesKept(s, s', n)
  {
    hide Inv, SameViewsBelow, RecordsKept, RecordMoved, RecordHeld;
    ZeroIsNoFile(s, g);
    if 1 <= n < INODES { CopiesByViews(s, s', n, g); }
  }

  /** What an operation that does not write makes of the contents, given the records in use afterwards. */
  lemma QuietSeen(s: Fs, s': Fs, n: nat, g: Owners)
    requires Inv(s, g) && Quiet(s, s', g)
    requires forall m: nat :: m < INODES ==> Eff(s', m) == AfterAcquire(s, n, m)
    ensures SeenAs(s, s', n)
  {
    hide Inv, SameViewsBelow, RecordsKept, RecordsMoved, Content, Eff, AfterAdd, RecordOf, UsesOwned;
    InvBounds(s, g);
    forall m: nat | m < INODES && IsFile(s, m)
      ensures Content(s'.store, AfterAcquire(s, n, m)) == Content(s.store, AfterAcquire(s, n, m))
    {
      EffIsRecord(s, m);
      AfterAddIsRecord(s, m);
      RecordOwned(s, m, AfterAcquire(s, n, m), g);
      SameViewsBelowContent(s.store, s'.store, AfterAcquire(s, n, m), m, g.own);
    }
  }

  /** A file is seen through the record in use, whichever that is, when no block in use changed. */
  lemma SeenThrough(s: Fs, s': Fs, m: nat, r: Inode, g: Owners)
    requires Inv(s, g) && m < INODES && s'.inoMap == s.inoMap && s'.itab[m].itype == s.itab[m].itype
    requires SameViewsBelow(s.store, s'.store, |g.own|) && Eff(s', m) == r && RecordOf(s, m, r)
    ensures ContentOf(s', m) == if IsFile(s, m) then Some(Content(s.store, r)) else None
  {
    InvBounds(s, g);
    hide Inv, SameViewsBelow, Content, Eff, RecordOf, UsesOwned;
    if IsFile(s, m) {
      RecordOwned(s, m, r, g);
      SameViewsBelowContent(s.store, s'.store, r, m, g.own);
    }
  }

  /** Nothing looked up, nothing changed. */
  lemma NothingSeen(s: Fs, n: nat)
    requires n >= INODES
    ensures SeenAs(s, s, n)
  {
    hide Content, Eff;
  }

  /** Such an operation changes no coherent file. */
  lemma QuietFiles(s: Fs, s': Fs, g: Owners)
    requires Inv(s, g) && Quiet(s, s', g)
    ensures forall n: nat :: FileSame(s, s', n)
    ensures Coherent(s) ==> Coherent(s') && Files(s') == Files(s)
  {
    hide Inv, SameViewsBelow, ContentOf, CoherentAt, RecordKept, Files, IsFile;
    forall n: nat | 1 <= n < INODES ensures FileSame(s, s', n) { FileKept(s, s', n, g); }
    ZeroIsNoFile(s, g);
    ZeroIsNoFile(s', g);
    if Coherent(s) { SameFiles(s, s'); }
  }

  lemma AcquireQuiet(s: Fs, n: InodeId, g: Owners)
    requires Inv(s, g)
    ensures Quiet(s, Acquire(s, n).0, g)
  {
    var s' := Acquire(s, n).0;
    hide StoreOk, TreeOk, PagesOk, View, RecordsKept, RecordsMoved;
    AcquireKeepsInv(s, n, g);
    WriteBackOk(s, g);
    AcquireKeepsCoherence(s, n, g);
  }

  // ------------------------------------------------------------------ fs_get_attrs

  /**
   fs_get_attrs answers for exactly the used inodes, with number, type, size and, for a directory, how many entries that
   size holds. It ends the process for inode 0 alone, the one used inode that is neither file nor directory. What it
   does to files is what looking the inode up does.
   */
  lemma GetAttrsOk(s: Fs, file: nat, g: Owners)
    requires Inv(s, g)
    ensures var (s', r) := FsGetAttrs(s, file);
      && Quiet(s, s', g) && SeenAs(s, s', file)
      && (r == Abort <==> file == 0)
      && (r.Ok? <==> 1 <= file < |g.par|)
      && (r.Ok? ==>
            var (itype, size) := (s.itab[file].itype, Eff(s, file).size);
            && Resident(s', file)
            && r.value == Attrs(file, itype, size, if itype == FS_DIR then size / ENTRY_SIZE else -1))
  {
    if file < INODES {
      hide Quiet, Inv, SeenAs, AfterAcquire, RecordsKept, RecordsMoved;
      AcquireKeepsCoherence(s, file, g);
      AcquireQuiet(s, file, g);
      QuietSeen(s, Acquire(s, file).0, file, g);
      AcquireKeepsInv(s, file, g);
      AcquireFinds(s, file, g);
      FileFacts(s, file, g);
      TypesOf(s, file, g);
    } else {
      NothingQuiet(s, g);
      hide Inv, SeenAs;
      InvBounds(s, g);
      NothingSeen(s, file);
    }
  }

  lemma TypesOf(s: Fs, n: nat, g: Owners)
    requires Inv(s, g) && n < INODES
    ensures 1 <= n < |g.par| ==> s.itab[n].itype == FS_DIR || s.itab[n].itype == FS_FILE
    ensures n == 0 || |g.par| <= n ==> s.itab[n].itype == 0
    ensures 2 <= |g.par| <= INODES
  {
    assert RowOk(s.itab[n], n, g);
  }

  lemma NothingQuiet(s: Fs, g: Owners)
    requires Inv(s, g)
    ensures Quiet(s, s, g)
  {
    RecordsKeptRefl(s);
  }

  // ------------------------------------------------------------------ fs_read

  /**
   fs_read answers for exactly the files and returns exactly the requested bytes of the content, whatever inodes and
   blocks it evicts. What it does to files is what looking the inode up does.
   */
  lemma ReadOk(s: Fs, file: nat, offset: nat, count: nat, g: Owners)
    requires Inv(s, g)
    ensures var (s', r) := FsRead(s, file, offset, count);
      && Quiet(s, s', g) && SeenAs(s, s', file)
      && r == if file < INODES && IsFile(s, file) then Ok(Slice(Content(s.store, Eff(s, file)), offset, count)) else Err
  {
    if file < INODES {
      ReadFileOk(s, file, offset, count, g);
    } else {
      NothingQuiet(s, g);
      NothingSeen(s, file);
    }
  }

  lemma ReadFileOk(s: Fs, file: InodeId, offset: nat, count: nat, g: Owners)
    requires Inv(s, g)
    ensures var (s', r) := FsRead(s, file, offset, count);
      && Quiet(s, s', g) && SeenAs(s, s', file)
      && r == if IsFile(s, file) then Ok(Slice(Content(s.store, Eff(s, file)), offset, count)) else Err
  {
    hide Inv, Quiet, Eff, Content, ReadLoop, Resident, Refers, NoDirtyCopy, UsesOwned, Fits, SeenAs, RecordsKept,
          RecordsMoved, AfterAcquire;
    AcquireQuiet(s, file, g);
    AcquireKeepsCoherence(s, file, g);
    QuietSeen(s, Acquire(s, file).0, file, g);
    AcquireKeepsInv(s, file, g);
    AcquireFinds(s, file, g);
    FileFacts(s, file, g);
    TypesOf(s, file, g);
    var (s1, ref) := Acquire(s, file);
    if ref.Some? && IsFile(s, file) {
      QuietType(s, s1, file, g);
      var ino := Eff(s, file);
      if offset < ino.size {
        ReadFromOffset(s1, ino, file, offset, Min(count, ino.size - offset), g);
        QuietThenStore(s, s1, FsRead(s, file, offset, count).0, g);
        UnchangedTables(s1, FsRead(s, file, offset, count).0);
        QuietSeen(s, FsRead(s, file, offset, count).0, file, g);
      }
    }
  }

  /** Inode n is to be brought in, m's first copy is in the slot it takes, and what is left behind has other content. */
  predicate ChangesSeen(s: Fs, n: nat, m: nat)
    requires m < INODES
  {
    Brings(s, n) && m != n && PushedOut(s, m) && Content(s.store, LeftBehind(s, m)) != Content(s.store, Eff(s, m))
  }

  /**
   Exactly when fs_get_attrs and fs_read of inode n change what file m contains; no coherent inode meets this.
   */
  lemma LookingUpChangesIff(s: Fs, n: nat, offset: nat, count: nat, m: nat, g: Owners)
    requires Inv(s, g) && IsFile(s, m)
    ensures ContentOf(FsGetAttrs(s, n).0, m) != ContentOf(s, m) <==> ChangesSeen(s, n, m)
    ensures ContentOf(FsRead(s, n, offset, count).0, m) != ContentOf(s, m) <==> ChangesSeen(s, n, m)
    ensures CoherentAt(s, m) ==> !ChangesSeen(s, n, m)
  {
    hide Inv, Content, Quiet, CoherentAt, LeftBehind, FsGetAttrs, FsRead, Eff;
    FileFacts(s, m, g);
    GetAttrsOk(s, n, g);
    ReadOk(s, n, offset, count, g);
    QuietFiles(s, FsGetAttrs(s, n).0, g);
    assert FileSame(s, FsGetAttrs(s, n).0, m);
    assert ContentOf(FsGetAttrs(s, n).0, m) == SeenAfter(s, n, m) == ContentOf(FsRead(s, n, offset, count).0, m);
  }

  lemma QuietType(s: Fs, s1: Fs, n: nat, g: Owners)
    requires Quiet(s, s1, g) && n < INODES
    ensures s1.itab[n].itype == s.itab[n].itype
  {
  }

  lemma ReadFromOffset(s: Fs, ino: Inode, n: nat, offset: nat, max: nat, g: Owners)
    requires Inv(s, g) && n < INODES && s.itab[n].itype == FS_FILE && UsesOwned(ino, n, g.own)
    requires offset + max <= ino.size
    ensures var (s', r) := ReadLoop(s, ino, offset, max, offset / BLOCK_SIZE, []);
      && Inv(s', g) && s' == s.(store := s'.store, ticks := s'.ticks)
      && r == Ok(Content(s.store, ino)[offset..offset + max]) && SameViewsBut(s.store, s'.store, 0)
  {
    hide Inv, Content, UsesOwned;
    ReadLoopOk(s, ino, n, offset, max, offset / BLOCK_SIZE, [], g);
  }

  /** A quiet step followed by one that only moves blocks in and out of the cache is quiet. */
  lemma QuietThenStore(s: Fs, s1: Fs, s2: Fs, g: Owners)
    requires Inv(s, g) && Quiet(s, s1, g)
    requires Inv(s2, g) && s2 == s1.(store := s2.store, ticks := s2.ticks) && SameViewsBut(s1.store, s2.store, 0)
    ensures Quiet(s, s2, g)
  {
    hide Inv, View, Files;
    assert RecordsKept(s1, s2) && RecordsMoved(s1, s2, -1) by { UnchangedTables(s1, s2); }
    hide RecordsKept, RecordsMoved;
    RecordsKeptTwice(s, s1, s2);
    RecordsMovedTwice(s, s1, s2, -1);
  }

  /** Coherence and records depend on the inode table and the inode cache alone. */
  lemma UnchangedTables(s1: Fs, s2: Fs)
    requires s2.itab == s1.itab && s2.icache == s1.icache
    ensures forall n: nat :: CoherentAt(s2, n) == CoherentAt(s1, n)
    ensures forall n: nat :: n < INODES ==> Eff(s2, n) == Eff(s1, n)
    ensures RecordsKept(s1, s2) && RecordsMoved(s1, s2, -1)
  {
    assert forall n: nat, k: nat, r: Inode :: CopyOf(s2, n, k, r) == CopyOf(s1, n, k, r);
  }

  // ------------------------------------------------------------------ the metadata image

  /** Blocks 0-9 of the disk are as before. */
  ghost predicate MetaKept(s: Fs, s': Fs) {
    forall b: nat :: b < META_BLOCKS ==> s'.store.disk[b] == s.store.disk[b]
  }

  /** The cache never holds a metadata block, so its view is the disk's. */
  lemma MetaNotCached(s: Fs, b: nat, g: Owners)
    requires Inv(s, g) && 0 < b < META_BLOCKS
    ensures View(s.store, b) == s.store.disk[b]
  {
    hide TreeOk, PagesOk, RowsOk, SlotsOk;
    var k := Slotted(s.store, b);
    assert k < CACHE_SLOTS ==> IsFileBlock(g.own, s.itab, s.store.slots[k].num);
  }

  lemma MetaByViews(s: Fs, s': Fs, g: Owners, g': Owners)
    requires Inv(s, g) && Inv(s', g') && SameBlockZero(s.store, s'.store)
    requires forall b: nat :: 0 < b < META_BLOCKS ==> View(s'.store, b) == View(s.store, b)
    ensures MetaKept(s, s')
  {
    hide Inv, View;
    forall b: nat | b < META_BLOCKS ensures s'.store.disk[b] == s.store.disk[b] {
      if 0 < b {
        MetaNotCached(s, b, g);
        MetaNotCached(s', b, g');
      }
    }
  }

  /** Reading, however much it evicts, leaves the metadata image alone. */
  lemma QuietKeepsMeta(s: Fs, s': Fs, g: Owners)
    requires Inv(s, g) && Quiet(s, s', g)
    ensures MetaKept(s, s')
  {
    InvBounds(s, g);
    hide Inv, View, RecordsKept, RecordsMoved;
    MetaByViews(s, s', g, g);
  }

  // ------------------------------------------------------------------ directory entries

  /** Every directory has the same entries on the disk. */
  ghost predicate SameEntries(s: Fs, s': Fs) {
    forall d: nat, name: seq<byte>, m: nat ::
      IsEntry(s'.store.disk, s'.itab, d, name, m) <==> IsEntry(s.store.disk, s.itab, d, name, m)
  }

  lemma UntouchedSameEntries(s: Fs, s': Fs)
    requires DirsUntouched(s.store.disk, s.itab, s'.store.disk, s'.itab)
    ensures SameEntries(s, s')
  {
    hide IsEntry;
    assert DirsUntouched(s'.store.disk, s'.itab, s.store.disk, s.itab);
    hide DirsUntouched;
    forall d: nat, name: seq<byte>, m: nat
      ensures IsEntry(s'.store.disk, s'.itab, d, name, m) <==> IsEntry(s.store.disk, s.itab, d, name, m)
    {
      if IsEntry(s.store.disk, s.itab, d, name, m) {
        IsEntryFrame(s.store.disk, s.itab, s'.store.disk, s'.itab, d, name, m);
      }
      if IsEntry(s'.store.disk, s'.itab, d, name, m) {
        IsEntryFrame(s'.store.disk, s'.itab, s.store.disk, s.itab, d, name, m);
      }
    }
  }

  /** The cache never holds a block of a directory, so its view is the disk's. */
  lemma DirBlockView(s: Fs, g: Owners, d: nat, i: nat)
    requires Inv(s, g) && IsDir(s.itab, d) && i < BlocksFor(s.itab[d].size)
    ensures i < INODE_BLOCKS
    ensures var b := s.itab[d].blocks[i];
      META_BLOCKS <= b < |g.own| <= s.NumBlocks() && g.own[b] == (d, i) && View(s.store, b) == s.store.disk[b]
  {
    hide TreeOk, PagesOk, SlotsOk, MapsOk;
    assert RowOk(s.itab[d], d, g);
    assert |g.own| <= s.NumBlocks() by { InvBounds(s, g); }
    var b := s.itab[d].blocks[i];
    assert Owns(g.own, b, d, i);
    var k := Slotted(s.store, b);
    assert k < CACHE_SLOTS ==> IsFileBlock(g.own, s.itab, s.store.slots[k].num);
  }

  /** Blocks in use by others than files look the same. */
  ghost predicate DirViewsKept(s: Fs, s': Fs, g: Owners) {
    && |s'.store.disk| == |s.store.disk|
    && (forall c: nat :: META_BLOCKS <= c < |g.own| && c < s.NumBlocks() && !IsFileBlock(g.own, s.itab, c) ==>
          View(s'.store, c) == View(s.store, c))
  }

  lemma EntriesByViews(s: Fs, s': Fs, g: Owners, g': Owners)
    requires Inv(s, g) && Inv(s', g') && SameDirRows(s.itab, s'.itab) && DirViewsKept(s, s', g)
    ensures SameEntries(s, s')
  {
    hide Inv, View;
    forall d: nat | d < INODES && s.itab[d].itype == FS_DIR
      ensures DirUntouched(s.store.disk, s.itab[d], s'.store.disk, s'.itab[d])
    {
      forall i | 0 <= i < INODE_BLOCKS && i < BlocksFor(s.itab[d].size)
        ensures s.itab[d].blocks[i] < s.NumBlocks()
              && s'.store.disk[s.itab[d].blocks[i]] == s.store.disk[s.itab[d].blocks[i]]
      {
        DirBlockView(s, g, d, i);
        DirBlockView(s', g', d, i);
      }
    }
    UntouchedSameEntries(s, s');
  }

  /** Reading, however much it evicts, leaves every directory alone. */
  lemma QuietKeepsEntries(s: Fs, s': Fs, g: Owners)
    requires Inv(s, g) && Quiet(s, s', g)
    ensures SameEntries(s, s')
  {
    InvBounds(s, g);
    hide Inv, View, RecordsKept, RecordsMoved;
    EntriesByViews(s, s', g, g);
  }

  lemma SameEntriesTwice(s: Fs, s1: Fs, s2: Fs)
    requires SameEntries(s, s1) && SameEntries(s1, s2)
    ensures SameEntries(s, s2)
  {
    hide IsEntry;
  }
}
