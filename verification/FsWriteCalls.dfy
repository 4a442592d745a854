/**
 fs_write seen from outside: success is a splice of one file, exactly when reads show it, what every other file then
 contains, and what a failure leaves behind.
 */
module FsWriteCalls {
  import opened Bytes
  import opened Bitmap
  import opened Slots
  import opened BlockStore
  import opened FsState
  import opened FsFiles
  import opened FsTree
  import opened FsInv
  import opened FsContent
  import opened FsAlloc
  import opened FsSplice
  import opened FsWriting
  import opened FsCoherence
  import opened FsCalls

  /** The caller-checkable side condition of read-your-writes: the inode is cached on entry, or the file does not grow.
   */
  predicate Visible(s: Fs, file: nat, offset: nat, count: nat)
    requires file < INODES
  {
    Resident(s, file) || Min(offset, Eff(s, file).size) + count <= Eff(s, file).size
  }

  /** The record of inode m in use after a write to another file, which can take two slots. */
  function AfterWrite(s: Fs, file: nat, offset: nat, count: nat, done: bool, m: nat): Inode
    requires m < INODES
  {
    if done && file < INODES && !Visible(s, file, offset, count) && m != file then AfterAdd(Acquire(s, file).0, m)
    else AfterAcquire(s, file, m)
  }

  /** What file m contains after that. */
  function SeenAfterWrite(s: Fs, file: nat, offset: nat, count: nat, done: bool, m: nat): Option<seq<byte>> {
    if IsFile(s, m) then Some(Content(s.store, AfterWrite(s, file, offset, count, done, m))) else None
  }

  // ------------------------------------------------------------------ coherence after the write proper

  /** A write through the first slot of the inode: that record changes and stays the one in use. */
  lemma SlotWriteOwn(s: Fs, s': Fs, file: nat, k: nat, grows: bool)
    requires k < INODE_SLOTS && 1 <= file < INODES && k == InodeSlotOf(s.icache, file)
    requires TablesAfter(s, s', file, InSlot(k), grows)
    ensures Eff(s', file) == Load(s', InSlot(k)) && Eff(s, file) == Load(s, InSlot(k))
    ensures InodeSlotOf(s'.icache, file) == k && (CoherentAt(s, file) ==> CoherentAt(s', file))
  {
    assert InodeNums(s'.icache) == InodeNums(s.icache);
    forall j | 0 <= j < INODE_SLOTS && s'.icache[j].num == file && CoherentAt(s, file)
      ensures CleanAgrees(s'.icache[j], s'.itab)
    {
      assert CleanAgrees(s.icache[j], s.itab);
    }
  }

  /** Tables that differ in one inode's row and slots only. */
  ghost predicate SameButFor(s: Fs, s': Fs, file: nat) {
    && InodeNums(s'.icache) == InodeNums(s.icache)
    && (forall k :: 0 <= k < INODE_SLOTS && s.icache[k].num != file ==> s'.icache[k] == s.icache[k])
    && (forall m :: 0 <= m < INODES && m != file ==> s'.itab[m] == s.itab[m])
  }

  lemma SameForOthers(s: Fs, s': Fs, file: nat, m: nat)
    requires SameButFor(s, s', file) && 1 <= m < INODES && m != file
    ensures CoherentAt(s', m) == CoherentAt(s, m) && Eff(s', m) == Eff(s, m) && RecordMoved(s, s', m)
  {
    assert forall k :: 0 <= k < INODE_SLOTS ==> InodeNums(s.icache)[k] == InodeNums(s'.icache)[k];
    assert forall k: nat, r: Inode :: CopyOf(s', m, k, r) == CopyOf(s, m, k, r);
    forall k | 0 <= k < INODE_SLOTS && s.icache[k].num == m
      ensures CleanAgrees(s'.icache[k], s'.itab) == CleanAgrees(s.icache[k], s.itab) {}
  }

  /**
   Whatever a successful write does to its own inode's row and copies, all other coherent inodes keep their records. The
   record in use of any other is what one more insertion leaves, if there was one.
   */
  lemma WriteKeepsOthers(s: Fs, s': Fs, file: InodeId, ref: Ref, grows: bool, g: Owners)
    requires Inv(s, g) && Refers(s, ref, file) && TablesAfter(s, s', file, ref, grows)
    requires ref.InRow? ==> NoDirtyCopy(s, file)
    ensures forall m: nat :: 1 <= m < INODES && m != file ==> RecordKept(s, s', m)
    ensures forall m: nat :: 1 <= m < INODES && m != file ==>
      Eff(s', m) == if ref.InRow? && grows then AfterAdd(s, m) else Eff(s, m)
    ensures RecordsMoved(s, s', file)
  {
    hide Inv, CoherentAt, SameFile, WriteBack, NoDirtyCopy, AfterAdd, RecordOf, Eff;
    var t := if ref.InRow? && grows then AddInode(s, file, true) else s;
    AddKeepsOthers(s, file, true, g);
    RecordsKeptRefl(s);
    assert SameButFor(t, s', file) by { OnlyOwnTables(s, t, s', file, ref, grows); }
    forall m: nat | 1 <= m < INODES && m != file
      ensures RecordKept(s, s', m) && RecordMoved(s, s', m)
      ensures Eff(s', m) == if ref.InRow? && grows then AfterAdd(s, m) else Eff(s, m)
    {
      assert RecordKept(s, t, m) && RecordMoved(s, t, m);
      SameForOthers(t, s', file, m);
    }
  }

  lemma OnlyOwnTables(s: Fs, t: Fs, s': Fs, file: InodeId, ref: Ref, grows: bool)
    requires Refers(s, ref, file) && TablesAfter(s, s', file, ref, grows) && (ref.InRow? ==> NoDirtyCopy(s, file))
    requires t == if ref.InRow? && grows then AddInode(s, file, true) else s
    ensures SameButFor(t, s', file)
  {
    assert forall k :: 0 <= k < INODE_SLOTS ==> t.icache[k].num == s'.icache[k].num;
    assert InodeNums(s'.icache) == InodeNums(t.icache);
  }

  lemma CachedAgreesWithRow(s: Fs, file: nat)
    requires CoherentAt(s, file) && 1 <= file < INODES && s.itab[file].itype == FS_FILE && NoDirtyCopy(s, file)
    ensures SameFile(Eff(s, file), s.itab[file])
  {
    var k := InodeSlotOf(s.icache, file);
    if k < INODE_SLOTS {
      assert CleanAgrees(s.icache[k], s.itab);
    }
  }

  // ------------------------------------------------------------------ contents

  lemma OtherFileKept(st: Store, st': Store, ino: Inode, m: nat, file: nat, own: seq<(nat, nat)>)
    requires UsesOwned(ino, m, own) && m != file && OthersKept(st, st', file, own) && |own| <= |st.disk|
    ensures Content(st', ino) == Content(st, ino)
  {
    hide View, Content;
    forall i: nat | i < INODE_BLOCKS && i < BlocksFor(ino.size)
      ensures View(st', ino.blocks[i]) == View(st, ino.blocks[i])
    {
      assert Owns(own, ino.blocks[i], m, i);
    }
    ContentFrame(st, st', ino);
  }

  lemma UsesOwnedExtended(ino: Inode, m: nat, own: seq<(nat, nat)>, own': seq<(nat, nat)>)
    requires UsesOwned(ino, m, own) && own <= own'
    ensures UsesOwned(ino, m, own')
  {
    forall i: nat | i < INODE_BLOCKS && i < BlocksFor(ino.size) ensures Owns(own', ino.blocks[i], m, i) {
      assert Owns(own, ino.blocks[i], m, i);
    }
  }

  /** A file whose record is kept keeps its content when no block of another inode than the one written changes. */
  lemma OtherFileSame(s: Fs, s': Fs, file: nat, m: nat, g: Owners, own': seq<(nat, nat)>)
    requires Inv(s, g) && 1 <= m < INODES && m != file && RecordKept(s, s', m) && s'.inoMap == s.inoMap
    requires s'.itab[m].itype == s.itab[m].itype
    requires g.own <= own' && |own'| <= |s.store.disk| && OthersKept(s.store, s'.store, file, own')
    ensures FileSame(s, s', m)
  {
    hide Inv, View, Content, Eff, OthersKept, UsesOwned, Fits, CoherentAt, SameFile;
    if CoherentAt(s, m) && IsFile(s, m) {
      FileFacts(s, m, g);
      SizeOf(Eff(s, m), m, g.own);
      UsesOwnedExtended(Eff(s, m), m, g.own, own');
      OtherFileKept(s.store, s'.store, Eff(s, m), m, file, own');
      SameFileSameContent(s'.store, Eff(s, m), Eff(s', m));
    }
  }

  // ------------------------------------------------------------------ success and failure from the outside

  /** A successful write through the record in use splices that file; its inode stays coherent if it was. */
  lemma OwnSplice(s: Fs, s': Fs, file: InodeId, ref: Ref, o: nat, buffer: seq<byte>, g: Owners,
        own': seq<(nat, nat)>)
    requires Inv(s, g) && IsFile(s, file) && Refers(s, ref, file) && o <= Load(s, ref).size
    requires if ref.InSlot? then ref.k == InodeSlotOf(s.icache, file)
             else CoherentAt(s, file) && NoDirtyCopy(s, file) && !Grows(s, ref, o, |buffer|)
    requires WriteEffect(s, s', ref, file, o, buffer, own') && TablesAfter(s, s', file, ref,
          Grows(s, ref, o, |buffer|))
    ensures o <= |Content(s.store, Eff(s, file))|
    ensures ContentOf(s', file) == Some(Splice(Content(s.store, Eff(s, file)), o, buffer))
    ensures CoherentAt(s, file) ==> CoherentAt(s', file)
  {
    hide Inv, View, Content, Splice, OthersKept, NoDirtyCopy, UsesOwned, Fits, Grows, CoherentAt;
    FileFacts(s, file, g);
    if ref.InSlot? {
      SlotWriteOwn(s, s', file, ref.k, Grows(s, ref, o, |buffer|));
    } else {
      assert Load(s', ref) == Load(s, ref) && Eff(s', file) == Eff(s, file) by { UnchangedTables(s, s'); }
      assert CoherentAt(s', file) by { UnchangedTables(s, s'); }
      CachedAgreesWithRow(s, file);
      SizeOf(Eff(s, file), file, g.own);
      SameFileSameContent(s.store, Eff(s, file), s.itab[file]);
      SameFileSameContent(s'.store, Eff(s, file), s.itab[file]);
    }
  }

  lemma SizeOf(ino: Inode, n: nat, own: seq<(nat, nat)>)
    requires UsesOwned(ino, n, own)
    ensures ino.size <= MAX_FILE
  {
  }

  /** A failed write leaves every file alone, and the copies as coherent as they were. */
  lemma FailureFiles(s: Fs, s': Fs, file: InodeId, ref: Ref, g: Owners)
    requires Inv(s, g) && Refers(s, ref, file) && s.itab[file].itype == FS_FILE && file < |g.par|
    requires ref.InRow? ==> NoDirtyCopy(s, file)
    requires WriteLeftContents(s, s', ref, g.own)
    ensures forall n: nat :: FileSame(s, s', n)
    ensures forall n: nat :: n < INODES && IsFile(s, n) ==> Content(s'.store, Eff(s', n)) == Content(s.store, Eff(s, n))
    ensures forall n: nat :: n != file ==> CopiesKept(s, s', n)
  {
    hide Inv, View, ContentOf, RecordKept, Content, UsesOwned, SameFile, Eff, RecordOf, CopiesKept;
    FailedRecord(s, s', file, ref);
    InvBounds(s, g);
    forall n: nat | n != file ensures CopiesKept(s, s', n) {
      if 1 <= n < INODES { CopiesByViews(s, s', n, g); } else { NoFileNoCopies(s, s', n, g); }
    }
    forall n: nat | 1 <= n < INODES ensures FileSame(s, s', n) { FileKept(s, s', n, g); }
    forall n: nat | n < INODES && IsFile(s, n) ensures Content(s'.store, Eff(s', n)) == Content(s.store, Eff(s, n)) {
      FileFacts(s, n, g);
      EffIsRecord(s, n);
      RecordOwned(s, n, Eff(s, n), g);
      SameViewsBelowContent(s.store, s'.store, Eff(s, n), n, g.own);
      SameFileSameContent(s'.store, Eff(s, n), Eff(s', n));
    }
  }

  lemma NoFileNoCopies(s: Fs, s': Fs, n: nat, g: Owners)
    requires Inv(s, g) && (n == 0 || INODES <= n)
    ensures CopiesKept(s, s', n)
  {
    ZeroIsNoFile(s, g);
  }

  lemma FailedRecord(s: Fs, s': Fs, file: InodeId, ref: Ref)
    requires Refers(s, ref, file) && s.itab[file].itype == FS_FILE
    requires Recorded(s, s', ref, Load(s', ref), false) && SameFile(Load(s', ref), Load(s, ref))
    ensures RecordsKept(s, s') && RecordsMoved(s, s', file)
    ensures forall n: nat :: n < INODES ==> s'.itab[n].itype == s.itab[n].itype && SameFile(Eff(s, n), Eff(s', n))
  {
    assert InodeNums(s'.icache) == InodeNums(s.icache);
    assert forall n: nat, k: nat, r: Inode :: n != file ==> CopyOf(s', n, k, r) == CopyOf(s, n, k, r);
    forall n: nat | 1 <= n < INODES ensures RecordKept(s, s', n) {
      forall k | 0 <= k < INODE_SLOTS && s.icache[k].num == n && CoherentAt(s, n)
        ensures CleanAgrees(s'.icache[k], s'.itab)
      {
        assert CleanAgrees(s.icache[k], s.itab);
      }
    }
  }

  /** Everything about one fs_write call. */
  ghost predicate WriteCall(s: Fs, s': Fs, r: Res<()>, file: nat, offset: nat, buffer: seq<byte>, g: Owners,
        g': Owners) {
    && Inv(s', g') && g'.par == g.par && g.own <= g'.own
    && SameElsewhere(s, s') && MetaKept(s, s') && SameEntries(s, s')
    && (r == Ok(()) || r == Err)
    && (r.Ok? <==> file < INODES && IsFile(s, file)
                   && HasRoom(Eff(s, file).size, Min(offset, Eff(s, file).size), |buffer|, |g.own|, s.NumBlocks()))
    && (forall n: nat :: n != file || r == Err ==> FileSame(s, s', n))
    && (forall n: nat :: n != file || r == Err ==>
          ContentOf(s', n) == SeenAfterWrite(s, file, offset, |buffer|, r.Ok?, n))
    && (forall n: nat :: n != file ==> CopiesKept(s, s', n))
    && (r.Ok? ==> Resident(s', file))
    && (r.Ok? ==>
          |g'.own| == |g.own| + BlocksNeeded(Eff(s, file).size, Min(offset, Eff(s, file).size), |buffer|))
    && (r == Err ==>
          |g'.own| == if file < INODES && IsFile(s, file) then TakenByFailure(Eff(s, file).size,
                        Min(offset, Eff(s, file).size), |buffer|, |g.own|, s.NumBlocks()) else |g.own|)
    && (r.Ok? && Visible(s, file, offset, |buffer|) ==>
          var c := Content(s.store, Eff(s, file));
          && ContentOf(s', file) == Some(Splice(c, Min(offset, |c|), buffer))
          && (CoherentAt(s, file) ==> CoherentAt(s', file)))
  }

  /** The same for the map of all files, when all inodes are coherent. */
  lemma WriteCallFiles(s: Fs, s': Fs, r: Res<()>, file: nat, offset: nat, buffer: seq<byte>, g: Owners, g': Owners)
    requires Inv(s, g) && Coherent(s) && WriteCall(s, s', r, file, offset, buffer, g, g')
    ensures r == Err ==> Coherent(s') && Files(s') == Files(s)
    ensures r.Ok? && Visible(s, file, offset, |buffer|) ==>
      var c := Content(s.store, Eff(s, file));
      Coherent(s') && Files(s') == Files(s)[file := Splice(c, Min(offset, |c|), buffer)]
  {
    hide Inv, SameElsewhere, MetaKept, SameEntries, HasRoom, Splice, CoherentAt, IsFile, Content, Eff, Visible;
    ZeroIsNoFile(s, g);
    ZeroIsNoFile(s', g');
    if r == Err {
      SameFiles(s, s');
    } else if Visible(s, file, offset, |buffer|) {
      var c := Content(s.store, Eff(s, file));
      SameButOneFile(s, s', file, Splice(c, Min(offset, |c|), buffer));
    }
  }

  lemma SameButOneFile(s: Fs, s': Fs, file: nat, c: seq<byte>)
    requires Coherent(s) && file < INODES && CoherentAt(s', file) && ContentOf(s', file) == Some(c)
    requires forall n: nat :: n != file ==> FileSame(s, s', n)
    requires !IsFile(s, 0) && !IsFile(s', 0)
    ensures Coherent(s') && Files(s') == Files(s)[file := c]
  {
    hide CoherentAt, IsFile, Content, Eff;
    forall n: nat | 1 <= n < INODES && n != file ensures CoherentAt(s', n) && ContentOf(s', n) == ContentOf(s, n) {
      assert FileSame(s, s', n);
    }
    forall n: nat | n < INODES && n != file
      ensures IsFile(s', n) == IsFile(s, n)
      ensures IsFile(s, n) ==> Content(s'.store, Eff(s', n)) == Content(s.store, Eff(s, n))
    {
      assert n == 0 || ContentOf(s', n) == ContentOf(s, n);
    }
  }

  /** fs_write on a number that is no file. */
  lemma WriteToNoFile(s: Fs, file: nat, offset: nat, buffer: seq<byte>, g: Owners)
    requires Inv(s, g) && !(file < INODES && IsFile(s, file))
    ensures var (s', r) := FsWrite(s, file, offset, buffer);
      r == Err && Quiet(s, s', g) && s'.dcache == s.dcache && SeenAs(s, s', file)
  {
    hide Inv, Quiet, WriteThrough, Eff, Resident, Refers, NoDirtyCopy, SeenAs, AfterAcquire, RecordsKept, RecordsMoved;
    if file < INODES {
      AcquireQuiet(s, file, g);
      AcquireKeepsCoherence(s, file, g);
      QuietSeen(s, Acquire(s, file).0, file, g);
      AcquireFinds(s, file, g);
      AcquireKeepsInv(s, file, g);
      FileFacts(s, file, g);
    } else {
      NothingQuiet(s, g);
      NothingSeen(s, file);
    }
  }

  /** fs_write after a successful lookup of a file: the state s1 reached by it, and the write proper. */
  lemma WriteToFile(s: Fs, s1: Fs, ref: Ref, file: InodeId, offset: nat, buffer: seq<byte>,
        g: Owners) returns (g': Owners)
    requires Inv(s, g) && IsFile(s, file) && Acquire(s, file) == (s1, Some(ref))
    ensures var o := Min(offset, Load(s1, ref).size);
      var (s', r) := WriteThrough(s1, file, ref, o, buffer);
      WriteCall(s, s', r, file, offset, buffer, g, g')
  {
    hide Inv, Quiet, WriteThrough, Eff, Resident, WriteCall, HasRoom, Fits, UsesOwned, IsFile;
    AcquireQuiet(s, file, g);
    AcquireFinds(s, file, g);
    FileFacts(s, file, g);
    AcquiredFile(s, s1, ref, file, g);
    var o := Min(offset, Load(s1, ref).size);
    if HasRoom(Load(s1, ref).size, o, |buffer|, |g.own|, s1.NumBlocks()) {
      g' := Extended(g, file, BlocksFor(Load(s1, ref).size), BlocksNeeded(Load(s1, ref).size, o, |buffer|));
      WriteSucceeds(s1, file, ref, o, buffer, g);
      SuccessCall(s, s1, WriteThrough(s1, file, ref, o, buffer).0, ref, file, offset, buffer, g, g');
    } else {
      g' := WriteFails(s1, file, ref, o, buffer, g);
      FailureCall(s, s1, WriteThrough(s1, file, ref, o, buffer).0, ref, file, offset, buffer, g, g');
    }
  }

  /** What a quiet lookup of a file hands to the write proper. */
  lemma AcquiredFile(s: Fs, s1: Fs, ref: Ref, file: InodeId, g: Owners)
    requires Inv(s, g) && IsFile(s, file) && Acquire(s, file) == (s1, Some(ref)) && Quiet(s, s1, g)
    ensures Inv(s1, g) && Refers(s1, ref, file) && 1 <= file < |g.par| && s1.itab[file].itype == FS_FILE
          && IsFile(s1, file)
    ensures Load(s1, ref) == Eff(s, file) && s1.NumBlocks() == s.NumBlocks()
    ensures ref.InSlot? <==> Resident(s, file)
    ensures ref.InRow? ==> NoDirtyCopy(s1, file)
    ensures Load(s1, ref) == if ref.InSlot? then Eff(s1, file) else s1.itab[file]
    ensures s1.store == s.store && Resident(s1, file) && Eff(s1, file) == Eff(s, file)
    ensures if ref.InSlot? then ref.k == InodeSlotOf(s1.icache, file) else CoherentAt(s1, file)
  {
    hide StoreOk, TreeOk, PagesOk, RowsOk, SlotsOk, SameViewsBelow, RecordKept;
    AcquireFinds(s, file, g);
    FileFacts(s, file, g);
    if ref.InSlot? {
      assert InodeNums(s1.icache) == InodeNums(s.icache);
    } else {
      UncachedCoherent(s, file);
      assert RecordKept(s, s1, file);
      assert CoherentAt(s1, file) by { KeptCoherent(s, s1, file); }
      AddedIsInUse(s, file);
    }
  }

  lemma KeptCoherent(s: Fs, s1: Fs, n: nat)
    requires n < INODES && RecordKept(s, s1, n) && CoherentAt(s, n)
    ensures CoherentAt(s1, n)
  {
  }

  lemma UncachedCoherent(s: Fs, n: nat)
    requires !Resident(s, n)
    ensures CoherentAt(s, n)
  {
  }

  /** An inode just brought in is used through its new copy. */
  lemma AddedIsInUse(s: Fs, n: InodeId)
    requires !Resident(s, n)
    ensures Eff(AddInode(s, n, false), n) == AddInode(s, n, false).itab[n] == s.itab[n]
  {
    var s1, v := AddInode(s, n, false), Victim(InodeTimes(s.icache));
    assert s1.icache[v].num == n && forall j :: 0 <= j < INODE_SLOTS && j != v ==> s1.icache[j].num != n;
    var k := InodeSlotOf(s1.icache, n);
  }

  lemma MetaKeptTwice(s: Fs, s1: Fs, s2: Fs)
    requires MetaKept(s, s1) && MetaKept(s1, s2)
    ensures MetaKept(s, s2)
  {
  }

  lemma FailureKeepsMeta(s: Fs, s': Fs, ref: Ref, g: Owners, g': Owners)
    requires Inv(s, g) && Inv(s', g') && ValidRef(ref) && WriteLeftContents(s, s', ref, g.own)
    ensures MetaKept(s, s')
  {
    InvBounds(s, g);
    hide Inv, View, Recorded;
    MetaByViews(s, s', g, g');
  }

  lemma SuccessKeepsMeta(s: Fs, s': Fs, file: nat, g: Owners, g': Owners)
    requires Inv(s, g) && Inv(s', g') && 1 <= file && OthersKept(s.store, s'.store, file, g'.own)
    ensures MetaKept(s, s')
  {
    InvBounds(s', g');
    assert OwnersOk(g');
    hide Inv, View;
    MetaByViews(s, s', g, g');
  }

  lemma FailureKeepsEntries(s: Fs, s': Fs, ref: Ref, g: Owners, g': Owners)
    requires Inv(s, g) && Inv(s', g') && ValidRef(ref) && WriteLeftContents(s, s', ref, g.own)
    ensures SameEntries(s, s')
  {
    InvBounds(s, g);
    hide Inv, View, Recorded;
    EntriesByViews(s, s', g, g');
  }

  lemma SuccessKeepsEntries(s: Fs, s': Fs, file: nat, g: Owners, g': Owners)
    requires Inv(s, g) && Inv(s', g') && file < INODES && s.itab[file].itype == FS_FILE && g.own <= g'.own
    requires OthersKept(s.store, s'.store, file, g'.own) && SameElsewhere(s, s')
    ensures SameEntries(s, s')
  {
    InvBounds(s, g);
    hide Inv, View;
    EntriesByViews(s, s', g, g');
  }

  lemma FailureCall(s: Fs, s1: Fs, s': Fs, ref: Ref, file: InodeId, offset: nat, buffer: seq<byte>, g: Owners,
        g': Owners)
    requires Inv(s, g) && IsFile(s, file) && Quiet(s, s1, g) && s1.dcache == s.dcache
    requires Inv(s1, g) && Refers(s1, ref, file) && s1.itab[file].itype == FS_FILE && Load(s1, ref) == Eff(s, file)
    requires s1 == Acquire(s, file).0 && file < |g.par|
    requires ref.InRow? ==> NoDirtyCopy(s1, file)
    requires !HasRoom(Eff(s, file).size, Min(offset, Eff(s, file).size), |buffer|, |g.own|, s.NumBlocks())
    requires Inv(s', g') && g'.par == g.par && g.own <= g'.own && WriteLeftContents(s1, s', ref, g.own)
    requires |g'.own| == TakenByFailure(Eff(s, file).size, Min(offset, Eff(s, file).size), |buffer|, |g.own|,
                                        s.NumBlocks())
    ensures WriteCall(s, s', Err, file, offset, buffer, g, g')
  {
    hide Inv, HasRoom, Eff, SameViewsBelow, View, MetaKept, SameEntries, CoherentAt, RecordKept, ContentOf, Acquire,
          SeenAfterWrite, RecordMoved, CopiesKept;
    QuietKeepsMeta(s, s1, g);
    FailureKeepsMeta(s1, s', ref, g, g');
    QuietKeepsEntries(s, s1, g);
    FailureKeepsEntries(s1, s', ref, g, g');
    MetaKeptTwice(s, s1, s');
    SameEntriesTwice(s, s1, s');
    QuietFiles(s, s1, g);
    FailureFiles(s1, s', file, ref, g);
    FilesSameTwice(s, s1, s', -1);
    forall n: nat | n != file ensures CopiesKept(s, s', n) {
      QuietCopies(s, s1, n, g);
      CopiesKeptTwice(s, s1, s', n);
    }
    FailureSeen(s, s1, s', file, offset, |buffer|, g);
  }

  /** A failed write does to files what looking the inode up does. */
  lemma FailureSeen(s: Fs, s1: Fs, s': Fs, file: InodeId, offset: nat, count: nat, g: Owners)
    requires Inv(s, g) && Quiet(s, s1, g) && s1 == Acquire(s, file).0 && s'.inoMap == s1.inoMap
    requires forall n: nat :: n < INODES ==> s'.itab[n].itype == s1.itab[n].itype
    requires forall n: nat :: n < INODES && IsFile(s1, n) ==>
      Content(s'.store, Eff(s', n)) == Content(s1.store, Eff(s1, n))
    ensures forall n: nat :: ContentOf(s', n) == SeenAfterWrite(s, file, offset, count, false, n)
  {
    hide Inv, Content, Eff, Quiet, Acquire, AfterAcquire;
    AcquireKeepsCoherence(s, file, g);
    QuietSeen(s, s1, file, g);
    forall n: nat ensures ContentOf(s', n) == SeenAfterWrite(s, file, offset, count, false, n) {
      assert ContentOf(s1, n) == SeenAfter(s, file, n);
    }
  }

  /** All files but one, over two steps. */
  lemma FilesSameTwice(s: Fs, s1: Fs, s2: Fs, but: int)
    requires forall n: nat :: n != but ==> FileSame(s, s1, n) && FileSame(s1, s2, n)
    ensures forall n: nat :: n != but ==> FileSame(s, s2, n)
  {
    hide CoherentAt, ContentOf;
    forall n: nat | n != but ensures FileSame(s, s2, n) {
      assert FileSame(s, s1, n) && FileSame(s1, s2, n);
    }
  }

  lemma SuccessCall(s: Fs, s1: Fs, s': Fs, ref: Ref, file: InodeId, offset: nat, buffer: seq<byte>, g: Owners,
        g': Owners)
    requires Inv(s, g) && IsFile(s, file) && Quiet(s, s1, g) && s1.dcache == s.dcache
    requires Inv(s1, g) && Refers(s1, ref, file) && file < |g.par| && s1.itab[file].itype == FS_FILE
          && Load(s1, ref) == Eff(s, file)
    requires IsFile(s1, file) && s1.NumBlocks() == s.NumBlocks()
    requires ref.InSlot? <==> Resident(s, file)
    requires ref.InRow? ==> NoDirtyCopy(s1, file)
    requires Load(s1, ref) == if ref.InSlot? then Eff(s1, file) else s1.itab[file]
    requires s1.store == s.store && Resident(s1, file) && Eff(s1, file) == Eff(s, file) && s1 == Acquire(s, file).0
    requires if ref.InSlot? then ref.k == InodeSlotOf(s1.icache, file) else CoherentAt(s1, file)
    requires HasRoom(Eff(s, file).size, Min(offset, Eff(s, file).size), |buffer|, |g.own|, s.NumBlocks())
    requires var o := Min(offset, Eff(s, file).size);
      && s' == WriteThrough(s1, file, ref, o, buffer).0
      && g' == Extended(g, file, BlocksFor(Eff(s, file).size), BlocksNeeded(Eff(s, file).size, o, |buffer|))
      && Inv(s', g') && WriteEffect(s1, s', ref, file, o, buffer, g'.own)
    ensures WriteCall(s, s', Ok(()), file, offset, buffer, g, g')
  {
    hide Inv, HasRoom, Eff, SameViewsBelow, View, Content, Splice, WriteThrough, OthersKept, BlocksFor, BlocksNeeded,
          MetaKept, SameEntries, CoherentAt, RecordKept, FileSame, Acquire, SeenAfterWrite, RecordMoved, CopiesKept;
    QuietKeepsMeta(s, s1, g);
    SuccessKeepsMeta(s1, s', file, g, g');
    QuietKeepsEntries(s, s1, g);
    SuccessKeepsEntries(s1, s', file, g, g');
    MetaKeptTwice(s, s1, s');
    SameEntriesTwice(s, s1, s');
    var o := Min(offset, Eff(s, file).size);
    WriteTables(s1, file, ref, o, buffer, g);
    WrittenIsResident(s1, s', file, ref, Grows(s1, ref, o, |buffer|));
    SuccessKeepsFiles(s, s1, s', ref, file, Grows(s1, ref, o, |buffer|), g, g');
    SuccessSeen(s, s1, s', ref, file, offset, |buffer|, g, g');
    if Visible(s, file, offset, |buffer|) {
      OwnSplice(s1, s', file, ref, o, buffer, g, g'.own);
      assert RecordKept(s, s1, file);
      CoherentOn(s, s1, file);
    }
  }

  lemma CoherentOn(s: Fs, s1: Fs, n: nat)
    requires n < INODES && RecordKept(s, s1, n)
    ensures CoherentAt(s, n) ==> CoherentAt(s1, n)
  {
  }

  lemma WrittenIsResident(s1: Fs, s': Fs, file: InodeId, ref: Ref, grows: bool)
    requires Refers(s1, ref, file) && Resident(s1, file) && TablesAfter(s1, s', file, ref, grows)
    ensures Resident(s', file)
  {
    if ref.InSlot? { assert s'.icache[ref.k].num == file; }
  }

  lemma SuccessKeepsFiles(s: Fs, s1: Fs, s': Fs, ref: Ref, file: InodeId, grows: bool, g: Owners, g': Owners)
    requires Inv(s, g) && Quiet(s, s1, g) && Inv(s', g') && g.own <= g'.own
    requires Refers(s1, ref, file) && (ref.InRow? ==> NoDirtyCopy(s1, file)) && TablesAfter(s1, s', file, ref, grows)
    requires OthersKept(s1.store, s'.store, file, g'.own) && SameElsewhere(s1, s')
    ensures forall n: nat :: n != file ==> FileSame(s, s', n) && CopiesKept(s, s', n)
  {
    InvBounds(s', g');
    hide Inv, SameViewsBelow, View, OthersKept, CoherentAt, RecordKept, ContentOf, TablesAfter, RecordMoved, Eff,
          AfterAdd, CopiesKept;
    QuietFiles(s, s1, g);
    WriteKeepsOthers(s1, s', file, ref, grows, g);
    forall n: nat | 1 <= n < INODES && n != file ensures FileSame(s1, s', n) {
      OtherFileSame(s1, s', file, n, g, g'.own);
    }
    forall n: nat | n != file ensures CopiesKept(s, s', n) {
      QuietCopies(s, s1, n, g);
      OtherCopiesKept(s1, s', file, n, g, g');
      CopiesKeptTwice(s, s1, s', n);
    }
    FilesSameTwice(s, s1, s', file);
  }

  lemma OtherCopiesKept(s1: Fs, s': Fs, file: nat, n: nat, g: Owners, g': Owners)
    requires Inv(s1, g) && Inv(s', g') && g.own <= g'.own && n != file && RecordsMoved(s1, s', file)
    requires OthersKept(s1.store, s'.store, file, g'.own) && SameElsewhere(s1, s')
    ensures CopiesKept(s1, s', n)
  {
    hide Inv, OthersKept, Content, RecordOf;
    ZeroIsNoFile(s1, g);
    if IsFile(s1, n) {
      assert RecordMoved(s1, s', n);
      forall r: Inode | RecordOf(s', n, r) ensures RecordHeld(s1, s', n, r) {
        OtherRecordKept(s1, s', file, n, r, g, g');
      }
    }
  }

  /** What other files contain after a successful write. */
  lemma SuccessSeen(s: Fs, s1: Fs, s': Fs, ref: Ref, file: InodeId, offset: nat, count: nat, g: Owners, g': Owners)
    requires Inv(s, g) && Quiet(s, s1, g) && Inv(s', g') && g.own <= g'.own && s1 == Acquire(s, file).0
    requires Refers(s1, ref, file) && (ref.InRow? ==> NoDirtyCopy(s1, file)) && s1.store == s.store
    requires Load(s1, ref) == Eff(s, file) && (ref.InSlot? <==> Resident(s, file))
    requires TablesAfter(s1, s', file, ref, Grows(s1, ref, Min(offset, Eff(s, file).size), count))
    requires OthersKept(s1.store, s'.store, file, g'.own) && SameElsewhere(s1, s')
    ensures forall n: nat :: n != file ==> ContentOf(s', n) == SeenAfterWrite(s, file, offset, count, true, n)
  {
    hide Inv, Quiet, OthersKept, TablesAfter, Eff, AfterAdd, Acquire, Content, AfterWrite, SameElsewhere, IsFile;
    SameFileNumbers(s, s1, s', g);
    var grows := Grows(s1, ref, Min(offset, Eff(s, file).size), count);
    AcquireKeepsCoherence(s, file, g);
    WriteKeepsOthers(s1, s', file, ref, grows, g);
    ZeroIsNoFile(s, g);
    forall n: nat | n < INODES && IsFile(s, n) && n != file
      ensures Eff(s', n) == AfterWrite(s, file, offset, count, true, n)
      ensures Content(s'.store, Eff(s', n)) == Content(s.store, Eff(s', n))
    {
      assert n != 0;
      RecordAfterWrite(s, s1, s', ref, file, offset, count, n);
      OtherRecordKept(s1, s', file, n, Eff(s', n), g, g');
    }
  }

  lemma SameFileNumbers(s: Fs, s1: Fs, s': Fs, g: Owners)
    requires Quiet(s, s1, g) && SameElsewhere(s1, s')
    ensures Inv(s1, g) && s'.NumBlocks() == s1.NumBlocks()
    ensures forall n: nat :: (IsFile(s1, n) <==> IsFile(s, n)) && (IsFile(s', n) <==> IsFile(s, n))
    ensures forall n: nat :: IsFile(s, n) ==> n < INODES
  {
  }

  lemma RecordAfterWrite(s: Fs, s1: Fs, s': Fs, ref: Ref, file: InodeId, offset: nat, count: nat, n: nat)
    requires s1 == Acquire(s, file).0 && n < INODES && n != file && ValidRef(ref)
    requires Load(s1, ref) == Eff(s, file) && (ref.InSlot? <==> Resident(s, file))
    requires Eff(s1, n) == AfterAcquire(s, file, n)
    requires Eff(s', n) == if ref.InRow? && Grows(s1, ref, Min(offset, Eff(s, file).size), count) then AfterAdd(s1, n)
                           else Eff(s1, n)
    ensures Eff(s', n) == AfterWrite(s, file, offset, count, true, n)
    ensures RecordOf(s1, n, Eff(s', n))
  {
    hide Eff, AfterAdd, Acquire, AfterAcquire, RecordOf;
    EffIsRecord(s1, n);
    AfterAddIsRecord(s1, n);
  }

  lemma OtherRecordKept(s1: Fs, s': Fs, file: nat, n: nat, r: Inode, g: Owners, g': Owners)
    requires Inv(s1, g) && IsFile(s1, n) && RecordOf(s1, n, r) && n != file && Inv(s', g') && g.own <= g'.own
    requires OthersKept(s1.store, s'.store, file, g'.own) && s'.NumBlocks() == s1.NumBlocks()
    ensures Content(s'.store, r) == Content(s1.store, r)
  {
    InvBounds(s', g');
    hide Inv, OthersKept, Content, UsesOwned, RecordOf, IsFile;
    RecordOwned(s1, n, r, g);
    UsesOwnedExtended(r, n, g.own, g'.own);
    OtherFileKept(s1.store, s'.store, r, n, file, g'.own);
  }

  /**
   fs_write succeeds exactly when the number is a file with room. The file's content is then spliced if the inode was
   cached on entry or the file did not grow. Other files contain what looking the inode up, and a second insertion if
   there was one, makes of them; so do all files after a failed write.
   */
  lemma WriteOk(s: Fs, file: nat, offset: nat, buffer: seq<byte>, g: Owners) returns (g': Owners)
    requires Inv(s, g)
    ensures var (s', r) := FsWrite(s, file, offset, buffer);
      WriteCall(s, s', r, file, offset, buffer, g, g')
  {
    hide Inv, Quiet, WriteThrough, Eff, WriteCall;
    if file < INODES && IsFile(s, file) {
      var f: InodeId := file;
      AcquireQuiet(s, f, g);
      AcquireFinds(s, f, g);
      AcquireKeepsInv(s, f, g);
      FileFacts(s, f, g);
      var (s1, ref) := Acquire(s, f);
      AcquiredFile(s, s1, ref.value, f, g);
      g' := WriteToFile(s, s1, ref.value, f, offset, buffer, g);
      FileFacts(s1, f, g);
    } else {
      g' := g;
      WriteToNoFile(s, file, offset, buffer, g);
      NoFileCall(s, FsWrite(s, file, offset, buffer).0, file, offset, buffer, g);
    }
  }

  lemma NoFileCall(s: Fs, s': Fs, file: nat, offset: nat, buffer: seq<byte>, g: Owners)
    requires Inv(s, g) && !(file < INODES && IsFile(s, file)) && Quiet(s, s', g) && s'.dcache == s.dcache
    requires SeenAs(s, s', file)
    ensures WriteCall(s, s', Err, file, offset, buffer, g, g)
  {
    hide Inv, HasRoom, Eff, SameViewsBelow, MetaKept, SameEntries, FileSame, ContentOf, AfterAcquire, RecordMoved,
          CopiesKept;
    forall n: nat ensures CopiesKept(s, s', n) { QuietCopies(s, s', n, g); }
    assert forall n: nat :: ContentOf(s', n) == SeenAfter(s, file, n);
    QuietKeepsMeta(s, s', g);
    QuietKeepsEntries(s, s', g);
    QuietFiles(s, s', g);
  }

  // ------------------------------------------------------------------ exactly when a write shows

  /** The slot the lookup of an uncached inode replaces, and the slot the insertion at the end of the write replaces. */
  function FirstVictim(s: Fs): nat {
    Victim(InodeTimes(s.icache))
  }

  function SecondVictim(s: Fs, file: InodeId): nat {
    Victim(InodeTimes(Acquire(s, file).0.icache))
  }

  /** A growing write to an inode that was not cached leaves two copies unless the second insertion hits the first. */
  lemma TwoCopies(s: Fs, s': Fs, file: InodeId, ref: Ref, o: nat, buffer: seq<byte>, g: Owners)
    requires Inv(s, g) && IsFile(s, file) && Acquire(s, file) == (s', Some(ref)) && !Resident(s, file)
    requires o <= Load(s', ref).size
    ensures ref == InRow(file)
    ensures var c := s'.icache[FirstVictim(s)]; c.num == file && !c.dirty && c.inode == Load(s', ref)
    ensures forall j :: 0 <= j < INODE_SLOTS && j != FirstVictim(s) ==> s'.icache[j].num != file
  {
  }

  lemma FirstOfTwo(c: InodeCache, c': InodeCache, file: nat, v: nat, w: nat)
    requires v < INODE_SLOTS && w < INODE_SLOTS
    requires c[v].num == file && forall j :: 0 <= j < INODE_SLOTS && j != v ==> c[j].num != file
    requires c'[w].num == file && c' == c[w := c'[w]]
    ensures InodeSlotOf(c', file) == if w <= v then w else v
  {
    var k := InodeSlotOf(c', file);
    assert c'[if w <= v then w else v].num == file;
  }

  /** The record as it was before the write shows the written bytes up to its own, older, end. */
  lemma CutOffContent(s: Fs, file: InodeId, ref: Ref, o: nat, buffer: seq<byte>, g: Owners)
    requires Inv(s, g) && Refers(s, ref, file) && file < |g.par| && s.itab[file].itype == FS_FILE
    requires o <= Load(s, ref).size < o + |buffer| && HasRoom(Load(s, ref).size, o, |buffer|, |g.own|, s.NumBlocks())
    ensures var (s', ino) := (WriteThrough(s, file, ref, o, buffer).0, Load(s, ref));
      Content(s'.store, ino) == Splice(Content(s.store, ino), o, buffer)[..ino.size]
  {
    hide Inv, WriteThrough, HasRoom, BlocksNeeded, OthersKept, OwnsUpTo, View, SameElsewhere, Recorded;
    var ino := Load(s, ref);
    var s3 := WriteReaches(s, file, ref, o, buffer, BlocksNeeded(ino.size, o, |buffer|), g);
    var s' := WriteThrough(s, file, ref, o, buffer).0;
    assert s'.store == s3.store;
    var longer := Load(s3, ref).(size := Max(ino.size, o + |buffer|));
    forall p | 0 <= p < ino.size ensures Content(s'.store, ino)[p] == Content(s3.store, longer)[p] {
      InUsedRange(p, ino.size);
    }
  }

  /**
   Exactly when a growing write to a file that was not cached is read back: when the copy made at the end lands in
   the same slot as the copy made at the start, or in an earlier one. Otherwise readers see the splice cut off at the
   old size. Only landing in the same slot keeps the inode coherent.
   */
  lemma GrownCall(s: Fs, s1: Fs, ref: Ref, file: InodeId, o: nat, buffer: seq<byte>, g: Owners)
    requires Inv(s, g) && IsFile(s, file) && Acquire(s, file) == (s1, Some(ref)) && !Resident(s, file)
    requires o <= Eff(s, file).size < o + |buffer|
    requires HasRoom(Eff(s, file).size, o, |buffer|, |g.own|, s.NumBlocks())
    ensures var s' := WriteThrough(s1, file, ref, o, buffer).0;
      var k := InodeSlotOf(s'.icache, file);
      && k == Min(FirstVictim(s), SecondVictim(s, file))
      && (Content(s'.store, Eff(s', file)) == Splice(Content(s.store, Eff(s, file)), o, buffer)
          <==> SecondVictim(s, file) <= FirstVictim(s))
      && (FirstVictim(s) < SecondVictim(s, file) ==>
            Content(s'.store, Eff(s', file)) == Splice(Content(s.store, Eff(s, file)), o, buffer)[..Eff(s, file).size])
      && (CoherentAt(s', file) <==> SecondVictim(s, file) == FirstVictim(s))
  {
    hide Inv, Quiet, WriteThrough, HasRoom, Fits, UsesOwned, View, Content, Splice, OthersKept, BlocksFor, BlocksNeeded;
    AcquireQuiet(s, file, g);
    AcquiredFile(s, s1, ref, file, g);
    TwoCopies(s, s1, file, ref, o, buffer, g);
    WriteSucceeds(s1, file, ref, o, buffer, g);
    var s' := WriteThrough(s1, file, ref, o, buffer).0;
    var v, w := FirstVictim(s), SecondVictim(s, file);
    FirstOfTwo(s1.icache, s'.icache, file, v, w);
    AcquiredStore(s, file);
    if w <= v {
      assert Eff(s', file) == Load(s', ref);
    } else {
      CutOffContent(s1, file, ref, o, buffer, g);
      assert Eff(s', file) == Load(s1, ref);
    }
    CoherentAfterSecond(s1, s', file, ref, v, w);
  }

  lemma AcquiredStore(s: Fs, file: InodeId)
    ensures Acquire(s, file).0.store == s.store
  {
  }

  lemma CoherentAfterSecond(s1: Fs, s': Fs, file: InodeId, ref: Ref, v: nat, w: nat)
    requires CoherentAt(s1, file) && ref == InRow(file) && file != 0 && NoDirtyCopy(s1, file)
    requires v < INODE_SLOTS && s1.icache[v].num == file
    requires w == Victim(InodeTimes(s1.icache)) && TablesAfter(s1, s', file, ref, true)
    requires SameDirRows(s1.itab, s'.itab)
    ensures CoherentAt(s', file) <==> w == v
  {
    if w == v {
      forall k | 0 <= k < INODE_SLOTS && s'.icache[k].num == file ensures k == w {}
    } else {
      assert s'.icache[v].num == s'.icache[w].num;
    }
  }

  /**
   The same for the call: a growing write to a file that was not cached, wherever it begins. Afterwards the inode is
   cached, and its content is the splice, or the splice cut off at the old size.
   */
  lemma GrownWrite(s: Fs, file: InodeId, offset: nat, buffer: seq<byte>, g: Owners)
    requires Inv(s, g) && IsFile(s, file) && !Resident(s, file) && FsWrite(s, file, offset, buffer).1.Ok?
    requires Eff(s, file).size < Min(offset, Eff(s, file).size) + |buffer|
    ensures var s' := FsWrite(s, file, offset, buffer).0;
      var spliced := Splice(Content(s.store, Eff(s, file)), Min(offset, Eff(s, file).size), buffer);
      Content(s'.store, Eff(s', file))
        == if SecondVictim(s, file) <= FirstVictim(s) then spliced else spliced[..Eff(s, file).size]
  {
    hide Inv, Quiet, WriteThrough, HasRoom, Content, Splice, WriteCall;
    AcquireQuiet(s, file, g);
    AcquireKeepsInv(s, file, g);
    AcquireFinds(s, file, g);
    FileFacts(s, file, g);
    var (s1, ref) := Acquire(s, file);
    AcquiredFile(s, s1, ref.value, file, g);
    var g' := WriteOk(s, file, offset, buffer, g);
    RoomOfCall(s, FsWrite(s, file, offset, buffer).0, FsWrite(s, file, offset, buffer).1, file, offset, buffer, g, g');
    GrownCall(s, s1, ref.value, file, Min(offset, Eff(s, file).size), buffer, g);
  }

  lemma RoomOfCall(s: Fs, s': Fs, r: Res<()>, file: InodeId, offset: nat, buffer: seq<byte>, g: Owners, g': Owners)
    requires WriteCall(s, s', r, file, offset, buffer, g, g') && r.Ok?
    ensures HasRoom(Eff(s, file).size, Min(offset, Eff(s, file).size), |buffer|, |g.own|, s.NumBlocks())
  {
  }

  // ------------------------------------------------------------------ what a failed write takes

  /** The free map after a failed write marks what it marked before. */
  ghost predicate SameMarks(s: Fs, s': Fs) {
    forall b: nat :: b < s.NumBlocks() ==> (IsSet(s'.blkMap, b) <==> IsSet(s.blkMap, b))
  }

  /**
   A failed fs_write of a file leaves the free map as it was exactly when the inode has no entries for the blocks it
   needs or no block was free. Otherwise it has taken every free block.
   */
  lemma FailedWriteTakesAllIff(s: Fs, file: InodeId, offset: nat, buffer: seq<byte>, g: Owners)
    requires Inv(s, g) && IsFile(s, file) && FsWrite(s, file, offset, buffer).1 == Err
    ensures var s' := FsWrite(s, file, offset, buffer).0;
      var size := Eff(s, file).size;
      var noEntries := BlocksFor(size) + BlocksNeeded(size, Min(offset, size), |buffer|) > INODE_BLOCKS;
      && (SameMarks(s, s') <==> noEntries || FindFree(s.blkMap, 0, s.NumBlocks()).None?)
      && (noEntries || FindFree(s'.blkMap, 0, s.NumBlocks()).None?)
  {
    hide Inv, FsWrite, Eff, HasRoom, BlocksFor, BlocksNeeded, FileSame, ContentOf, SeenAfterWrite, MetaKept,
          SameEntries, IsSet, CopiesKept;
    var s' := FsWrite(s, file, offset, buffer).0;
    var g' := WriteOk(s, file, offset, buffer, g);
    NextFreeBlock(s, g);
    NextFreeBlock(s', g');
    MarkedIffTaken(s, g);
    MarkedIffTaken(s', g');
  }

  lemma MarkedIffTaken(s: Fs, g: Owners)
    requires Inv(s, g)
    ensures forall b: nat :: b < s.NumBlocks() ==> (IsSet(s.blkMap, b) <==> b < |g.own|)
  {
  }
}
