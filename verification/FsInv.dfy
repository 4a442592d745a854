/**
 The invariant of the file system layer and the steps that keep it. Owners is proof bookkeeping: own[b] is the
 (inode, index) block b was allocated for, par[m] the (directory, position) of the entry of inode m.
 */
module FsInv {
  import opened Bytes
  import opened Bitmap
  import opened Slots
  import opened BlockStore
  import opened FsState
  import opened FsTree

  datatype Owners = Owners(own: seq<(nat, nat)>, par: seq<(nat, nat)>)

  /** Block b was allocated for place i of inode n. */
  ghost predicate Owns(own: seq<(nat, nat)>, b: nat, n: nat, i: nat) {
    META_BLOCKS <= b < |own| && own[b] == (n, i)
  }

  /** Every block in the used range of a record of inode n is owned by that inode at that place. */
  ghost predicate UsesOwned(ino: Inode, n: nat, own: seq<(nat, nat)>) {
    && ino.size <= MAX_FILE
    && forall i: nat :: i < INODE_BLOCKS && i < BlocksFor(ino.size) ==> Owns(own, ino.blocks[i], n, i)
  }

  /** Every field fits the 32 bits it has on the disk. */
  ghost predicate Fits(ino: Inode) {
    && ino.itype < U32 && ino.size < U32
    && (forall i :: 0 <= i < INODE_BLOCKS ==> ino.blocks[i] < U32)
    && (forall i :: 0 <= i < 4 ==> ino.reserved[i] < U32)
  }

  /** The owner of the block is a file, not a directory. */
  ghost predicate IsFileBlock(own: seq<(nat, nat)>, itab: InodeTable, b: nat) {
    META_BLOCKS <= b < |own| && own[b].0 < INODES && itab[own[b].0].itype == FS_FILE
  }

  /** Used blocks and used inodes are initial segments of the numbers. */
  ghost predicate MapsOk(s: Fs, g: Owners) {
    && META_BLOCKS <= |g.own| <= s.NumBlocks() && Prefix(s.blkMap, |g.own|)
    && 2 <= |g.par| <= INODES && Prefix(s.inoMap, |g.par|)
  }

  ghost predicate OwnersOk(g: Owners) {
    forall b: nat :: b < |g.own| ==>
      if b < META_BLOCKS then g.own[b].0 == 0 else 1 <= g.own[b].0 < |g.par| && g.own[b].1 < INODE_BLOCKS
  }

  ghost predicate RowOk(ino: Inode, n: nat, g: Owners) {
    && Fits(ino)
    && (n == 0 || |g.par| <= n ==> ino.itype == 0 && ino.size == 0)
    && (n == ROOT ==> ino.itype == FS_DIR)
    && (1 <= n < |g.par| ==> (ino.itype == FS_DIR || ino.itype == FS_FILE) && UsesOwned(ino, n, g.own))
  }

  ghost predicate RowsOk(itab: InodeTable, g: Owners) {
    forall n: nat :: n < INODES ==> RowOk(itab[n], n, g)
  }

  ghost predicate SlotOk(c: InodeSlot, itab: InodeTable, g: Owners) {
    && Fits(c.inode)
    && c.inode.itype == itab[c.num].itype
    && if c.num == 0 then !c.dirty && c.inode.size == 0
       else && c.num < |g.par| && UsesOwned(c.inode, c.num, g.own)
            && (c.dirty ==> c.inode.itype == FS_FILE)
            && (c.inode.itype == FS_DIR ==> DirPrefix(c.inode, itab[c.num]))
  }

  /** A cached directory may be stale, but only by missing what was appended since. */
  ghost predicate DirPrefix(a: Inode, row: Inode) {
    a.size <= row.size && forall i: nat :: i < INODE_BLOCKS && i < BlocksFor(a.size) ==> a.blocks[i] == row.blocks[i]
  }

  ghost predicate SlotsOk(icache: InodeCache, itab: InodeTable, g: Owners) {
    forall k :: 0 <= k < INODE_SLOTS ==> SlotOk(icache[k], itab, g)
  }

  /** The block cache is sound, holds blocks of files only, and blocks never allocated are still zero on the disk. */
  ghost predicate StoreOk(st: Store, itab: InodeTable, own: seq<(nat, nat)>) {
    && CacheOk(st)
    && (forall k :: 0 <= k < CACHE_SLOTS && st.slots[k].num != 0 ==> IsFileBlock(own, itab, st.slots[k].num))
    && (forall b: nat :: |own| <= b < |st.disk| ==> st.disk[b] == Zeros(BLOCK_SIZE))
  }

  ghost predicate PagesOk(s: Fs) {
    && (forall k :: 0 <= k < DIR_SLOTS ==> PageSound(s.store.disk, s.itab, s.dcache[k]))
    && (forall k :: 0 <= k < DIR_SLOTS ==> PagePlaced(s.itab, s.dcache[k]))
    && PagesApart(s.dcache) && NamesHome(s.store.disk, s.itab, s.dcache)
  }

  ghost predicate Inv(s: Fs, g: Owners) {
    && MapsOk(s, g)
    && OwnersOk(g)
    && RowsOk(s.itab, g)
    && SlotsOk(s.icache, s.itab, g)
    && StoreOk(s.store, s.itab, g.own)
    && TreeOk(s.store.disk, s.itab, g.par)
    && PagesOk(s)
  }

  // ------------------------------------------------------------------ steps of the block layer

  /** Only blocks of files may differ. */
  ghost predicate SameButFiles(disk: seq<Block>, disk': seq<Block>, itab: InodeTable, own: seq<(nat, nat)>) {
    |disk'| == |disk| && forall b: nat :: b < |disk| && !IsFileBlock(own, itab, b) ==> disk'[b] == disk[b]
  }

  lemma StoreTouch(st: Store, k: nat, now: int, itab: InodeTable, own: seq<(nat, nat)>)
    requires StoreOk(st, itab, own) && k < CACHE_SLOTS
    ensures StoreOk(Touch(st, k, now), itab, own)
    ensures SameViewsBut(st, Touch(st, k, now), 0)
  {
    TouchKeeps(st, k, now);
  }

  lemma StorePut(st: Store, k: nat, data: Block, now: int, itab: InodeTable, own: seq<(nat, nat)>)
    requires StoreOk(st, itab, own) && k < CACHE_SLOTS && 0 < st.slots[k].num
    ensures StoreOk(Put(st, k, data, now), itab, own)
    ensures View(Put(st, k, data, now), st.slots[k].num) == data
    ensures SameViewsBut(st, Put(st, k, data, now), st.slots[k].num)
  {
    PutChangesOne(st, k, data, now);
  }

  /** An insertion, whatever it evicts, writes to blocks of files only. */
  lemma StoreAdd(st: Store, b: nat, data: Block, dirty: bool, now: int, itab: InodeTable, own: seq<(nat, nat)>)
    requires StoreOk(st, itab, own) && IsFileBlock(own, itab, b) && Slotted(st, b) == CACHE_SLOTS
    requires b < |st.disk| && (dirty || data == st.disk[b])
    ensures StoreOk(Add(st, b, data, dirty, now), itab, own)
    ensures SameButFiles(st.disk, Add(st, b, data, dirty, now).disk, itab, own)
    ensures View(Add(st, b, data, dirty, now), b) == data
    ensures SameViewsBut(st, Add(st, b, data, dirty, now), b)
  {
    AddChangesOne(st, b, data, dirty, now);
    var v := Victim(Times(st.slots));
    assert st.slots[v].dirty ==> IsFileBlock(own, itab, st.slots[v].num);
  }

  /** A used directory's blocks are not blocks of files. */
  lemma DirBlocksAreNotFileBlocks(itab: InodeTable, g: Owners, d: nat)
    requires RowsOk(itab, g) && 1 <= d < |g.par| <= INODES && itab[d].itype == FS_DIR
    ensures forall i: nat :: i < INODE_BLOCKS && i < BlocksFor(itab[d].size) ==>
          !IsFileBlock(g.own, itab, itab[d].blocks[i])
  {
    assert RowOk(itab[d], d, g);
    forall i: nat | i < INODE_BLOCKS && i < BlocksFor(itab[d].size)
      ensures !IsFileBlock(g.own, itab, itab[d].blocks[i])
    {
      assert Owns(g.own, itab[d].blocks[i], d, i);
    }
  }

  // ------------------------------------------------------------------ lifting a step to the whole invariant

  lemma DirectoriesFrame(s: Fs, s': Fs, g: Owners)
    requires TreeOk(s.store.disk, s.itab, g.par) && PagesOk(s) && s'.dcache == s.dcache
    requires DirsUntouched(s.store.disk, s.itab, s'.store.disk, s'.itab)
    ensures TreeOk(s'.store.disk, s'.itab, g.par) && PagesOk(s')
  {
    hide TreeOk, DirsUntouched, PageSound, PagePlaced, PagesApart, NamesHome;
    TreeFrame(s.store.disk, s.itab, s'.store.disk, s'.itab, g.par);
    NamesHomeFrame(s.store.disk, s.itab, s'.store.disk, s'.itab, s.dcache);
    forall k | 0 <= k < DIR_SLOTS
      ensures PageSound(s'.store.disk, s'.itab, s'.dcache[k]) && PagePlaced(s'.itab, s'.dcache[k])
    {
      PageSoundFrame(s.store.disk, s.itab, s'.store.disk, s'.itab, s.dcache[k]);
      PagePlacedFrame(s.store.disk, s.itab, s'.store.disk, s'.itab, s.dcache[k]);
    }
  }

  /** Rows of directories and the types of all inodes are as before. */
  ghost predicate SameDirRows(itab: InodeTable, itab': InodeTable) {
    forall n :: 0 <= n < INODES ==> itab'[n].itype == itab[n].itype && (itab[n].itype == FS_DIR ==> itab'[n] == itab[n])
  }

  lemma FilesDoNotTouchDirs(s: Fs, s': Fs, g: Owners)
    requires 2 <= |g.par| <= INODES && |g.own| <= |s.store.disk|
    requires RowsOk(s.itab, g) && SameDirRows(s.itab, s'.itab)
    requires SameButFiles(s.store.disk, s'.store.disk, s.itab, g.own)
    ensures DirsUntouched(s.store.disk, s.itab, s'.store.disk, s'.itab)
  {
    forall d: nat | d < INODES && s.itab[d].itype == FS_DIR
      ensures DirUntouched(s.store.disk, s.itab[d], s'.store.disk, s'.itab[d])
    {
      assert RowOk(s.itab[d], d, g);
      DirBlocksAreNotFileBlocks(s.itab, g, d);
      forall i: nat | i < INODE_BLOCKS && i < BlocksFor(s.itab[d].size)
        ensures s.itab[d].blocks[i] < |s.store.disk|
        ensures s'.store.disk[s.itab[d].blocks[i]] == s.store.disk[s.itab[d].blocks[i]]
      {
        assert Owns(g.own, s.itab[d].blocks[i], d, i);
      }
    }
  }

  /** A store step that writes to blocks of files only keeps the whole invariant. */
  lemma StoreStepKeepsInv(s: Fs, s': Fs, g: Owners)
    requires Inv(s, g) && s' == s.(store := s'.store, ticks := s'.ticks)
    requires StoreOk(s'.store, s.itab, g.own) && SameButFiles(s.store.disk, s'.store.disk, s.itab, g.own)
    ensures Inv(s', g)
  {
    hide StoreOk, SlotsOk, RowsOk, TreeOk, PagesOk, OwnersOk, SameButFiles, DirsUntouched;
    FilesDoNotTouchDirs(s, s', g);
    DirectoriesFrame(s, s', g);
  }

  lemma StoreOkTypes(st: Store, itab: InodeTable, itab': InodeTable, own: seq<(nat, nat)>)
    requires StoreOk(st, itab, own) && SameDirRows(itab, itab')
    ensures StoreOk(st, itab', own)
  {
    forall k | 0 <= k < CACHE_SLOTS && st.slots[k].num != 0
      ensures IsFileBlock(own, itab', st.slots[k].num)
    {
      assert IsFileBlock(own, itab, st.slots[k].num);
    }
  }

  /** A step on the inode table and cache that leaves the directories' rows alone. */
  lemma InodeStepKeepsInv(s: Fs, s': Fs, g: Owners)
    requires Inv(s, g) && s' == s.(itab := s'.itab, icache := s'.icache, ticks := s'.ticks)
    requires SameDirRows(s.itab, s'.itab) && RowsOk(s'.itab, g) && SlotsOk(s'.icache, s'.itab, g)
    ensures Inv(s', g)
  {
    StoreOkTypes(s.store, s.itab, s'.itab, g.own);
    hide StoreOk, SlotsOk, RowsOk, TreeOk, PagesOk, OwnersOk, DirsUntouched, SameDirRows;
    FilesDoNotTouchDirs(s, s', g);
    DirectoriesFrame(s, s', g);
  }

  // ------------------------------------------------------------------ the inode cache

  /** Writing back the slot about to be replaced keeps the table sound: only a file's row can change. */
  lemma WriteBackOk(s: Fs, g: Owners)
    requires RowsOk(s.itab, g) && SlotsOk(s.icache, s.itab, g)
    ensures SameDirRows(s.itab, WriteBack(s)) && RowsOk(WriteBack(s), g) && SlotsOk(s.icache, WriteBack(s), g)
  {
    var v := s.icache[Victim(InodeTimes(s.icache))];
    assert SlotOk(v, s.itab, g);
    var t := WriteBack(s);
    forall n: nat | n < INODES ensures RowOk(t[n], n, g) {
      assert RowOk(s.itab[n], n, g);
    }
    SlotsKeepTypes(s.icache, s.itab, t, g);
  }

  lemma SlotsKeepTypes(icache: InodeCache, itab: InodeTable, itab': InodeTable, g: Owners)
    requires SlotsOk(icache, itab, g) && SameDirRows(itab, itab')
    ensures SlotsOk(icache, itab', g)
  {
    forall k | 0 <= k < INODE_SLOTS ensures SlotOk(icache[k], itab', g) {
      assert SlotOk(icache[k], itab, g);
    }
  }

  lemma AddInodeKeepsInv(s: Fs, n: InodeId, dirty: bool, g: Owners)
    requires Inv(s, g) && n < |g.par| && (dirty ==> s.itab[n].itype == FS_FILE)
    ensures Inv(AddInode(s, n, dirty), g)
  {
    var s' := AddInode(s, n, dirty);
    WriteBackOk(s, g);
    AddedSlotsOk(s, n, dirty, g);
    InodeStepKeepsInv(s, s', g);
  }

  lemma AddedSlotsOk(s: Fs, n: InodeId, dirty: bool, g: Owners)
    requires RowsOk(WriteBack(s), g) && SlotsOk(s.icache, WriteBack(s), g) && 2 <= |g.par|
    requires n < |g.par| && (dirty ==> WriteBack(s)[n].itype == FS_FILE)
    ensures SlotsOk(AddInode(s, n, dirty).icache, WriteBack(s), g)
  {
    var t, s' := WriteBack(s), AddInode(s, n, dirty);
    assert RowOk(t[n], n, g);
    forall k | 0 <= k < INODE_SLOTS ensures SlotOk(s'.icache[k], t, g) {
      assert SlotOk(s.icache[k], t, g);
    }
  }

  lemma TouchInodeKeepsInv(s: Fs, k: nat, g: Owners)
    requires Inv(s, g) && k < INODE_SLOTS
    ensures Inv(TouchInode(s, k), g)
  {
    var s' := TouchInode(s, k);
    forall j | 0 <= j < INODE_SLOTS ensures SlotOk(s'.icache[j], s.itab, g) {
      assert SlotOk(s.icache[j], s.itab, g);
    }
    InodeStepKeepsInv(s, s', g);
  }

  lemma UsedIffBelow(s: Fs, g: Owners, n: nat)
    requires MapsOk(s, g) && n < INODES
    ensures IsSet(s.inoMap, n) <==> n < |g.par|
  {
  }

  /** Looking an inode up keeps the invariant; it finds exactly the used inodes. */
  lemma AcquireKeepsInv(s: Fs, n: InodeId, g: Owners)
    requires Inv(s, g)
    ensures Inv(Acquire(s, n).0, g)
    ensures Acquire(s, n).1.Some? <==> n < |g.par|
  {
    var k := InodeSlotOf(s.icache, n);
    UsedIffBelow(s, g, n);
    if k < INODE_SLOTS {
      assert SlotOk(s.icache[k], s.itab, g);
      TouchInodeKeepsInv(s, k, g);
    } else if n < |g.par| {
      AddInodeKeepsInv(s, n, false, g);
    }
  }
}
