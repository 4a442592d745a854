/** The allocation loop of fs_write: which blocks it takes, and why they are nobody else's. */
module FsAlloc {
  import opened Bytes
  import opened Bitmap
  import opened BlockStore
  import opened FsState
  import opened FsFiles
  import opened FsTree
  import opened FsInv

  /** The reference leads to a record of inode n. */
  ghost predicate Refers(s: Fs, ref: Ref, n: nat) {
    && ValidRef(ref) && 1 <= n < INODES
    && if ref.InSlot? then s.icache[ref.k].num == n else ref.n == n
  }

  /** The inode table and cache differ only in the record behind the reference. */
  ghost predicate Rewritten(s: Fs, s': Fs, ref: Ref)
    requires ValidRef(ref)
  {
    var t := Save(s, ref, Load(s', ref));
    s'.itab == t.itab && s'.icache == t.icache
  }

  lemma OwnGrows(ino: Inode, n: nat, own: seq<(nat, nat)>, x: (nat, nat))
    requires UsesOwned(ino, n, own)
    ensures UsesOwned(ino, n, own + [x])
  {
    forall i: nat | i < INODE_BLOCKS && i < BlocksFor(ino.size) ensures Owns(own + [x], ino.blocks[i], n, i) {
      assert Owns(own, ino.blocks[i], n, i);
    }
  }

  lemma FileBlocksGrow(own: seq<(nat, nat)>, x: (nat, nat), itab: InodeTable, b: nat)
    requires IsFileBlock(own, itab, b)
    ensures IsFileBlock(own + [x], itab, b)
  {
  }

  lemma RowsGrow(itab: InodeTable, g: Owners, x: (nat, nat))
    requires RowsOk(itab, g)
    ensures RowsOk(itab, g.(own := g.own + [x]))
  {
    forall n: nat | n < INODES ensures RowOk(itab[n], n, g.(own := g.own + [x])) {
      assert RowOk(itab[n], n, g);
      if 1 <= n < |g.par| { OwnGrows(itab[n], n, g.own, x); }
    }
  }

  lemma SlotsGrow(icache: InodeCache, itab: InodeTable, g: Owners, x: (nat, nat))
    requires SlotsOk(icache, itab, g)
    ensures SlotsOk(icache, itab, g.(own := g.own + [x]))
  {
    forall k | 0 <= k < INODE_SLOTS ensures SlotOk(icache[k], itab, g.(own := g.own + [x])) {
      assert SlotOk(icache[k], itab, g);
      if icache[k].num != 0 { OwnGrows(icache[k].inode, icache[k].num, g.own, x); }
    }
  }

  lemma StoreGrow(st: Store, itab: InodeTable, own: seq<(nat, nat)>, x: (nat, nat))
    requires StoreOk(st, itab, own)
    ensures StoreOk(st, itab, own + [x])
  {
    forall k | 0 <= k < CACHE_SLOTS && st.slots[k].num != 0
      ensures IsFileBlock(own + [x], itab, st.slots[k].num)
    {
      FileBlocksGrow(own, x, itab, st.slots[k].num);
    }
  }

  lemma OwnersGrow(g: Owners, n: nat, i: nat)
    requires OwnersOk(g) && 1 <= n < |g.par| && i < INODE_BLOCKS && META_BLOCKS <= |g.own|
    ensures OwnersOk(g.(own := g.own + [(n, i)]))
  {
  }

  /** Handing the next block to place i of inode n. */
  lemma TakeBlock(s: Fs, n: nat, i: nat, g: Owners)
    requires Inv(s, g) && 1 <= n < |g.par| && i < INODE_BLOCKS && |g.own| < s.NumBlocks()
    ensures Inv(s.(blkMap := Set(s.blkMap, |g.own|)), g.(own := g.own + [(n, i)]))
  {
    SetExtendsPrefix(s.blkMap, |g.own|);
    RowsGrow(s.itab, g, (n, i));
    SlotsGrow(s.icache, s.itab, g, (n, i));
    StoreGrow(s.store, s.itab, g.own, (n, i));
    OwnersGrow(g, n, i);
    hide RowsOk, SlotsOk, StoreOk, TreeOk, PageSound;
  }

  // ------------------------------------------------------------------ changing a record

  /** A record of a file that may replace another of the same inode. */
  ghost predicate FileRecordOk(ino: Inode, n: nat, g: Owners) {
    Fits(ino) && ino.itype == FS_FILE && UsesOwned(ino, n, g.own)
  }

  lemma SaveKeepsInv(s: Fs, ref: Ref, n: nat, ino: Inode, g: Owners)
    requires Inv(s, g) && Refers(s, ref, n) && n < |g.par| && s.itab[n].itype == FS_FILE
    requires FileRecordOk(ino, n, g)
    ensures Inv(Save(s, ref, ino), g)
  {
    var s' := Save(s, ref, ino);
    if ref.InRow? {
      forall m: nat | m < INODES ensures RowOk(s'.itab[m], m, g) {
        assert RowOk(s.itab[m], m, g);
      }
      SlotsKeepTypes(s.icache, s.itab, s'.itab, g);
    } else {
      forall k | 0 <= k < INODE_SLOTS ensures SlotOk(s'.icache[k], s.itab, g) {
        assert SlotOk(s.icache[k], s.itab, g);
      }
    }
    InodeStepKeepsInv(s, s', g);
  }

  lemma MarkDirtyKeepsInv(s: Fs, ref: Ref, n: nat, g: Owners)
    requires Inv(s, g) && Refers(s, ref, n) && n < |g.par| && s.itab[n].itype == FS_FILE
    ensures Inv(MarkDirty(s, ref), g)
  {
    var s' := MarkDirty(s, ref);
    if ref.InSlot? {
      forall k | 0 <= k < INODE_SLOTS ensures SlotOk(s'.icache[k], s.itab, g) {
        assert SlotOk(s.icache[k], s.itab, g);
      }
      InodeStepKeepsInv(s, s', g);
    }
  }

  /** A record in the state is sound. */
  lemma LoadedOk(s: Fs, ref: Ref, n: nat, g: Owners)
    requires Inv(s, g) && Refers(s, ref, n) && n < |g.par|
    ensures var ino := Load(s, ref);
      Fits(ino) && ino.itype == s.itab[n].itype && UsesOwned(ino, n, g.own)
  {
    if ref.InSlot? {
      assert SlotOk(s.icache[ref.k], s.itab, g);
    } else {
      assert RowOk(s.itab[n], n, g);
    }
  }

  lemma BeyondUsed(ino: Inode, n: nat, own: seq<(nat, nat)>, i: nat, b: nat)
    requires UsesOwned(ino, n, own) && BlocksFor(ino.size) <= i < INODE_BLOCKS
    ensures UsesOwned(ino.(blocks := ino.blocks[i := b]), n, own)
  {
    var blocks := ino.blocks[i := b];
    forall j: nat | j < INODE_BLOCKS && j < BlocksFor(ino.size) ensures Owns(own, blocks[j], n, j) {
      assert Owns(own, ino.blocks[j], n, j);
    }
  }

  // ------------------------------------------------------------------ one turn

  /** The block taken is the first never used; it comes in zeroed and no other block's view changes. */
  lemma AllocOneOk(s: Fs, ref: Ref, n: nat, i: nat, g: Owners)
    requires Inv(s, g) && Refers(s, ref, n) && n < |g.par| && s.itab[n].itype == FS_FILE
    requires BlocksFor(Load(s, ref).size) <= i < INODE_BLOCKS && |g.own| < s.NumBlocks()
    ensures var (b, ino) := (|g.own|, Load(s, ref));
      var s' := AllocOne(s, ref, i, b);
      && Inv(s', g.(own := g.own + [(n, i)])) && Refers(s', ref, n) && Rewritten(s, s', ref)
      && Load(s', ref) == ino.(blocks := ino.blocks[i := b])
      && s'.inoMap == s.inoMap && s'.dcache == s.dcache && s'.time == s.time && s'.NumBlocks() == s.NumBlocks()
      && View(s'.store, b) == Zeros(BLOCK_SIZE) && SameViewsBut(s.store, s'.store, b)
  {
    var (b, ino) := (|g.own|, Load(s, ref));
    var g1 := g.(own := g.own + [(n, i)]);
    var s1 := s.(blkMap := Set(s.blkMap, b));
    var ino1 := ino.(blocks := ino.blocks[i := b]);
    var s2 := Save(s1, ref, ino1);
    var s3 := AllocOne(s, ref, i, b);
    TakeBlock(s, n, i, g);
    LoadedOk(s1, ref, n, g1);
    BeyondUsed(ino, n, g1.own, i, b);
    SaveKeepsInv(s1, ref, n, ino1, g1);
    NotCachedYet(s, g);
    StoreAdd(s2.store, b, Zeros(BLOCK_SIZE), true, s2.Now(), s2.itab, g1.own);
    hide Inv, StoreOk, View;
    StoreStepKeepsInv(s2, s3, g1);
  }

  lemma NotCachedYet(s: Fs, g: Owners)
    requires Inv(s, g)
    ensures Slotted(s.store, |g.own|) == CACHE_SLOTS
  {
    forall k | 0 <= k < CACHE_SLOTS ensures s.store.slots[k].num != |g.own| {
      assert s.store.slots[k].num != 0 ==> IsFileBlock(g.own, s.itab, s.store.slots[k].num);
    }
  }

  // ------------------------------------------------------------------ the loop

  /** Places i .. m-1 of inode n, in order. */
  function Places(n: nat, i: nat, m: nat): (p: seq<(nat, nat)>)
    requires i <= m
    ensures |p| == m - i && forall j :: 0 <= j < |p| ==> p[j] == (n, i + j)
  {
    seq(m - i, j requires 0 <= j => (n, i + j))
  }

  /** Places i .. m-1 of the record hold the blocks from b on; nothing else in it differs. */
  ghost predicate Allocated(ino: Inode, ino': Inode, i: nat, m: nat, b: nat) {
    && ino'.itype == ino.itype && ino'.size == ino.size && ino'.reserved == ino.reserved
    && forall j :: 0 <= j < INODE_BLOCKS ==> ino'.blocks[j] == if i <= j < m then b + (j - i) else ino.blocks[j]
  }

  /** Blocks b .. end-1 are zero and every other block looks as before. */
  ghost predicate ZeroedFrom(st: Store, st': Store, b: nat, end: nat) {
    && SameBlockZero(st, st')
    && forall c: nat :: 0 < c < |st.disk| ==> View(st', c) == if b <= c < end then Zeros(BLOCK_SIZE) else View(st, c)
  }

  /** What the allocation loop has done once it stops at place m. */
  ghost predicate AllocEffect(s: Fs, s': Fs, ref: Ref, n: nat, i: nat, m: nat, g: Owners)
    requires ValidRef(ref) && i <= m
  {
    && Inv(s', g.(own := g.own + Places(n, i, m))) && Refers(s', ref, n) && Rewritten(s, s', ref)
    && Allocated(Load(s, ref), Load(s', ref), i, m, |g.own|)
    && s'.inoMap == s.inoMap && s'.dcache == s.dcache && s'.time == s.time && s'.NumBlocks() == s.NumBlocks()
    && ZeroedFrom(s.store, s'.store, |g.own|, |g.own| + (m - i))
  }

  lemma NextFreeBlock(s: Fs, g: Owners)
    requires Inv(s, g)
    ensures FindFree(s.blkMap, 0, s.NumBlocks()) == if |g.own| < s.NumBlocks() then Some(|g.own|) else None
    ensures META_BLOCKS <= |g.own| <= s.NumBlocks()
  {
    FindFreeIsNext(s.blkMap, |g.own|, s.NumBlocks());
  }

  /**
   The loop takes consecutive blocks, the first never used ones, until the places are filled or the disk is
   full; it fails exactly when the disk is too small.
   */
  lemma {:induction false} AllocLoopOk(s: Fs, ref: Ref, n: nat, i: nat, end: nat, g: Owners) returns (m: nat)
    requires Inv(s, g) && Refers(s, ref, n) && n < |g.par| && s.itab[n].itype == FS_FILE
    requires BlocksFor(Load(s, ref).size) <= i <= end <= INODE_BLOCKS
    ensures i <= m <= end
    ensures AllocLoop(s, ref, i, end).1 <==> m == end
    ensures m == end <==> |g.own| + (end - i) <= s.NumBlocks()
    ensures m < end ==> |g.own| + (m - i) == s.NumBlocks()
    ensures AllocEffect(s, AllocLoop(s, ref, i, end).0, ref, n, i, m, g)
    decreases end - i
  {
    hide Inv, AllocOne, View, AllocEffect, Rewritten;
    NextFreeBlock(s, g);
    if i == end || |g.own| == s.NumBlocks() {
      m := i;
      NothingAllocated(s, ref, n, i, g);
    } else {
      var s1 := AllocTurn(s, ref, n, i, end, g);
      hide AllocLoop;
      m := AllocLoopOk(s1, ref, n, i + 1, end, g.(own := g.own + [(n, i)]));
      AllocEffectsCompose(s, s1, AllocLoop(s1, ref, i + 1, end).0, ref, n, i, m, g);
    }
  }

  lemma AllocTurn(s: Fs, ref: Ref, n: nat, i: nat, end: nat, g: Owners) returns (s1: Fs)
    requires Inv(s, g) && Refers(s, ref, n) && n < |g.par| && s.itab[n].itype == FS_FILE
    requires BlocksFor(Load(s, ref).size) <= i < end <= INODE_BLOCKS && |g.own| < s.NumBlocks()
    ensures AllocLoop(s, ref, i, end) == AllocLoop(s1, ref, i + 1, end)
    ensures Inv(s1, g.(own := g.own + [(n, i)])) && Refers(s1, ref, n) && Rewritten(s, s1, ref)
    ensures var ino := Load(s, ref); Load(s1, ref) == ino.(blocks := ino.blocks[i := |g.own|])
    ensures s1.inoMap == s.inoMap && s1.dcache == s.dcache && s1.time == s.time && s1.NumBlocks() == s.NumBlocks()
    ensures View(s1.store, |g.own|) == Zeros(BLOCK_SIZE) && SameViewsBut(s.store, s1.store, |g.own|)
    ensures s1.itab[n].itype == FS_FILE
  {
    hide Inv, AllocOne, View;
    NextFreeBlock(s, g);
    s1 := AllocOne(s, ref, i, |g.own|);
    AllocOneOk(s, ref, n, i, g);
  }

  lemma NothingAllocated(s: Fs, ref: Ref, n: nat, i: nat, g: Owners)
    requires Inv(s, g) && Refers(s, ref, n)
    ensures AllocEffect(s, s, ref, n, i, i, g)
  {
    hide Inv;
    assert g.own + Places(n, i, i) == g.own;
    var t := Save(s, ref, Load(s, ref));
    assert t.icache == s.icache && t.itab == s.itab;
  }

  lemma AllocEffectsCompose(s: Fs, s1: Fs, s': Fs, ref: Ref, n: nat, i: nat, m: nat, g: Owners)
    requires ValidRef(ref) && i < m
    requires var ino := Load(s, ref); i < INODE_BLOCKS && Load(s1, ref) == ino.(blocks := ino.blocks[i := |g.own|])
    requires Rewritten(s, s1, ref)
    requires s1.inoMap == s.inoMap && s1.dcache == s.dcache && s1.time == s.time && s1.NumBlocks() == s.NumBlocks()
    requires View(s1.store, |g.own|) == Zeros(BLOCK_SIZE) && SameViewsBut(s.store, s1.store, |g.own|)
    requires META_BLOCKS <= |g.own| < s.NumBlocks()
    requires AllocEffect(s1, s', ref, n, i + 1, m, g.(own := g.own + [(n, i)]))
    ensures AllocEffect(s, s', ref, n, i, m, g)
  {
    hide Inv, View;
    assert g.own + [(n, i)] + Places(n, i + 1, m) == g.own + Places(n, i, m);
    assert Rewritten(s, s', ref) by { RewrittenTwice(s, s1, s', ref); }
  }

  lemma RewrittenTwice(s: Fs, s1: Fs, s2: Fs, ref: Ref)
    requires ValidRef(ref) && Rewritten(s, s1, ref) && Rewritten(s1, s2, ref)
    ensures Rewritten(s, s2, ref)
  {
    if ref.InSlot? {
      assert s.icache[ref.k := s.icache[ref.k].(inode := Load(s2, ref))] == s2.icache;
    } else {
      assert s.itab[ref.n := Load(s2, ref)] == s2.itab;
    }
  }
}
