/** fs_write as a whole: exactly when it succeeds, that it splices, and that a failure changes no content. */
module FsWriting {
  import opened Bytes
  import opened Slots
  import opened BlockStore
  import opened FsState
  import opened FsFiles
  import opened FsInv
  import opened FsContent
  import opened FsAlloc
  import opened FsSplice

  /** The bytes of the buffer laid over the old content from offset on. */
  function Splice(old_: seq<byte>, offset: nat, buffer: seq<byte>): (r: seq<byte>)
    requires offset <= |old_|
    ensures |r| == Max(|old_|, offset + |buffer|)
    ensures forall p :: 0 <= p < |r| ==>
      r[p] == if offset <= p < offset + |buffer| then buffer[p - offset] else old_[p]
  {
    old_[..offset] + buffer + if offset + |buffer| <= |old_| then old_[offset + |buffer|..] else []
  }

  /** There are block entries in the inode and free blocks on the disk for what the write needs. */
  predicate HasRoom(size: nat, offset: nat, count: nat, used: nat, numBlocks: nat) {
    var req := BlocksNeeded(size, offset, count);
    req == 0 || (BlocksFor(size) + req <= INODE_BLOCKS && used + req <= numBlocks)
  }

  /** New blocks are needed only by a write that makes the file longer. */
  lemma NeedsBlocksOnlyToGrow(size: nat, offset: nat, count: nat)
    ensures BlocksNeeded(size, offset, count) > 0 ==> offset + count > size
  {
  }

  /** The allocated record is owned up to its new end. */
  lemma AllocatedOwns(ino: Inode, ino': Inode, n: nat, i: nat, m: nat, own: seq<(nat, nat)>)
    requires UsesOwned(ino, n, own) && BlocksFor(ino.size) == i <= m <= INODE_BLOCKS && META_BLOCKS <= |own|
    requires Allocated(ino, ino', i, m, |own|)
    ensures OwnsUpTo(ino', n, own + Places(n, i, m), m)
  {
    var own' := own + Places(n, i, m);
    forall j: nat | j < INODE_BLOCKS && j < m ensures Owns(own', ino'.blocks[j], n, j) {
      if j < i {
        assert Owns(own, ino.blocks[j], n, j);
      } else {
        assert ino'.blocks[j] == |own| + (j - i);
        assert own'[|own| + (j - i)] == Places(n, i, m)[j - i];
      }
    }
  }

  /** Allocation changes no byte of the old content. */
  lemma AllocKeepsBytes(st: Store, st': Store, ino: Inode, ino': Inode, n: nat, i: nat, m: nat, own: seq<(nat, nat)>,
        p: nat)
    requires UsesOwned(ino, n, own) && BlocksFor(ino.size) == i <= m <= INODE_BLOCKS && |own| <= |st.disk|
    requires Allocated(ino, ino', i, m, |own|) && ZeroedFrom(st, st', |own|, |own| + (m - i))
    requires p < ino.size
    ensures ByteAt(st', ino', p) == ByteAt(st, ino, p)
  {
    hide View;
    InUsedRange(p, ino.size);
    var j := p / BLOCK_SIZE;
    assert Owns(own, ino.blocks[j], n, j);
    assert ino'.blocks[j] == ino.blocks[j];
  }

  lemma SpliceContent(st: Store, st2: Store, st3: Store, ino: Inode, ino3: Inode, nb: nat, offset: nat,
        buffer: seq<byte>)
    requires offset <= ino.size <= BLOCK_SIZE * nb && offset + |buffer| <= BLOCK_SIZE * nb
    requires forall p :: 0 <= p < ino.size ==> ByteAt(st2, ino3, p) == ByteAt(st, ino, p)
    requires Spliced(st2, st3, ino3, nb, offset, buffer, 0, |buffer|)
    ensures Content(st3, ino3.(size := Max(ino.size, offset + |buffer|))) == Splice(Content(st, ino), offset, buffer)
  {
    var ino' := ino3.(size := Max(ino.size, offset + |buffer|));
    hide View;
    var want := Splice(Content(st, ino), offset, buffer);
    forall p | 0 <= p < ino'.size ensures Content(st3, ino')[p] == want[p] {
      assert ByteAt(st3, ino', p) == ByteAt(st3, ino3, p);
      assert p < BLOCK_SIZE * nb;
    }
  }

  // ------------------------------------------------------------------ the stages of a write

  /** The owners after req more blocks for inode n. */
  function Extended(g: Owners, n: nat, used: nat, req: nat): Owners {
    g.(own := g.own + Places(n, used, used + req))
  }

  /** The record behind the reference is ino; a cached one is dirty if it was or the flag says so; all else is as
   before. */
  ghost predicate Recorded(s: Fs, s': Fs, ref: Ref, ino: Inode, dirty: bool)
    requires ValidRef(ref)
  {
    if ref.InSlot? then
      && s'.itab == s.itab
      && s'.icache == s.icache[ref.k := s.icache[ref.k].(inode := ino, dirty := s.icache[ref.k].dirty || dirty)]
    else s'.itab == s.itab[ref.n := ino] && s'.icache == s.icache
  }

  /** The parts of the state no write touches. */
  ghost predicate SameElsewhere(s: Fs, s': Fs) {
    && s'.inoMap == s.inoMap && s'.dcache == s.dcache && s'.time == s.time && s'.NumBlocks() == s.NumBlocks()
    && SameDirRows(s.itab, s'.itab)
  }

  lemma ReserveOk(s: Fs, ref: Ref, n: nat, used: nat, req: nat, g: Owners)
    requires Inv(s, g) && Refers(s, ref, n) && n < |g.par| && s.itab[n].itype == FS_FILE
    requires used == BlocksFor(Load(s, ref).size)
    requires used + req <= INODE_BLOCKS && (req == 0 || |g.own| + req <= s.NumBlocks())
    ensures var (s2, ok) := Reserve(s, ref, used, req);
      && ok && Inv(s2, Extended(g, n, used, req)) && Refers(s2, ref, n) && SameElsewhere(s, s2)
      && Allocated(Load(s, ref), Load(s2, ref), used, used + req, |g.own|)
      && ZeroedFrom(s.store, s2.store, |g.own|, |g.own| + req)
      && Recorded(s, s2, ref, Load(s2, ref), req > 0)
  {
    hide Inv, ZeroedFrom, Allocated, AllocLoop, BlocksFor, View;
    if req == 0 {
      NothingAllocated(s, ref, n, used, g);
    } else {
      var m := AllocLoopOk(s, ref, n, used, used + req, g);
      var s1 := AllocLoop(s, ref, used, used + req).0;
      TypeKept(s, s1, ref, n, used, m, g);
      MarkDirtyKeepsInv(s1, ref, n, Extended(g, n, used, req));
    }
  }

  lemma TypeKept(s: Fs, s1: Fs, ref: Ref, n: nat, i: nat, m: nat, g: Owners)
    requires Refers(s, ref, n) && Rewritten(s, s1, ref) && i <= m
    requires Allocated(Load(s, ref), Load(s1, ref), i, m, |g.own|)
    ensures s1.itab[n].itype == s.itab[n].itype
  {
  }

  lemma ZeroedKeepsOthers(st: Store, st1: Store, n: nat, used: nat, req: nat, own: seq<(nat, nat)>)
    requires ZeroedFrom(st, st1, |own|, |own| + req)
    ensures OthersKept(st, st1, n, own + Places(n, used, used + req))
  {
    hide View;
    var own' := own + Places(n, used, used + req);
    assert forall c: nat :: |own| <= c < |own'| ==> own'[c].0 == n;
  }

  /** The bytes are in place and the size is still the old one: ino became ino3 in the store reached. */
  ghost predicate PlacedIn(st: Store, st3: Store, ino: Inode, ino3: Inode, n: nat, offset: nat, buffer: seq<byte>,
        req: nat, g: Owners)
    requires offset <= ino.size
  {
    var own' := Extended(g, n, BlocksFor(ino.size), req).own;
    && BlocksFor(ino.size) + req <= INODE_BLOCKS
    && Allocated(ino, ino3, BlocksFor(ino.size), BlocksFor(ino.size) + req, |g.own|)
    && OwnsUpTo(ino3, n, own', BlocksFor(ino.size) + req)
    && OthersKept(st, st3, n, own')
    && Content(st3, ino3.(size := Max(ino.size, offset + |buffer|))) == Splice(Content(st, ino), offset, buffer)
  }

  ghost predicate Placed(s: Fs, s3: Fs, ref: Ref, n: nat, offset: nat, buffer: seq<byte>, req: nat, g: Owners)
    requires ValidRef(ref) && offset <= Load(s, ref).size
  {
    var ino, ino3 := Load(s, ref), Load(s3, ref);
    && Inv(s3, Extended(g, n, BlocksFor(ino.size), req)) && Refers(s3, ref, n) && SameElsewhere(s, s3)
    && Recorded(s, s3, ref, ino3, req > 0)
    && PlacedIn(s.store, s3.store, ino, ino3, n, offset, buffer, req, g)
  }

  lemma FitsInBlocks(size: nat, offset: nat, count: nat)
    requires offset <= size
    ensures var nb := BlocksFor(size) + BlocksNeeded(size, offset, count);
      size <= BLOCK_SIZE * nb && offset + count <= BLOCK_SIZE * nb
  {
  }

  /** With room for it, everything up to the size step succeeds. */
  lemma BytesPlaced(s: Fs, ref: Ref, n: nat, offset: nat, buffer: seq<byte>, used: nat, req: nat,
        g: Owners) returns (s3: Fs)
    requires Inv(s, g) && Refers(s, ref, n) && n < |g.par| && s.itab[n].itype == FS_FILE
    requires offset <= Load(s, ref).size && HasRoom(Load(s, ref).size, offset, |buffer|, |g.own|, s.NumBlocks())
    requires used == BlocksFor(Load(s, ref).size) && req == BlocksNeeded(Load(s, ref).size, offset, |buffer|)
    ensures used + req <= INODE_BLOCKS
    ensures var (s2, ok) := Reserve(s, ref, used, req);
      ok && WriteLoop(s2, Load(s2, ref), offset, buffer, 0, offset / BLOCK_SIZE) == (s3, Ok(()))
    ensures Placed(s, s3, ref, n, offset, buffer, req, g)
  {
    var ino := Load(s, ref);
    LoadedOk(s, ref, n, g);
    InvBounds(s, g);
    RoomFits(ino, n, offset, |buffer|, |g.own|, s.NumBlocks(), g.own);
    ReserveOk(s, ref, n, used, req, g);
    var s2 := Reserve(s, ref, used, req).0;
    hide Inv, Reserve, UsesOwned, Allocated, ZeroedFrom, WriteLoop, Recorded, HasRoom, BlocksFor, BlocksNeeded, Placed;
    FitsInBlocks(ino.size, offset, |buffer|);
    BytesWritten(s, s2, ref, n, offset, buffer, req, g);
    s3 := WriteLoop(s2, Load(s2, ref), offset, buffer, 0, offset / BLOCK_SIZE).0;
  }

  lemma RoomFits(ino: Inode, n: nat, offset: nat, count: nat, usedBlocks: nat, numBlocks: nat, own: seq<(nat, nat)>)
    requires UsesOwned(ino, n, own) && HasRoom(ino.size, offset, count, usedBlocks, numBlocks)
    ensures var req := BlocksNeeded(ino.size, offset, count);
      BlocksFor(ino.size) + req <= INODE_BLOCKS && (req == 0 || usedBlocks + req <= numBlocks)
  {
  }

  lemma BytesWritten(s: Fs, s2: Fs, ref: Ref, n: nat, offset: nat, buffer: seq<byte>, req: nat, g: Owners)
    requires ValidRef(ref) && UsesOwned(Load(s, ref), n, g.own) && META_BLOCKS <= |g.own| <= s.NumBlocks()
          && n < |g.par|
    requires var ino, used := Load(s, ref), BlocksFor(Load(s, ref).size);
      && used + req <= INODE_BLOCKS && offset <= ino.size <= BLOCK_SIZE * (used + req)
            && offset + |buffer| <= BLOCK_SIZE * (used + req)
      && ino.itype == FS_FILE
      && Inv(s2, Extended(g, n, used, req)) && Refers(s2, ref, n) && SameElsewhere(s, s2)
      && Allocated(ino, Load(s2, ref), used, used + req, |g.own|)
      && ZeroedFrom(s.store, s2.store, |g.own|, |g.own| + req)
      && Recorded(s, s2, ref, Load(s2, ref), req > 0)
    ensures var (s3, r) := WriteLoop(s2, Load(s2, ref), offset, buffer, 0, offset / BLOCK_SIZE);
      r == Ok(()) && Placed(s, s3, ref, n, offset, buffer, req, g)
  {
    var (ino, ino2) := (Load(s, ref), Load(s2, ref));
    var used := BlocksFor(ino.size);
    var g' := Extended(g, n, used, req);
    hide Inv, View, UsesOwned, OwnsUpTo, ZeroedFrom, Spliced, WriteLoop, BlocksFor, Recorded, SameElsewhere, PlacedIn;
    AllocatedOwns(ino, ino2, n, used, used + req, g.own);
    LoadedOk(s2, ref, n, g');
    WriteFromStart(s2, ino2, n, used + req, offset, buffer, g');
    var s3 := WriteLoop(s2, ino2, offset, buffer, 0, offset / BLOCK_SIZE).0;
    StoreStepKeepsRecord(s, s2, s3, ref, n, req > 0);
    StoresPlaced(s.store, s2.store, s3.store, ino, ino2, n, used, req, offset, buffer, g);
  }

  lemma StoresPlaced(st: Store, st2: Store, st3: Store, ino: Inode, ino2: Inode, n: nat, used: nat, req: nat,
                     offset: nat, buffer: seq<byte>, g: Owners)
    requires UsesOwned(ino, n, g.own) && BlocksFor(ino.size) == used && used + req <= INODE_BLOCKS
    requires META_BLOCKS <= |g.own| <= |st.disk|
    requires Allocated(ino, ino2, used, used + req, |g.own|) && ZeroedFrom(st, st2, |g.own|, |g.own| + req)
    requires offset <= ino.size <= BLOCK_SIZE * (used + req) && offset + |buffer| <= BLOCK_SIZE * (used + req)
    requires Spliced(st2, st3, ino2, used + req, offset, buffer, 0, |buffer|)
    requires OthersKept(st2, st3, n, Extended(g, n, used, req).own)
    ensures PlacedIn(st, st3, ino, ino2, n, offset, buffer, req, g)
  {
    hide UsesOwned, Allocated, ZeroedFrom, ByteAt, Content, View, Spliced, OwnsUpTo, OthersKept;
    AllocatedOwns(ino, ino2, n, used, used + req, g.own);
    ContentPlaced(st, st2, st3, ino, ino2, n, used, req, offset, buffer, g.own);
    OthersPlaced(st, st2, st3, n, used, req, g);
  }

  lemma StoreStepKeepsRecord(s: Fs, s2: Fs, s3: Fs, ref: Ref, n: nat, dirty: bool)
    requires Refers(s2, ref, n) && SameElsewhere(s, s2) && Recorded(s, s2, ref, Load(s2, ref), dirty)
    requires s3 == s2.(store := s3.store, ticks := s3.ticks) && s3.NumBlocks() == s2.NumBlocks()
    ensures Load(s3, ref) == Load(s2, ref) && Refers(s3, ref, n)
    ensures SameElsewhere(s, s3) && Recorded(s, s3, ref, Load(s3, ref), dirty)
  {
  }

  lemma OthersPlaced(st: Store, st2: Store, st3: Store, n: nat, used: nat, req: nat, g: Owners)
    requires ZeroedFrom(st, st2, |g.own|, |g.own| + req) && OthersKept(st2, st3, n, Extended(g, n, used, req).own)
    ensures OthersKept(st, st3, n, Extended(g, n, used, req).own)
  {
    ZeroedKeepsOthers(st, st2, n, used, req, g.own);
    OthersKeptTwice(st, st2, st3, n, Extended(g, n, used, req).own);
  }

  lemma WriteFromStart(s: Fs, ino: Inode, n: nat, nb: nat, offset: nat, buffer: seq<byte>, g: Owners)
    requires Inv(s, g) && n < INODES && s.itab[n].itype == FS_FILE && OwnsUpTo(ino, n, g.own, nb) && nb <= INODE_BLOCKS
    requires offset + |buffer| <= BLOCK_SIZE * nb
    ensures var (s', r) := WriteLoop(s, ino, offset, buffer, 0, offset / BLOCK_SIZE);
      && r == Ok(()) && Inv(s', g) && s' == s.(store := s'.store, ticks := s'.ticks) && s'.NumBlocks() == s.NumBlocks()
      && OthersKept(s.store, s'.store, n, g.own) && Spliced(s.store, s'.store, ino, nb, offset, buffer, 0, |buffer|)
  {
    hide View;
    hide Inv, OwnsUpTo, WriteLoop, Spliced;
    WriteLoopOk(s, ino, n, nb, offset, buffer, 0, offset / BLOCK_SIZE, g);
  }

  lemma ContentPlaced(st: Store, st2: Store, st3: Store, ino: Inode, ino2: Inode, n: nat, used: nat, req: nat,
                      offset: nat, buffer: seq<byte>, own: seq<(nat, nat)>)
    requires UsesOwned(ino, n, own) && BlocksFor(ino.size) == used && used + req <= INODE_BLOCKS && |own| <= |st.disk|
    requires Allocated(ino, ino2, used, used + req, |own|) && ZeroedFrom(st, st2, |own|, |own| + req)
    requires offset <= ino.size <= BLOCK_SIZE * (used + req) && offset + |buffer| <= BLOCK_SIZE * (used + req)
    requires Spliced(st2, st3, ino2, used + req, offset, buffer, 0, |buffer|)
    ensures Content(st3, ino2.(size := Max(ino.size, offset + |buffer|))) == Splice(Content(st, ino), offset, buffer)
  {
    hide UsesOwned, Allocated, ZeroedFrom, ByteAt, Content, View, Spliced;
    forall p | 0 <= p < ino.size ensures ByteAt(st2, ino2, p) == ByteAt(st, ino, p) {
      AllocKeepsBytes(st, st2, ino, ino2, n, used, used + req, own, p);
    }
    SpliceContent(st, st2, st3, ino, ino2, used + req, offset, buffer);
  }

  // ------------------------------------------------------------------ the new size

  lemma LongerFits(ino: Inode, ino3: Inode, n: nat, offset: nat, count: nat, req: nat, own: seq<(nat, nat)>)
    requires req == BlocksNeeded(ino.size, offset, count) && BlocksFor(ino.size) + req <= INODE_BLOCKS
    requires OwnsUpTo(ino3, n, own, BlocksFor(ino.size) + req)
    ensures UsesOwned(ino3.(size := Max(ino.size, offset + count)), n, own)
  {
    var ino' := ino3.(size := Max(ino.size, offset + count));
    assert BlocksFor(ino'.size) <= BlocksFor(ino.size) + req;
    forall i: nat | i < INODE_BLOCKS && i < BlocksFor(ino'.size) ensures Owns(own, ino'.blocks[i], n, i) {
      assert Owns(own, ino3.blocks[i], n, i);
    }
  }

  lemma LoadSave(s: Fs, ref: Ref, ino: Inode)
    requires ValidRef(ref)
    ensures Load(Save(s, ref, ino), ref) == ino && Load(MarkDirty(Save(s, ref, ino), ref), ref) == ino
  {
  }

  /** A row written in place survives the insertion that follows, unless a dirty copy of it is written back. */
  lemma RowSurvivesAdd(s: Fs, n: InodeId)
    requires forall k :: 0 <= k < INODE_SLOTS && s.icache[k].num == n ==> !s.icache[k].dirty
    ensures AddInode(s, n, true).itab[n] == s.itab[n]
  {
  }

  ghost predicate NoDirtyCopy(s: Fs, n: nat) {
    forall k :: 0 <= k < INODE_SLOTS && s.icache[k].num == n ==> !s.icache[k].dirty
  }

  /** The size step keeps the invariant and leaves the longer record behind the reference. */
  lemma GrowOk(s: Fs, file: InodeId, ref: Ref, size: nat, g: Owners)
    requires Inv(s, g) && Refers(s, ref, file) && file < |g.par| && s.itab[file].itype == FS_FILE
    requires size <= MAX_FILE && UsesOwned(Load(s, ref).(size := size), file, g.own)
    requires ref.InRow? ==> NoDirtyCopy(s, file)
    ensures var s' := Grow(s, file, ref, size);
      && Inv(s', g) && Load(s', ref) == Load(s, ref).(size := size) && s'.store == s.store
      && SameElsewhere(s, s')
  {
    hide Inv, UsesOwned, Fits;
    var ino := Load(s, ref).(size := size);
    var s1 := Save(s, ref, ino);
    LoadSave(s, ref, ino);
    LongerRecordOk(s, ref, file, size, g);
    SaveKeepsInv(s, ref, file, ino, g);
    if ref.InRow? {
      SavedRowSurvives(s, s1, file, ino, g);
    } else {
      MarkDirtyKeepsInv(s1, ref, file, g);
    }
  }

  lemma LongerRecordOk(s: Fs, ref: Ref, file: InodeId, size: nat, g: Owners)
    requires Inv(s, g) && Refers(s, ref, file) && file < |g.par| && s.itab[file].itype == FS_FILE
    requires size <= MAX_FILE && UsesOwned(Load(s, ref).(size := size), file, g.own)
    ensures FileRecordOk(Load(s, ref).(size := size), file, g)
  {
    LoadedOk(s, ref, file, g);
  }

  lemma SavedRowSurvives(s: Fs, s1: Fs, file: InodeId, ino: Inode, g: Owners)
    requires s1 == s.(itab := s.itab[file := ino]) && Inv(s1, g) && file < |g.par|
    requires s.itab[file].itype == FS_FILE == ino.itype && NoDirtyCopy(s, file)
    ensures var s' := AddInode(s1, file, true);
      Inv(s', g) && s'.itab[file] == ino && s'.store == s.store && SameElsewhere(s, s')
  {
    AddInodeKeepsInv(s1, file, true, g);
    RowSurvivesAdd(s1, file);
    WriteBackOk(s1, g);
    hide Inv;
  }

  // ------------------------------------------------------------------ success

  /** A successful write: the record behind the reference now holds the spliced content; no other inode's block
   changed. */
  ghost predicate WriteEffect(s: Fs, s': Fs, ref: Ref, file: nat, offset: nat, buffer: seq<byte>, own': seq<(nat, nat)>)
    requires ValidRef(ref) && offset <= Load(s, ref).size
  {
    && Load(s', ref).itype == FS_FILE
    && Content(s'.store, Load(s', ref)) == Splice(Content(s.store, Load(s, ref)), offset, buffer)
    && OthersKept(s.store, s'.store, file, own')
    && SameElsewhere(s, s')
  }

  /** With room, the write is the size step applied to the placed bytes. */
  lemma WriteReaches(s: Fs, file: InodeId, ref: Ref, offset: nat, buffer: seq<byte>, req: nat,
        g: Owners) returns (s3: Fs)
    requires Inv(s, g) && Refers(s, ref, file) && file < |g.par| && s.itab[file].itype == FS_FILE
    requires offset <= Load(s, ref).size && HasRoom(Load(s, ref).size, offset, |buffer|, |g.own|, s.NumBlocks())
    requires req == BlocksNeeded(Load(s, ref).size, offset, |buffer|)
    ensures Placed(s, s3, ref, file, offset, buffer, req, g)
    ensures WriteThrough(s, file, ref, offset, buffer)
         == (if offset + |buffer| > Load(s, ref).size then Grow(s3, file, ref, offset + |buffer|) else s3, Ok(()))
  {
    s3 := BytesPlaced(s, ref, file, offset, buffer, BlocksFor(Load(s, ref).size), req, g);
    hide Inv, Reserve, WriteLoop, Grow, Placed, HasRoom, BlocksFor, BlocksNeeded;
  }

  /**
   With room the write succeeds: the record written through holds the spliced content, no block of another inode
   changed, and of the table and the inode cache only what TablesAfter says.
   */
  lemma WriteSucceeds(s: Fs, file: InodeId, ref: Ref, offset: nat, buffer: seq<byte>, g: Owners)
    requires Inv(s, g) && Refers(s, ref, file) && file < |g.par| && s.itab[file].itype == FS_FILE
    requires offset <= Load(s, ref).size && HasRoom(Load(s, ref).size, offset, |buffer|, |g.own|, s.NumBlocks())
    requires ref.InRow? ==> NoDirtyCopy(s, file)
    ensures var (s', r) := WriteThrough(s, file, ref, offset, buffer);
      var g' := Extended(g, file, BlocksFor(Load(s, ref).size), BlocksNeeded(Load(s, ref).size, offset, |buffer|));
      && r == Ok(()) && Inv(s', g') && WriteEffect(s, s', ref, file, offset, buffer, g'.own)
      && TablesAfter(s, s', file, ref, Grows(s, ref, offset, |buffer|))
  {
    hide Inv, WriteThrough, Grow, Placed, WriteEffect, HasRoom, BlocksFor, BlocksNeeded, UsesOwned, TablesAfter, Grows;
    WriteTables(s, file, ref, offset, buffer, g);
    var req := BlocksNeeded(Load(s, ref).size, offset, |buffer|);
    var s3 := WriteReaches(s, file, ref, offset, buffer, req, g);
    LoadedOk(s, ref, file, g);
    SizeStep(s, s3, file, ref, offset, buffer, req, g);
  }

  lemma SizeStep(s: Fs, s3: Fs, file: InodeId, ref: Ref, offset: nat, buffer: seq<byte>, req: nat, g: Owners)
    requires Inv(s, g) && Refers(s, ref, file) && file < |g.par| && s.itab[file].itype == FS_FILE
    requires offset <= Load(s, ref).size && req == BlocksNeeded(Load(s, ref).size, offset, |buffer|)
    requires Load(s, ref).itype == FS_FILE
    requires Placed(s, s3, ref, file, offset, buffer, req, g)
    requires ref.InRow? ==> NoDirtyCopy(s, file)
    ensures var s' := if offset + |buffer| > Load(s, ref).size then Grow(s3, file, ref, offset + |buffer|) else s3;
      var g' := Extended(g, file, BlocksFor(Load(s, ref).size), req);
      Inv(s', g') && WriteEffect(s, s', ref, file, offset, buffer, g'.own)
  {
    var size := Load(s, ref).size;
    PlacedRecord(s, s3, ref, file, offset, buffer, req, g);
    if offset + |buffer| > size {
      assert ref.InRow? ==> NoDirtyCopy(s3, file);
      SizeStepGrows(s, s3, file, ref, offset, buffer, Extended(g, file, BlocksFor(size), req));
    } else {
      hide Inv, OthersKept, Content, View, OwnsUpTo, UsesOwned, Splice, Allocated, BlocksFor, BlocksNeeded;
    }
  }

  lemma SizeStepGrows(s: Fs, s3: Fs, file: InodeId, ref: Ref, offset: nat, buffer: seq<byte>, g': Owners)
    requires Inv(s3, g') && Refers(s3, ref, file) && file < |g'.par| && s3.itab[file].itype == FS_FILE
    requires offset <= Load(s, ref).size < offset + |buffer| <= MAX_FILE && Load(s3, ref).itype == FS_FILE
    requires UsesOwned(Load(s3, ref).(size := offset + |buffer|), file, g'.own)
    requires ref.InRow? ==> NoDirtyCopy(s3, file)
    requires SameElsewhere(s, s3) && OthersKept(s.store, s3.store, file, g'.own)
    requires Content(s3.store, Load(s3, ref).(size := offset + |buffer|))
          == Splice(Content(s.store, Load(s, ref)), offset, buffer)
    ensures var s' := Grow(s3, file, ref, offset + |buffer|);
      Inv(s', g') && WriteEffect(s, s', ref, file, offset, buffer, g'.own)
  {
    hide Inv, Grow, OthersKept, Content, View, UsesOwned, Splice, NoDirtyCopy;
    GrowOk(s3, file, ref, offset + |buffer|, g');
  }

  lemma PlacedRecord(s: Fs, s3: Fs, ref: Ref, n: nat, offset: nat, buffer: seq<byte>, req: nat, g: Owners)
    requires ValidRef(ref) && offset <= Load(s, ref).size && Placed(s, s3, ref, n, offset, buffer, req, g)
    requires req == BlocksNeeded(Load(s, ref).size, offset, |buffer|) && n < |g.par|
    ensures s3.itab[n].itype == Load(s, ref).itype
    ensures Load(s3, ref).size == Load(s, ref).size && Load(s3, ref).itype == Load(s, ref).itype
    ensures var size' := Max(Load(s, ref).size, offset + |buffer|);
      size' <= MAX_FILE && UsesOwned(Load(s3, ref).(size := size'), n, Extended(g, n, BlocksFor(Load(s, ref).size),
            req).own)
  {
    var g' := Extended(g, n, BlocksFor(Load(s, ref).size), req);
    LongerFits(Load(s, ref), Load(s3, ref), n, offset, |buffer|, req, g'.own);
    LoadedOk(s3, ref, n, g');
  }

  // ------------------------------------------------------------------ the table and the inode cache after a success

  /** The file becomes longer. */
  predicate Grows(s: Fs, ref: Ref, offset: nat, count: nat)
    requires ValidRef(ref)
  {
    offset + count > Load(s, ref).size
  }

  /**
   A cached record changes in its slot, dirty if the file grows. A row is left alone unless the file grows; then it
   changes and a second, dirty copy of it takes the place of the oldest slot.
   */
  ghost predicate TablesAfter(s: Fs, s': Fs, file: InodeId, ref: Ref, grows: bool)
    requires ValidRef(ref)
  {
    if ref.InSlot? then Recorded(s, s', ref, Load(s', ref), grows) && (!grows ==> Load(s', ref) == Load(s, ref))
    else if !grows then s'.itab == s.itab && s'.icache == s.icache
    else
      var v := Victim(InodeTimes(s.icache));
      && s'.icache[v].num == file && s'.icache[v].dirty && s'.icache[v].inode == s'.itab[file]
      && s'.icache == s.icache[v := s'.icache[v]]
      && (NoDirtyCopy(s, file) ==> s'.itab == WriteBack(s)[file := s'.itab[file]])
  }

  lemma NothingAllocatedSameRecord(ino: Inode, ino3: Inode, i: nat, b: nat)
    requires Allocated(ino, ino3, i, i, b)
    ensures ino3 == ino
  {
    assert ino3.blocks == ino.blocks;
  }

  lemma GrowTables(s: Fs, s3: Fs, file: InodeId, ref: Ref, size: nat, dirty: bool)
    requires ValidRef(ref) && Recorded(s, s3, ref, Load(s3, ref), dirty)
    requires ref.InRow? ==> ref.n == file
    ensures TablesAfter(s, Grow(s3, file, ref, size), file, ref, true)
  {
    var s' := Grow(s3, file, ref, size);
    if ref.InSlot? {
      assert s'.icache == s.icache[ref.k := s.icache[ref.k].(inode := Load(s', ref), dirty := true)];
    }
  }

  lemma WriteTables(s: Fs, file: InodeId, ref: Ref, offset: nat, buffer: seq<byte>, g: Owners)
    requires Inv(s, g) && Refers(s, ref, file) && file < |g.par| && s.itab[file].itype == FS_FILE
    requires offset <= Load(s, ref).size && HasRoom(Load(s, ref).size, offset, |buffer|, |g.own|, s.NumBlocks())
    ensures TablesAfter(s, WriteThrough(s, file, ref, offset, buffer).0, file, ref, Grows(s, ref, offset, |buffer|))
  {
    hide Inv, WriteThrough, Grow, Placed, HasRoom, BlocksFor, BlocksNeeded, TablesAfter, Recorded;
    var req := BlocksNeeded(Load(s, ref).size, offset, |buffer|);
    var s3 := WriteReaches(s, file, ref, offset, buffer, req, g);
    PlacedTables(s, s3, ref, file, offset, buffer, req, g);
    NeedsBlocksOnlyToGrow(Load(s, ref).size, offset, |buffer|);
    if offset + |buffer| > Load(s, ref).size {
      GrowTables(s, s3, file, ref, offset + |buffer|, req > 0);
    } else {
      SameTables(s, s3, file, ref);
    }
  }

  lemma SameTables(s: Fs, s3: Fs, file: InodeId, ref: Ref)
    requires ValidRef(ref) && Recorded(s, s3, ref, Load(s3, ref), false)
    requires Load(s3, ref) == Load(s, ref)
    requires ref.InRow? ==> s3.itab == s.itab && s3.icache == s.icache
    ensures TablesAfter(s, s3, file, ref, false)
  {
  }

  lemma PlacedTables(s: Fs, s3: Fs, ref: Ref, n: nat, offset: nat, buffer: seq<byte>, req: nat, g: Owners)
    requires Refers(s, ref, n) && offset <= Load(s, ref).size && Placed(s, s3, ref, n, offset, buffer, req, g)
    ensures Recorded(s, s3, ref, Load(s3, ref), req > 0)
    ensures req == 0 ==> Load(s3, ref) == Load(s, ref)
    ensures req == 0 && ref.InRow? ==> s3.itab == s.itab && s3.icache == s.icache
  {
    hide Inv, OthersKept, Content, OwnsUpTo, Splice;
    if req == 0 {
      NothingAllocatedSameRecord(Load(s, ref), Load(s3, ref), BlocksFor(Load(s, ref).size), |g.own|);
    }
  }

  // ------------------------------------------------------------------ failure

  /** No record changed in its used range and no block in use changed its view. */
  ghost predicate WriteLeftContents(s: Fs, s': Fs, ref: Ref, own: seq<(nat, nat)>)
    requires ValidRef(ref)
  {
    && SameElsewhere(s, s') && Recorded(s, s', ref, Load(s', ref), false)
    && SameFile(Load(s', ref), Load(s, ref)) && SameBlockZero(s.store, s'.store)
    && forall c: nat :: 0 < c < |own| && c < s.NumBlocks() ==> View(s'.store, c) == View(s.store, c)
  }

  /** How many blocks are taken after a write without room: all there are, unless the inode has no entries for them. */
  function TakenByFailure(size: nat, offset: nat, count: nat, used: nat, numBlocks: nat): nat {
    if BlocksFor(size) + BlocksNeeded(size, offset, count) > INODE_BLOCKS then used else numBlocks
  }

  /** Without room the write fails and takes every block that was free, if it gets that far; no content changes. */
  lemma WriteFails(s: Fs, file: InodeId, ref: Ref, offset: nat, buffer: seq<byte>, g: Owners) returns (g': Owners)
    requires Inv(s, g) && Refers(s, ref, file) && file < |g.par| && s.itab[file].itype == FS_FILE
    requires offset <= Load(s, ref).size && !HasRoom(Load(s, ref).size, offset, |buffer|, |g.own|, s.NumBlocks())
    ensures var (s', r) := WriteThrough(s, file, ref, offset, buffer);
      r == Err && Inv(s', g') && WriteLeftContents(s, s', ref, g.own)
    ensures g'.par == g.par && g.own <= g'.own
    ensures |g'.own| == TakenByFailure(Load(s, ref).size, offset, |buffer|, |g.own|, s.NumBlocks())
  {
    hide Inv, WriteThrough, AllocLoop, BlocksFor, BlocksNeeded, AllocEffect, WriteLeftContents;
    var used, req := BlocksFor(Load(s, ref).size), BlocksNeeded(Load(s, ref).size, offset, |buffer|);
    FailedWriteIs(s, file, ref, offset, buffer, g);
    if used + req > INODE_BLOCKS {
      g' := g;
      NothingWritten(s, ref, g);
    } else {
      var m := AllocLoopOk(s, ref, file, used, used + req, g);
      g' := g.(own := g.own + Places(file, used, m));
      var s1 := AllocLoop(s, ref, used, used + req).0;
      AllocEffectInv(s, s1, ref, file, used, m, g);
      FailedAllocLeftContents(s, s1, ref, file, used, m, g);
    }
  }

  lemma FailedWriteIs(s: Fs, file: InodeId, ref: Ref, offset: nat, buffer: seq<byte>, g: Owners)
    requires Inv(s, g) && Refers(s, ref, file) && file < |g.par| && s.itab[file].itype == FS_FILE
    requires offset <= Load(s, ref).size && !HasRoom(Load(s, ref).size, offset, |buffer|, |g.own|, s.NumBlocks())
    ensures var used, req := BlocksFor(Load(s, ref).size), BlocksNeeded(Load(s, ref).size, offset, |buffer|);
      WriteThrough(s, file, ref, offset, buffer)
      == (if used + req > INODE_BLOCKS then s else AllocLoop(s, ref, used, used + req).0, Err)
  {
    hide Inv, AllocLoop, BlocksFor, BlocksNeeded, WriteLoop, Grow, AllocEffect, View;
    var used, req := BlocksFor(Load(s, ref).size), BlocksNeeded(Load(s, ref).size, offset, |buffer|);
    if used + req <= INODE_BLOCKS {
      var m := AllocLoopOk(s, ref, file, used, used + req, g);
    }
  }

  lemma NothingWritten(s: Fs, ref: Ref, g: Owners)
    requires ValidRef(ref)
    ensures WriteLeftContents(s, s, ref, g.own)
  {
    hide View;
    RecordedUnchanged(s, ref);
  }

  lemma AllocEffectInv(s: Fs, s1: Fs, ref: Ref, n: nat, i: nat, m: nat, g: Owners)
    requires ValidRef(ref) && i <= m && AllocEffect(s, s1, ref, n, i, m, g)
    ensures Inv(s1, g.(own := g.own + Places(n, i, m)))
  {
  }

  lemma RecordedUnchanged(s: Fs, ref: Ref)
    requires ValidRef(ref)
    ensures Recorded(s, s, ref, Load(s, ref), false)
  {
    if ref.InSlot? {
      assert s.icache == s.icache[ref.k := s.icache[ref.k].(inode := Load(s, ref),
            dirty := s.icache[ref.k].dirty || false)];
    } else {
      assert s.itab == s.itab[ref.n := Load(s, ref)];
    }
  }

  lemma FailedAllocLeftContents(s: Fs, s1: Fs, ref: Ref, n: nat, used: nat, m: nat, g: Owners)
    requires Refers(s, ref, n) && s.itab[n].itype == FS_FILE
    requires used <= m && used == BlocksFor(Load(s, ref).size) && AllocEffect(s, s1, ref, n, used, m, g)
    ensures WriteLeftContents(s, s1, ref, g.own)
  {
    hide Inv, View;
  }
}
