/** fs_create and fs_mkdir: the new entry joins the tree, nothing else changes, and the metadata image is current. */
module FsMake {
  import opened Bytes
  import opened Bitmap
  import opened BlockStore
  import opened FsState
  import opened FsTree
  import opened FsInv
  import opened FsMeta
  import opened FsDirs
  import opened FsAlloc

  /** The index of the block and the position in it where the next entry of a directory goes. */
  function NextBlock(d: Inode): nat {
    d.size / BLOCK_SIZE
  }

  /** The directory's row with block b at the place of the next entry and that entry counted. */
  function Longer(d: Inode, b: nat): Inode
    requires NextBlock(d) < INODE_BLOCKS
  {
    d.(blocks := d.blocks[NextBlock(d) := b], size := d.size + ENTRY_SIZE)
  }

  /** The owners after an entry for inode |par| was appended to dir. */
  function Joined(g: Owners, dir: nat, d: Inode): Owners {
    Owners(if d.size % BLOCK_SIZE == 0 then g.own + [(dir, NextBlock(d))] else g.own, g.par + [(dir, Count(d))])
  }

  /** Disk and table after entry e was appended to dir in block b and the new inode set up. */
  ghost predicate Appended(s: Fs, g: Owners, dir: nat, b: nat, e: seq<byte>, itype: nat, disk': seq<Block>,
        itab': InodeTable)
    requires dir < INODES
  {
    var d := s.itab[dir];
    && 1 <= dir < |g.par| < INODES && IsDir(s.itab, dir) && NextBlock(d) < INODE_BLOCKS
    && (itype == FS_DIR || itype == FS_FILE)
    && (if d.size % BLOCK_SIZE == 0 then b == |g.own| else b == d.blocks[NextBlock(d)])
    && META_BLOCKS <= b < s.NumBlocks() && |disk'| == s.NumBlocks()
    && |e| == ENTRY_SIZE && EntryInode(e) == |g.par|
    && disk'[b] == PutEntry(s.store.disk[b], Count(d) % PAGE_ENTRIES, e)
    && (forall x: nat :: META_BLOCKS <= x < s.NumBlocks() && x != b ==> disk'[x] == s.store.disk[x])
    && itab' == s.itab[dir := Longer(d, b)][|g.par| := NewInode(itype)]
  }

  lemma DirSize(s: Fs, dir: nat, g: Owners)
    requires Inv(s, g) && 1 <= dir < |g.par| && IsDir(s.itab, dir)
    ensures var d := s.itab[dir];
      d.size <= 992 && d.size % ENTRY_SIZE == 0 && NextBlock(d) < 2 && UsesOwned(d, dir, g.own) && Fits(d)
  {
    DirectoriesAreSmall(s.store.disk, s.itab, g.par, dir);
    assert RowOk(s.itab[dir], dir, g);
  }

  /** The block of the new entry belongs to dir and to no other record. */
  lemma AppendBlockOwned(s: Fs, g: Owners, dir: nat, b: nat)
    requires Inv(s, g) && 1 <= dir < |g.par| && IsDir(s.itab, dir)
    requires var d := s.itab[dir];
      && NextBlock(d) < INODE_BLOCKS
      && if d.size % BLOCK_SIZE == 0 then b == |g.own| else b == d.blocks[NextBlock(d)]
    ensures Owns(Joined(g, dir, s.itab[dir]).own, b, dir, NextBlock(s.itab[dir]))
    ensures b < |g.own| ==> g.own[b] == (dir, NextBlock(s.itab[dir]))
  {
    hide StoreOk, PagesOk, SlotsOk, RowsOk, TreeOk;
    DirSize(s, dir, g);
    var d := s.itab[dir];
    if d.size % BLOCK_SIZE != 0 {
      assert NextBlock(d) < BlocksFor(d.size);
      assert Owns(g.own, d.blocks[NextBlock(d)], dir, NextBlock(d));
    }
  }

  // ------------------------------------------------------------------ the entries afterwards

  lemma OtherDirUntouched(s: Fs, g: Owners, dir: nat, b: nat, e: seq<byte>, itype: nat, disk': seq<Block>,
        itab': InodeTable, o: nat)
    requires Inv(s, g) && dir < INODES && Appended(s, g, dir, b, e, itype, disk', itab')
    requires 1 <= o < |g.par| && o != dir && IsDir(s.itab, o)
    ensures DirUntouched(s.store.disk, s.itab[o], disk', itab'[o])
  {
    hide StoreOk, PagesOk, SlotsOk, TreeOk, PutEntry;
    AppendBlockOwned(s, g, dir, b);
    assert RowOk(s.itab[o], o, g);
    forall i: nat | i < INODE_BLOCKS && i < BlocksFor(s.itab[o].size)
      ensures s.itab[o].blocks[i] < s.NumBlocks() && disk'[s.itab[o].blocks[i]] == s.store.disk[s.itab[o].blocks[i]]
    {
      assert Owns(g.own, s.itab[o].blocks[i], o, i);
    }
  }

  /** In dir: the old entries stay, the new one is behind them, and behind it all is zero. */
  lemma EntriesOfDir(s: Fs, g: Owners, dir: nat, b: nat, e: seq<byte>, itype: nat, disk': seq<Block>,
        itab': InodeTable, k: nat)
    requires Inv(s, g) && dir < INODES && Appended(s, g, dir, b, e, itype, disk', itab')
    requires k / PAGE_ENTRIES < BlocksFor(s.itab[dir].size + ENTRY_SIZE)
    ensures DiskEntry(disk', itab'[dir], k)
         == if k == Count(s.itab[dir]) then e
            else if k < Count(s.itab[dir]) then DiskEntry(s.store.disk, s.itab[dir], k) else Zeros(ENTRY_SIZE)
  {
    hide Inv, UsesOwned, Fits, PageEntry, PutEntry;
    var d, i := s.itab[dir], k / PAGE_ENTRIES;
    DirSize(s, dir, g);
    AppendBlockOwned(s, g, dir, b);
    assert i <= NextBlock(d);
    if i == NextBlock(d) {
      LastPage(s, g, dir, b, k);
    } else {
      assert i < BlocksFor(d.size);
      UsedBlock(d, dir, g.own, i);
      InvLimits(s, g);
    }
  }

  lemma UsedBlock(d: Inode, dir: nat, own: seq<(nat, nat)>, i: nat)
    requires UsesOwned(d, dir, own) && i < INODE_BLOCKS && i < BlocksFor(d.size)
    ensures Owns(own, d.blocks[i], dir, i)
  {
  }

  lemma InvLimits(s: Fs, g: Owners)
    requires Inv(s, g)
    ensures META_BLOCKS <= |g.own| <= s.NumBlocks()
  {
  }

  /** The page the entry goes to: before it the directory's entries, behind it zeros. */
  lemma LastPage(s: Fs, g: Owners, dir: nat, b: nat, k: nat)
    requires Inv(s, g) && 1 <= dir < |g.par| && IsDir(s.itab, dir)
          && k / PAGE_ENTRIES == NextBlock(s.itab[dir]) < INODE_BLOCKS
    requires var d := s.itab[dir]; if d.size % BLOCK_SIZE == 0 then b == |g.own| else b == d.blocks[NextBlock(d)]
    requires b < s.NumBlocks()
    ensures k < Count(s.itab[dir]) ==>
      PageEntry(s.store.disk[b], k % PAGE_ENTRIES) == DiskEntry(s.store.disk, s.itab[dir], k)
    ensures k >= Count(s.itab[dir]) ==> PageEntry(s.store.disk[b], k % PAGE_ENTRIES) == Zeros(ENTRY_SIZE)
  {
    hide PagesOk, SlotsOk, RowsOk;
    var d := s.itab[dir];
    DirSize(s, dir, g);
    if d.size % BLOCK_SIZE == 0 {
      assert s.store.disk[b] == Zeros(BLOCK_SIZE);
      assert PageEntry(Zeros(BLOCK_SIZE), k % PAGE_ENTRIES) == Zeros(ENTRY_SIZE);
    } else if k >= Count(d) {
      assert TailClear(s.store.disk, s.itab, dir, k);
    }
  }

  // ------------------------------------------------------------------ the tree afterwards

  /** The entry at an old position is the one that was there. */
  lemma OldEntry(s: Fs, g: Owners, dir: nat, b: nat, e: seq<byte>, itype: nat, disk': seq<Block>, itab': InodeTable,
        o: nat, k: nat)
    requires Inv(s, g) && dir < INODES && Appended(s, g, dir, b, e, itype, disk', itab')
    requires o < |g.par| && IsDir(s.itab, o) && k < Count(s.itab[o])
    ensures DiskEntry(disk', itab'[o], k) == DiskEntry(s.store.disk, s.itab[o], k)
  {
    hide StoreOk, PagesOk, SlotsOk, Appended, DiskEntry;
    assert RowOk(s.itab[0], 0, g);
    if o == dir {
      EntriesOfDir(s, g, dir, b, e, itype, disk', itab', k);
    } else {
      OtherDirUntouched(s, g, dir, b, e, itype, disk', itab', o);
      DiskEntryFrame(s.store.disk, s.itab[o], disk', k);
    }
  }

  lemma TypesAfter(s: Fs, g: Owners, dir: nat, b: nat, e: seq<byte>, itype: nat, disk': seq<Block>, itab': InodeTable)
    requires dir < INODES && Appended(s, g, dir, b, e, itype, disk', itab')
    ensures forall o: nat :: o < |g.par| ==> itab'[o].itype == s.itab[o].itype
    ensures forall o: nat :: o < |g.par| && o != dir ==> itab'[o] == s.itab[o]
    ensures itab'[dir].size == s.itab[dir].size + ENTRY_SIZE && Count(itab'[dir]) == Count(s.itab[dir]) + 1
    ensures itab'[|g.par|].size == 0 && Count(itab'[|g.par|]) == 0
  {
  }

  lemma EntriesListedAfter(s: Fs, g: Owners, dir: nat, b: nat, e: seq<byte>, itype: nat, disk': seq<Block>,
        itab': InodeTable, o: nat, k: nat)
    requires Inv(s, g) && dir < INODES && Appended(s, g, dir, b, e, itype, disk', itab')
    requires o < |g.par| + 1 && IsDir(itab', o) && k < Count(itab'[o])
    ensures EntryListed(disk', itab', Joined(g, dir, s.itab[dir]).par, o, k)
  {
    TypesAfter(s, g, dir, b, e, itype, disk', itab');
    hide StoreOk, PagesOk, SlotsOk, RowsOk, DiskEntry;
    if o == dir && k == Count(s.itab[dir]) {
      EntriesOfDir(s, g, dir, b, e, itype, disk', itab', k);
    } else {
      hide Appended;
      OldEntry(s, g, dir, b, e, itype, disk', itab', o, k);
      assert EntryListed(s.store.disk, s.itab, g.par, o, k);
    }
  }

  lemma ParentsHoldAfter(s: Fs, g: Owners, dir: nat, b: nat, e: seq<byte>, itype: nat, disk': seq<Block>,
        itab': InodeTable, m: nat)
    requires Inv(s, g) && dir < INODES && Appended(s, g, dir, b, e, itype, disk', itab')
    requires 2 <= m < |g.par| + 1
    ensures ParentHolds(disk', itab', m, Joined(g, dir, s.itab[dir]).par[m])
  {
    TypesAfter(s, g, dir, b, e, itype, disk', itab');
    hide StoreOk, PagesOk, SlotsOk, RowsOk, DiskEntry;
    if m == |g.par| {
      EntriesOfDir(s, g, dir, b, e, itype, disk', itab', Count(s.itab[dir]));
    } else {
      hide Appended;
      assert ParentHolds(s.store.disk, s.itab, m, g.par[m]);
      OldEntry(s, g, dir, b, e, itype, disk', itab', g.par[m].0, g.par[m].1);
    }
  }

  lemma TailsClearAfter(s: Fs, g: Owners, dir: nat, b: nat, e: seq<byte>, itype: nat, disk': seq<Block>,
        itab': InodeTable, o: nat, k: nat)
    requires Inv(s, g) && dir < INODES && Appended(s, g, dir, b, e, itype, disk', itab')
    requires o < |g.par| + 1 && IsDir(itab', o) && Count(itab'[o]) <= k
    ensures TailClear(disk', itab', o, k)
  {
    TypesAfter(s, g, dir, b, e, itype, disk', itab');
    hide StoreOk, PagesOk, SlotsOk, DiskEntry, Appended;
    assert RowOk(s.itab[0], 0, g);
    if k / PAGE_ENTRIES < BlocksFor(itab'[o].size) {
      if o == dir {
        EntriesOfDir(s, g, dir, b, e, itype, disk', itab', k);
      } else {
        OtherDirUntouched(s, g, dir, b, e, itype, disk', itab', o);
        DiskEntryFrame(s.store.disk, s.itab[o], disk', k);
        assert TailClear(s.store.disk, s.itab, o, k);
      }
    }
  }

  lemma SumAfter(s: Fs, g: Owners, dir: nat, b: nat, e: seq<byte>, itype: nat, disk': seq<Block>, itab': InodeTable)
    requires TreeOk(s.store.disk, s.itab, g.par) && dir < INODES && Appended(s, g, dir, b, e, itype, disk', itab')
    ensures EntrySum(itab', |g.par| + 1) == |g.par| + 1 - 2
    ensures forall o: nat :: o < |g.par| + 1 && IsDir(itab', o) ==> itab'[o].size % ENTRY_SIZE == 0
  {
    TypesAfter(s, g, dir, b, e, itype, disk', itab');
    hide Appended;
    EntrySumPlusOne(s.itab, itab', |g.par|, dir);
  }

  lemma TreeAfter(s: Fs, g: Owners, dir: nat, b: nat, e: seq<byte>, itype: nat, disk': seq<Block>, itab': InodeTable)
    requires Inv(s, g) && dir < INODES && Appended(s, g, dir, b, e, itype, disk', itab')
    ensures TreeOk(disk', itab', Joined(g, dir, s.itab[dir]).par)
  {
    var par' := Joined(g, dir, s.itab[dir]).par;
    assert |par'| == |g.par| + 1 <= INODES;
    hide Inv, EntryListed, ParentHolds, TailClear, EntrySum, Joined;
    forall o: nat, k: nat | o < |par'| && IsDir(itab', o) && k < Count(itab'[o])
      ensures EntryListed(disk', itab', par', o, k)
    {
      EntriesListedAfter(s, g, dir, b, e, itype, disk', itab', o, k);
    }
    forall m: nat | 2 <= m < |par'| ensures ParentHolds(disk', itab', m, par'[m]) {
      ParentsHoldAfter(s, g, dir, b, e, itype, disk', itab', m);
    }
    forall o: nat, k: nat | o < |par'| && IsDir(itab', o) && Count(itab'[o]) <= k
      ensures TailClear(disk', itab', o, k)
    {
      TailsClearAfter(s, g, dir, b, e, itype, disk', itab', o, k);
    }
    assert 2 <= |g.par| && TreeOk(s.store.disk, s.itab, g.par) by { TreeOfInv(s, g); }
    SumAfter(s, g, dir, b, e, itype, disk', itab');
  }

  lemma TreeOfInv(s: Fs, g: Owners)
    requires Inv(s, g)
    ensures 2 <= |g.par| && TreeOk(s.store.disk, s.itab, g.par)
  {
  }

  // ------------------------------------------------------------------ rows, slots, store and pages afterwards

  lemma UsesOwnedJoined(ino: Inode, n: nat, g: Owners, dir: nat, d: Inode)
    requires UsesOwned(ino, n, g.own)
    ensures UsesOwned(ino, n, Joined(g, dir, d).own)
  {
    if d.size % BLOCK_SIZE == 0 { OwnGrows(ino, n, g.own, (dir, NextBlock(d))); }
  }

  lemma DirRowAfter(s: Fs, g: Owners, dir: nat, b: nat)
    requires Inv(s, g) && 1 <= dir < |g.par| && IsDir(s.itab, dir) && b < s.NumBlocks()
    requires var d := s.itab[dir];
      && NextBlock(d) < INODE_BLOCKS
      && if d.size % BLOCK_SIZE == 0 then b == |g.own| else b == d.blocks[NextBlock(d)]
    ensures var d := s.itab[dir]; UsesOwned(Longer(d, b), dir, Joined(g, dir, d).own) && Fits(Longer(d, b))
  {
    hide Inv;
    var d := s.itab[dir];
    DirSize(s, dir, g);
    AppendBlockOwned(s, g, dir, b);
    UsesOwnedJoined(d, dir, g, dir, d);
    var d', own' := Longer(d, b), Joined(g, dir, d).own;
    forall i: nat | i < INODE_BLOCKS && i < BlocksFor(d'.size) ensures Owns(own', d'.blocks[i], dir, i) {
      if i != NextBlock(d) {
        assert Owns(own', d.blocks[i], dir, i);
      }
    }
  }

  lemma RowsAfter(s: Fs, g: Owners, dir: nat, b: nat, e: seq<byte>, itype: nat, disk': seq<Block>, itab': InodeTable)
    requires Inv(s, g) && dir < INODES && Appended(s, g, dir, b, e, itype, disk', itab')
    ensures RowsOk(itab', Joined(g, dir, s.itab[dir]))
  {
    hide StoreOk, PagesOk, SlotsOk, TreeOk, PutEntry, UsesOwned, Fits;
    var d := s.itab[dir];
    DirRowAfter(s, g, dir, b);
    DirSize(s, dir, g);
    NewInodeOk(itype, |g.par|, Joined(g, dir, d).own);
    forall n: nat | n < INODES ensures RowOk(itab'[n], n, Joined(g, dir, d)) {
      assert RowOk(s.itab[n], n, g);
      if 1 <= n < |g.par| { UsesOwnedJoined(s.itab[n], n, g, dir, d); }
    }
  }

  lemma NewInodeOk(itype: nat, n: nat, own: seq<(nat, nat)>)
    requires itype < U32
    ensures Fits(NewInode(itype)) && UsesOwned(NewInode(itype), n, own)
  {
  }

  lemma DirPrefixAfter(d: Inode, b: nat)
    requires NextBlock(d) < INODE_BLOCKS && d.size % ENTRY_SIZE == 0
    requires d.size % BLOCK_SIZE != 0 ==> b == d.blocks[NextBlock(d)]
    ensures forall a: Inode :: DirPrefix(a, d) ==> DirPrefix(a, Longer(d, b))
  {
  }

  lemma SlotsAfter(s: Fs, g: Owners, dir: nat, b: nat, e: seq<byte>, itype: nat, disk': seq<Block>, itab': InodeTable)
    requires Inv(s, g) && dir < INODES && Appended(s, g, dir, b, e, itype, disk', itab')
    ensures SlotsOk(s.icache, itab', Joined(g, dir, s.itab[dir]))
  {
    TypesAfter(s, g, dir, b, e, itype, disk', itab');
    DirPrefixAfter(s.itab[dir], b);
    assert itab'[dir] == Longer(s.itab[dir], b);
    hide StoreOk, PagesOk, RowsOk, TreeOk, Appended, UsesOwned, Fits, DirPrefix;
    forall k | 0 <= k < INODE_SLOTS ensures SlotOk(s.icache[k], itab', Joined(g, dir, s.itab[dir])) {
      assert SlotOk(s.icache[k], s.itab, g);
      if s.icache[k].num != 0 { UsesOwnedJoined(s.icache[k].inode, s.icache[k].num, g, dir, s.itab[dir]); }
    }
  }

  /** A block of a file was not touched. */
  lemma FileBlockAfter(s: Fs, g: Owners, dir: nat, b: nat, e: seq<byte>, itype: nat, disk': seq<Block>,
        itab': InodeTable, x: nat)
    requires Inv(s, g) && dir < INODES && Appended(s, g, dir, b, e, itype, disk', itab')
    requires IsFileBlock(g.own, s.itab, x)
    ensures IsFileBlock(Joined(g, dir, s.itab[dir]).own, itab', x) && x < s.NumBlocks() && disk'[x] == s.store.disk[x]
  {
    TypesAfter(s, g, dir, b, e, itype, disk', itab');
    hide StoreOk, PagesOk, SlotsOk, RowsOk, TreeOk, PutEntry;
    AppendBlockOwned(s, g, dir, b);
  }

  lemma StoreAfter(s: Fs, g: Owners, dir: nat, b: nat, e: seq<byte>, itype: nat, disk': seq<Block>, itab': InodeTable)
    requires Inv(s, g) && dir < INODES && Appended(s, g, dir, b, e, itype, disk', itab')
    ensures StoreOk(s.store.(disk := disk'), itab', Joined(g, dir, s.itab[dir]).own)
    ensures forall x: nat :: IsFileBlock(g.own, s.itab, x) ==> View(s.store.(disk := disk'), x) == View(s.store, x)
  {
    hide PagesOk, SlotsOk, RowsOk, TreeOk, PutEntry;
    var st' := s.store.(disk := disk');
    forall k | 0 <= k < CACHE_SLOTS && st'.slots[k].num != 0
      ensures IsFileBlock(Joined(g, dir, s.itab[dir]).own, itab', st'.slots[k].num) && Synced(disk', st'.slots[k])
    {
      FileBlockAfter(s, g, dir, b, e, itype, disk', itab', st'.slots[k].num);
      assert Synced(s.store.disk, s.store.slots[k]);
    }
    forall x: nat | IsFileBlock(g.own, s.itab, x) ensures View(st', x) == View(s.store, x) {
      FileBlockAfter(s, g, dir, b, e, itype, disk', itab', x);
    }
    AppendBlockOwned(s, g, dir, b);
  }

  /** A directory keeps the blocks it had when it grows. */
  lemma PagesStayPlaced(s: Fs, s': Fs, g: Owners, dir: nat, b: nat, e: seq<byte>, itype: nat)
    requires Inv(s, g) && dir < INODES && Appended(s, g, dir, b, e, itype, s'.store.disk, s'.itab)
          && s'.dcache == s.dcache
    ensures forall k :: 0 <= k < DIR_SLOTS ==> PagePlaced(s'.itab, s'.dcache[k])
  {
    assert RowOk(s.itab[|g.par|], |g.par|, g);
    DirSize(s, dir, g);
    hide StoreOk, SlotsOk, RowsOk, TreeOk, OwnersOk, PageSound, PutEntry, NamesHome;
    forall k | 0 <= k < DIR_SLOTS && s.dcache[k].dir != 0 ensures PagePlaced(s'.itab, s'.dcache[k]) {
      assert PagePlaced(s.itab, s.dcache[k]);
      var d := s.dcache[k].dir;
      var i: nat :| UsedPlace(s.itab[d], i, s.dcache[k].num);
      assert UsedPlace(s'.itab[d], i, s.dcache[k].num);
    }
  }

  /** Entries keep their places and their blocks when a directory grows. */
  lemma NamesStayHome(s: Fs, s': Fs, g: Owners, dir: nat, b: nat, x: seq<byte>, itype: nat)
    requires Inv(s, g) && dir < INODES && Appended(s, g, dir, b, x, itype, s'.store.disk, s'.itab)
          && s'.dcache == s.dcache
    ensures NamesHome(s'.store.disk, s'.itab, s'.dcache)
  {
    hide PageEntry, EntryName, DiskEntry, Inv, Appended;
    var c := s.dcache;
    forall k: nat, j: nat | Names(c, k, j) && c[k].dir < INODES
      ensures HasHome(s'.store.disk, s'.itab[c[k].dir], c, c[k].dir, PageEntry(c[k].page, j))
    {
      var d, y := c[k].dir, PageEntry(c[k].page, j);
      var e := HomeOf(s, k, j, g);
      OldEntry(s, g, dir, b, x, itype, s'.store.disk, s'.itab, d, e);
      OldPlace(s, g, dir, b, x, itype, s'.store.disk, s'.itab, d, e);
      assert Home(s'.store.disk, s'.itab[d], c, d, e, y);
    }
  }

  lemma HomeOf(s: Fs, k: nat, j: nat, g: Owners) returns (e: nat)
    requires Inv(s, g) && Names(s.dcache, k, j)
    ensures var d := s.dcache[k].dir;
      d < |g.par| <= INODES && IsDir(s.itab, d)
      && Home(s.store.disk, s.itab[d], s.dcache, d, e, PageEntry(s.dcache[k].page, j))
  {
    hide StoreOk, SlotsOk, TreeOk, PageSound, Home, EntryName, PageEntry;
    assert PagePlaced(s.itab, s.dcache[k]);
    var d := s.dcache[k].dir;
    assert RowOk(s.itab[d], d, g);
    e :| Home(s.store.disk, s.itab[d], s.dcache, d, e, PageEntry(s.dcache[k].page, j));
  }

  lemma OldPlace(s: Fs, g: Owners, dir: nat, b: nat, x: seq<byte>, itype: nat, disk': seq<Block>, itab': InodeTable,
        o: nat, e: nat)
    requires Inv(s, g) && dir < INODES && Appended(s, g, dir, b, x, itype, disk', itab')
    requires o < |g.par| && IsDir(s.itab, o) && e < Count(s.itab[o]) && e / PAGE_ENTRIES < INODE_BLOCKS
    ensures e < Count(itab'[o]) && itab'[o].blocks[e / PAGE_ENTRIES] == s.itab[o].blocks[e / PAGE_ENTRIES]
  {
    hide StoreOk, SlotsOk, RowsOk, TreeOk, OwnersOk, PagesOk, PutEntry;
  }

  lemma PagesAfter(s: Fs, s': Fs, g: Owners, dir: nat, b: nat, e: seq<byte>, itype: nat)
    requires Inv(s, g) && dir < INODES && Appended(s, g, dir, b, e, itype, s'.store.disk, s'.itab)
          && s'.dcache == s.dcache
    ensures PagesOk(s')
  {
    PagesStayPlaced(s, s', g, dir, b, e, itype);
    NamesStayHome(s, s', g, dir, b, e, itype);
    hide StoreOk, SlotsOk, RowsOk, TreeOk, OwnersOk, Appended, IsEntry, PagePlaced, PagesApart, NamesHome;
    forall k | 0 <= k < DIR_SLOTS ensures PageSound(s'.store.disk, s'.itab, s'.dcache[k]) {
      assert PageSound(s.store.disk, s.itab, s.dcache[k]);
      forall j: nat | j < PAGE_ENTRIES && EntryName(PageEntry(s.dcache[k].page, j)) != []
        ensures IsEntry(s'.store.disk, s'.itab, s.dcache[k].dir, EntryName(PageEntry(s.dcache[k].page, j)),
              EntryInode(PageEntry(s.dcache[k].page, j)))
      {
        EntryStays(s, g, dir, b, e, itype, s'.store.disk, s'.itab, s.dcache[k].dir,
                   EntryName(PageEntry(s.dcache[k].page, j)), EntryInode(PageEntry(s.dcache[k].page, j)));
      }
    }
  }

  /** Directories only grow: an entry stays an entry. */
  lemma EntryStays(s: Fs, g: Owners, dir: nat, b: nat, e: seq<byte>, itype: nat, disk': seq<Block>, itab': InodeTable,
        o: nat, name: seq<byte>, m: nat)
    requires Inv(s, g) && dir < INODES && Appended(s, g, dir, b, e, itype, disk', itab')
    requires IsEntry(s.store.disk, s.itab, o, name, m)
    ensures IsEntry(disk', itab', o, name, m)
  {
    TypesAfter(s, g, dir, b, e, itype, disk', itab');
    hide StoreOk, SlotsOk, PagesOk, OwnersOk, TreeOk, Appended;
    assert RowOk(s.itab[o], o, g);
    var k: nat :| k < Count(s.itab[o]) && EntryIs(DiskEntry(s.store.disk, s.itab[o], k), name, m);
    OldEntry(s, g, dir, b, e, itype, disk', itab', o, k);
    assert EntryIs(DiskEntry(disk', itab'[o], k), name, m);
  }

  /** Nothing but the new entry was added. */
  lemma EntryWasThere(s: Fs, g: Owners, dir: nat, b: nat, e: seq<byte>, itype: nat, disk': seq<Block>,
        itab': InodeTable, o: nat, name: seq<byte>, m: nat)
    requires Inv(s, g) && dir < INODES && Appended(s, g, dir, b, e, itype, disk', itab')
    requires RowsOk(itab', Joined(g, dir, s.itab[dir]))
    requires IsEntry(disk', itab', o, name, m)
    ensures IsEntry(s.store.disk, s.itab, o, name, m) || (o == dir && name == EntryName(e) && m == EntryInode(e))
  {
    TypesAfter(s, g, dir, b, e, itype, disk', itab');
    assert RowOk(itab'[o], o, Joined(g, dir, s.itab[dir]));
    assert |Joined(g, dir, s.itab[dir]).par| == |g.par| + 1;
    var k: nat :| k < Count(itab'[o]) && EntryIs(DiskEntry(disk', itab'[o], k), name, m);
    hide StoreOk, SlotsOk, PagesOk, OwnersOk, TreeOk, RowsOk, Appended, DiskEntry;
    if o == dir && k == Count(s.itab[dir]) {
      NewEntryIs(s, g, dir, b, e, itype, disk', itab');
    } else {
      OldEntry(s, g, dir, b, e, itype, disk', itab', o, k);
      assert EntryIs(DiskEntry(s.store.disk, s.itab[o], k), name, m);
    }
  }

  lemma NewEntryIs(s: Fs, g: Owners, dir: nat, b: nat, e: seq<byte>, itype: nat, disk': seq<Block>, itab': InodeTable)
    requires Inv(s, g) && dir < INODES && Appended(s, g, dir, b, e, itype, disk', itab')
    ensures |e| == ENTRY_SIZE && DiskEntry(disk', itab'[dir], Count(s.itab[dir])) == e
  {
    EntriesOfDir(s, g, dir, b, e, itype, disk', itab', Count(s.itab[dir]));
  }

  // ------------------------------------------------------------------ the calls

  /** The entry (dir, name, n) was added and no other entry came or went. */
  ghost predicate EntryAdded(s: Fs, s': Fs, dir: nat, name: seq<byte>, n: nat) {
    forall o: nat, x: seq<byte>, m: nat ::
      IsEntry(s'.store.disk, s'.itab, o, x, m) <==>
        IsEntry(s.store.disk, s.itab, o, x, m) || (o == dir && x == name && m == n)
  }

  /** What a successful call leaves, seen from outside. */
  ghost predicate Made(s: Fs, s': Fs, g: Owners, dir: nat, name: seq<byte>, itype: nat) {
    && dir < |g.par| && IsDir(s.itab, dir) && |g.par| < INODES
    && MadeTree(s, s', g, dir, name, itype)
    && s'.icache == s.icache && s'.time == s.time && s'.NumBlocks() == s.NumBlocks()
    && s'.itab[|g.par|] == NewInode(itype)
    && (forall o: nat :: o < INODES && o != dir && o != |g.par| ==> s'.itab[o] == s.itab[o])
    && s'.itab[dir].itype == FS_DIR
    && s'.store.disk[0] == s'.blkMap && s'.store.disk[1] == s'.inoMap && LoadTable(s'.store.disk) == s'.itab
  }

  /** The name read back from the entry just written. */
  lemma NewEntryReads(was: seq<byte>, name: seq<byte>, n: nat)
    requires |was| == ENTRY_SIZE && |name| < NAME_SIZE && IsCString(name) && n < 65536
    ensures EntryName(NewEntry(was, name, n)) == name && EntryInode(NewEntry(was, name, n)) == n
  {
    var e := NewEntry(was, name, n);
    assert e[..NAME_SIZE] == name + [0] + was[|name| + 1..NAME_SIZE];
    CStrOfCopy(name, was[|name| + 1..NAME_SIZE]);
    assert e[NAME_SIZE..] == Encode16(n);
  }

  /** The block the next entry goes to: the next free one if the last page is full. */
  lemma RoomIs(s: Fs, dir: InodeId, g: Owners) returns (b: nat)
    requires Inv(s, g) && 1 <= dir < |g.par| && IsDir(s.itab, dir)
    ensures var d := s.itab[dir];
      var full := d.size % BLOCK_SIZE == 0;
      && NextBlock(d) < 2
      && (RoomForEntry(s, dir) == (s, Err) <==> full && |g.own| == s.NumBlocks())
      && (!(full && |g.own| == s.NumBlocks()) ==>
            && META_BLOCKS <= b < s.NumBlocks()
            && (if full then b == |g.own| else b == d.blocks[NextBlock(d)])
            && RoomForEntry(s, dir) ==
                 (if full then s.(blkMap := Set(s.blkMap, b),
                       itab := s.itab[dir := d.(blocks := d.blocks[NextBlock(d) := b])]) else s, Ok(())))
  {
    hide Inv, UsesOwned, Fits;
    NextFreeBlock(s, g);
    InvLimits(s, g);
    DirSize(s, dir, g);
    var d := s.itab[dir];
    if d.size % BLOCK_SIZE == 0 {
      b := |g.own|;
    } else {
      UsedBlock(d, dir, g.own, NextBlock(d));
      b := d.blocks[NextBlock(d)];
    }
  }

  /** The whole of a successful call after the search: from s (search done) to the state with its metadata stored. */
  lemma MakeSteps(s: Fs, dir: InodeId, name: seq<byte>, itype: nat, g: Owners)
    requires Inv(s, g) && 1 <= dir < |g.par| < INODES && IsDir(s.itab, dir) && (itype == FS_DIR || itype == FS_FILE)
    requires name != [] && |name| < NAME_SIZE && IsCString(name)
    ensures var (s2, room) := RoomForEntry(s, dir);
      && !room.Abort?
      && (room.Err? <==> s.itab[dir].size % BLOCK_SIZE == 0 && |g.own| == s.NumBlocks())
      && (room.Err? ==> s2 == s)
      && (room.Ok? ==>
            var (s3, ok) := AppendEntry(s2, dir, name, |g.par|);
            && ok && s3.inoMap == s.inoMap
            && Made(s, StoreMeta(s3.(inoMap := Set(s3.inoMap, |g.par|), itab := s3.itab[|g.par| := NewInode(itype)])),
                  g, dir, name, itype))
  {
    hide Inv, Made, PutEntry, NewEntry, StoreMeta, RoomForEntry, AppendEntry, EntryName, EntryInode, Set;
    var b := RoomIs(s, dir, g);
    var (s2, room) := RoomForEntry(s, dir);
    if room.Ok? {
      var d := s.itab[dir];
      var was := PageEntry(s.store.disk[b], Count(d) % PAGE_ENTRIES);
      var e := NewEntry(was, name, |g.par|);
      NewEntryReads(was, name, |g.par|);
      assert d.size % BLOCK_SIZE / ENTRY_SIZE == Count(d) % PAGE_ENTRIES;
      AppendIs(s, s2, dir, name, |g.par|, b);
      var (s3, ok) := AppendEntry(s2, dir, name, |g.par|);
      var s4 := s3.(inoMap := Set(s3.inoMap, |g.par|), itab := s3.itab[|g.par| := NewInode(itype)]);
      MadeBySteps(s, s4, g, dir, b, e, name, itype);
    }
  }

  lemma AppendIs(s: Fs, s2: Fs, dir: InodeId, name: seq<byte>, n: nat, b: nat)
    requires |name| < NAME_SIZE && b < s.NumBlocks()
    requires var d := s.itab[dir];
      && NextBlock(d) < INODE_BLOCKS
      && if d.size % BLOCK_SIZE == 0 then s2 == s.(blkMap := s2.blkMap,
            itab := s.itab[dir := d.(blocks := d.blocks[NextBlock(d) := b])])
         else s2 == s && b == d.blocks[NextBlock(d)]
    ensures var d := s.itab[dir];
      var e := NewEntry(PageEntry(s.store.disk[b], d.size % BLOCK_SIZE / ENTRY_SIZE), name, n);
      var (s3, ok) := AppendEntry(s2, dir, name, n);
      ok && s3 == s2.(store := s.store.(disk := s.store.disk[b := PutEntry(s.store.disk[b],
            d.size % BLOCK_SIZE / ENTRY_SIZE, e)]),
                      itab := s.itab[dir := Longer(d, b)])
  {
    hide PutEntry, NewEntry, PageEntry;
    var d := s.itab[dir];
    if d.size % BLOCK_SIZE != 0 {
      assert d.blocks[NextBlock(d) := b] == d.blocks;
    } else {
      assert s.itab[dir := d.(blocks := d.blocks[NextBlock(d) := b])][dir := Longer(d, b)]
            == s.itab[dir := Longer(d, b)];
    }
  }

  lemma MadeBySteps(s: Fs, s4: Fs, g: Owners, dir: nat, b: nat, e: seq<byte>, name: seq<byte>, itype: nat)
    requires Inv(s, g) && 1 <= dir < |g.par| < INODES && IsDir(s.itab, dir) && (itype == FS_DIR || itype == FS_FILE)
    requires NextBlock(s.itab[dir]) < INODE_BLOCKS && META_BLOCKS <= b < s.NumBlocks() && |e| == ENTRY_SIZE
    requires if s.itab[dir].size % BLOCK_SIZE == 0 then b == |g.own|
             else b == s.itab[dir].blocks[NextBlock(s.itab[dir])]
    requires EntryName(e) == name && EntryInode(e) == |g.par|
    requires s4 == s.(store := s.store.(disk := s.store.disk[b := PutEntry(s.store.disk[b],
          Count(s.itab[dir]) % PAGE_ENTRIES, e)]),
                      itab := s.itab[dir := Longer(s.itab[dir], b)][|g.par| := NewInode(itype)],
                      blkMap := if s.itab[dir].size % BLOCK_SIZE == 0 then Set(s.blkMap, b) else s.blkMap,
                      inoMap := Set(s.inoMap, |g.par|))
    ensures Made(s, StoreMeta(s4), g, dir, name, itype)
  {
    hide Inv, PutEntry, DiskEntry, LoadTable, View, IsFileBlock, TableBlock, Joined;
    var s5 := StoreMeta(s4);
    MadeByAppend(s, s5, g, dir, b, e, name, itype);
    RowsAfter(s, g, dir, b, e, itype, s5.store.disk, s5.itab);
    RowsFit(s4.itab, Joined(g, dir, s.itab[dir]));
    StoreThenLoad(s4);
  }

  /** All of Made but the metadata image. */
  ghost predicate MadeTree(s: Fs, s': Fs, g: Owners, dir: nat, name: seq<byte>, itype: nat)
    requires dir < INODES
  {
    && Inv(s', Joined(g, dir, s.itab[dir]))
    && IsEntry(s'.store.disk, s'.itab, dir, name, |g.par|)
    && EntryAdded(s, s', dir, name, |g.par|)
    && (forall x: nat :: IsFileBlock(g.own, s.itab, x) ==> View(s'.store, x) == View(s.store, x))
  }

  lemma MadeByAppend(s: Fs, s5: Fs, g: Owners, dir: nat, b: nat, e: seq<byte>, name: seq<byte>, itype: nat)
    requires Inv(s, g) && 1 <= dir < |g.par| < INODES && Appended(s, g, dir, b, e, itype, s5.store.disk, s5.itab)
    requires EntryName(e) == name && s5.dcache == s.dcache && s5.icache == s.icache && s5.store.slots == s.store.slots
    requires s5.inoMap == Set(s.inoMap, |g.par|)
    requires s5.blkMap == if s.itab[dir].size % BLOCK_SIZE == 0 then Set(s.blkMap, |g.own|) else s.blkMap
    ensures MadeTree(s, s5, g, dir, name, itype)
  {
    assert EntryInode(e) == |g.par|;
    hide Inv, Appended, DiskEntry, View, IsFileBlock, IsEntry, Joined;
    InvAfter(s, s5, g, dir, b, e, itype);
    StoreAfter(s, g, dir, b, e, itype, s5.store.disk, s5.itab);
    assert s5.store == s.store.(disk := s5.store.disk);
    EntriesAfter(s, s5, g, dir, b, e, itype);
    NewEntryThere(s, g, dir, b, e, itype, s5.store.disk, s5.itab);
  }

  lemma EntriesAfter(s: Fs, s5: Fs, g: Owners, dir: nat, b: nat, e: seq<byte>, itype: nat)
    requires Inv(s, g) && 1 <= dir < |g.par| < INODES && Appended(s, g, dir, b, e, itype, s5.store.disk, s5.itab)
    requires Inv(s5, Joined(g, dir, s.itab[dir]))
    ensures |e| == ENTRY_SIZE && EntryAdded(s, s5, dir, EntryName(e), EntryInode(e))
  {
    assert |e| == ENTRY_SIZE;
    assert RowsOk(s5.itab, Joined(g, dir, s.itab[dir]));
    hide Inv, Appended, IsEntry, RowsOk, Joined, EntryName, EntryInode;
    forall o: nat, x: seq<byte>, m: nat
      ensures IsEntry(s5.store.disk, s5.itab, o, x, m)
        <==> IsEntry(s.store.disk, s.itab, o, x, m) || (o == dir && x == EntryName(e) && m == EntryInode(e))
    {
      if IsEntry(s.store.disk, s.itab, o, x, m) {
        EntryStays(s, g, dir, b, e, itype, s5.store.disk, s5.itab, o, x, m);
      }
      if IsEntry(s5.store.disk, s5.itab, o, x, m) {
        EntryWasThere(s, g, dir, b, e, itype, s5.store.disk, s5.itab, o, x, m);
      }
      NewEntryThere(s, g, dir, b, e, itype, s5.store.disk, s5.itab);
    }
  }

  lemma RowsFit(itab: InodeTable, g: Owners)
    requires RowsOk(itab, g)
    ensures forall n: nat :: n < INODES ==> Fits(itab[n])
  {
    forall n: nat | n < INODES ensures Fits(itab[n]) { assert RowOk(itab[n], n, g); }
  }

  lemma NewEntryThere(s: Fs, g: Owners, dir: nat, b: nat, e: seq<byte>, itype: nat, disk': seq<Block>,
        itab': InodeTable)
    requires Inv(s, g) && dir < INODES && Appended(s, g, dir, b, e, itype, disk', itab')
    ensures IsEntry(disk', itab', dir, EntryName(e), EntryInode(e))
  {
    EntriesOfDir(s, g, dir, b, e, itype, disk', itab', Count(s.itab[dir]));
    TypesAfter(s, g, dir, b, e, itype, disk', itab');
    hide Inv, Appended, DiskEntry;
    assert EntryIs(DiskEntry(disk', itab'[dir], Count(s.itab[dir])), EntryName(e), EntryInode(e));
  }

  /** Everything of the invariant at once. */
  lemma InvAfter(s: Fs, s5: Fs, g: Owners, dir: nat, b: nat, e: seq<byte>, itype: nat)
    requires Inv(s, g) && 1 <= dir < |g.par| < INODES && Appended(s, g, dir, b, e, itype, s5.store.disk, s5.itab)
    requires s5.dcache == s.dcache && s5.icache == s.icache && s5.store.slots == s.store.slots
    requires s5.inoMap == Set(s.inoMap, |g.par|)
    requires s5.blkMap == if s.itab[dir].size % BLOCK_SIZE == 0 then Set(s.blkMap, |g.own|) else s.blkMap
    ensures Inv(s5, Joined(g, dir, s.itab[dir]))
  {
    TreeAfter(s, g, dir, b, e, itype, s5.store.disk, s5.itab);
    RowsAfter(s, g, dir, b, e, itype, s5.store.disk, s5.itab);
    SlotsAfter(s, g, dir, b, e, itype, s5.store.disk, s5.itab);
    StoreAfter(s, g, dir, b, e, itype, s5.store.disk, s5.itab);
    PagesAfter(s, s5, g, dir, b, e, itype);
    MapsAfter(s, s5, g, dir, b, e, itype);
    assert s5.store == s.store.(disk := s5.store.disk);
    hide MapsOk, OwnersOk, RowsOk, SlotsOk, StoreOk, TreeOk, PagesOk, Joined, Appended;
  }

  lemma MapsAfter(s: Fs, s5: Fs, g: Owners, dir: nat, b: nat, e: seq<byte>, itype: nat)
    requires Inv(s, g) && 1 <= dir < |g.par| < INODES && Appended(s, g, dir, b, e, itype, s5.store.disk, s5.itab)
    requires s5.inoMap == Set(s.inoMap, |g.par|)
    requires s5.blkMap == if s.itab[dir].size % BLOCK_SIZE == 0 then Set(s.blkMap, |g.own|) else s.blkMap
    ensures MapsOk(s5, Joined(g, dir, s.itab[dir])) && OwnersOk(Joined(g, dir, s.itab[dir]))
  {
    hide RowsOk, SlotsOk, StoreOk, TreeOk, PagesOk, Prefix, PutEntry;
    SetExtendsPrefix(s.inoMap, |g.par|);
    if s.itab[dir].size % BLOCK_SIZE == 0 { SetExtendsPrefix(s.blkMap, |g.own|); }
  }
}