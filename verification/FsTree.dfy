/**
 Directory entries as they lie on the disk, and what the directories and the inode table owe each other:
 a tree rooted at inode 1 in which every other used inode has exactly one entry.
 */
module FsTree {
  import opened Bytes
  import opened BlockStore
  import opened FsState

  const NAME_SIZE: nat := 14
  const ENTRY_SIZE: nat := 16
  const PAGE_ENTRIES: nat := 32

  /** Entry j of a directory page: 14 bytes of name and a 16-bit inode number. */
  function PageEntry(page: Block, j: nat): (e: seq<byte>)
    requires j < PAGE_ENTRIES
    ensures |e| == ENTRY_SIZE
  {
    page[ENTRY_SIZE * j..ENTRY_SIZE * j + ENTRY_SIZE]
  }

  function EntryName(e: seq<byte>): (name: seq<byte>)
    requires |e| == ENTRY_SIZE
  {
    CStr(e[..NAME_SIZE])
  }

  function EntryInode(e: seq<byte>): nat
    requires |e| == ENTRY_SIZE
  {
    Decode16(e[NAME_SIZE..])
  }

  /** The k-th entry of a directory, read from the disk. */
  function DiskEntry(disk: seq<Block>, dir: Inode, k: nat): (e: seq<byte>)
    ensures |e| == ENTRY_SIZE
  {
    if k / PAGE_ENTRIES < INODE_BLOCKS && dir.blocks[k / PAGE_ENTRIES] < |disk| then
      PageEntry(disk[dir.blocks[k / PAGE_ENTRIES]], k % PAGE_ENTRIES)
    else Zeros(ENTRY_SIZE)
  }

  predicate IsDir(itab: InodeTable, d: nat) {
    d < INODES && itab[d].itype == FS_DIR
  }

  /** The number of entries of a directory. */
  function Count(dir: Inode): nat {
    dir.size / ENTRY_SIZE
  }

  /** par[m] is the directory and position of the entry for inode m. */
  ghost predicate EntryListed(disk: seq<Block>, itab: InodeTable, par: seq<(nat, nat)>, d: nat, k: nat)
    requires d < INODES
  {
    var m := EntryInode(DiskEntry(disk, itab[d], k));
    d < m < |par| && par[m] == (d, k)
  }

  ghost predicate ParentHolds(disk: seq<Block>, itab: InodeTable, m: nat, p: (nat, nat)) {
    && 1 <= p.0 < m && IsDir(itab, p.0) && p.1 < Count(itab[p.0])
    && EntryInode(DiskEntry(disk, itab[p.0], p.1)) == m
  }

  /** Bytes behind the last entry of a directory are zero. */
  ghost predicate TailClear(disk: seq<Block>, itab: InodeTable, d: nat, k: nat)
    requires d < INODES
  {
    k / PAGE_ENTRIES < BlocksFor(itab[d].size) ==> DiskEntry(disk, itab[d], k) == Zeros(ENTRY_SIZE)
  }

  ghost predicate TreeOk(disk: seq<Block>, itab: InodeTable, par: seq<(nat, nat)>) {
    && 2 <= |par| <= INODES
    && (forall d: nat, k: nat :: d < |par| && IsDir(itab, d) && k < Count(itab[d]) ==>
          EntryListed(disk, itab, par, d, k))
    && (forall m: nat :: 2 <= m < |par| ==> ParentHolds(disk, itab, m, par[m]))
    && (forall d: nat, k: nat :: d < |par| && IsDir(itab, d) && Count(itab[d]) <= k ==> TailClear(disk, itab, d, k))
    && (forall d: nat :: d < |par| && IsDir(itab, d) ==> itab[d].size % ENTRY_SIZE == 0)
    && EntrySum(itab, |par|) == |par| - 2
  }

  /** Entries of all directories among the first n inodes. */
  function EntrySum(itab: InodeTable, n: nat): nat {
    if n == 0 then 0
    else EntrySum(itab, n - 1) + if IsDir(itab, n - 1) then Count(itab[n - 1]) else 0
  }

  /** Name and inode form an on-disk entry of directory d. */
  ghost predicate IsEntry(disk: seq<Block>, itab: InodeTable, d: nat, name: seq<byte>, m: nat) {
    IsDir(itab, d) && exists k: nat :: k < Count(itab[d]) && EntryIs(DiskEntry(disk, itab[d], k), name, m)
  }

  ghost predicate EntryIs(e: seq<byte>, name: seq<byte>, m: nat)
    requires |e| == ENTRY_SIZE
  {
    EntryName(e) == name && EntryInode(e) == m
  }

  /** Every name on a cached directory page is an on-disk entry of that directory. */
  ghost predicate PageSound(disk: seq<Block>, itab: InodeTable, c: DirSlot) {
    forall j: nat :: j < PAGE_ENTRIES && EntryName(PageEntry(c.page, j)) != [] ==>
      IsEntry(disk, itab, c.dir, EntryName(PageEntry(c.page, j)), EntryInode(PageEntry(c.page, j)))
  }

  /** A cached page carries the number of one of its directory's blocks. */
  ghost predicate PagePlaced(itab: InodeTable, c: DirSlot) {
    c.dir != 0 ==> IsDir(itab, c.dir) && exists i: nat :: UsedPlace(itab[c.dir], i, c.num)
  }

  /** Block b stands at place i of the used range of a record. */
  predicate UsedPlace(ino: Inode, i: nat, b: nat) {
    i < INODE_BLOCKS && i < BlocksFor(ino.size) && ino.blocks[i] == b
  }

  /** No page is cached twice. */
  ghost predicate PagesApart(c: DirCache) {
    forall j, k :: 0 <= j < k < DIR_SLOTS && c[j].dir != 0 && c[j].dir == c[k].dir ==> c[j].num != c[k].num
  }

  /** Entry x stands at position e of a directory, and on the cached page of its block if there is one. */
  ghost predicate Home(disk: seq<Block>, row: Inode, c: DirCache, d: nat, e: nat, x: seq<byte>) {
    && e < Count(row) && DiskEntry(disk, row, e) == x && e / PAGE_ENTRIES < INODE_BLOCKS
    && forall k :: 0 <= k < DIR_SLOTS && c[k].dir == d && c[k].num == row.blocks[e / PAGE_ENTRIES] ==>
         PageEntry(c[k].page, e % PAGE_ENTRIES) == x
  }

  ghost predicate HasHome(disk: seq<Block>, row: Inode, c: DirCache, d: nat, x: seq<byte>) {
    exists e: nat :: Home(disk, row, c, d, e, x)
  }

  /** What any cached page names, the cached page of the entry's own block names too. */
  ghost predicate NamesHome(disk: seq<Block>, itab: InodeTable, c: DirCache) {
    forall k: nat, j: nat :: Names(c, k, j) && c[k].dir < INODES ==>
      HasHome(disk, itab[c[k].dir], c, c[k].dir, PageEntry(c[k].page, j))
  }

  /** Place j of the page in slot k has a name. */
  ghost predicate Names(c: DirCache, k: nat, j: nat) {
    k < DIR_SLOTS && j < PAGE_ENTRIES && c[k].dir != 0 && EntryName(PageEntry(c[k].page, j)) != []
  }

  // ------------------------------------------------------------------ counting

  lemma {:induction false} CountAtMostSum(itab: InodeTable, n: nat, d: nat)
    requires d < n && IsDir(itab, d)
    ensures Count(itab[d]) <= EntrySum(itab, n)
  {
    if d < n - 1 {
      CountAtMostSum(itab, n - 1, d);
    }
  }

  /** Counting over the whole tree bounds every single directory: at most 62 entries in at most two blocks. */
  lemma DirectoriesAreSmall(disk: seq<Block>, itab: InodeTable, par: seq<(nat, nat)>, d: nat)
    requires TreeOk(disk, itab, par) && d < |par| && IsDir(itab, d)
    ensures Count(itab[d]) <= |par| - 2 <= 62
    ensures itab[d].size <= 992 && BlocksFor(itab[d].size) <= 2
  {
    CountAtMostSum(itab, |par|, d);
  }

  lemma {:induction false} EntrySumFrame(itab: InodeTable, itab': InodeTable, n: nat)
    requires forall d :: 0 <= d < INODES && d < n ==>
      IsDir(itab', d) == IsDir(itab, d) && (IsDir(itab, d) ==> itab'[d].size == itab[d].size)
    ensures EntrySum(itab', n) == EntrySum(itab, n)
  {
    if n > 0 {
      EntrySumFrame(itab, itab', n - 1);
    }
  }

  /** One more entry in one directory. */
  lemma {:induction false} EntrySumPlusOne(itab: InodeTable, itab': InodeTable, n: nat, d: nat)
    requires d < n <= INODES && IsDir(itab, d) && IsDir(itab', d)
    requires itab'[d].size == itab[d].size + ENTRY_SIZE
    requires forall e :: 0 <= e < n && e != d ==>
      IsDir(itab', e) == IsDir(itab, e) && (IsDir(itab, e) ==> itab'[e].size == itab[e].size)
    ensures EntrySum(itab', n) == EntrySum(itab, n) + 1
  {
    if d < n - 1 {
      EntrySumPlusOne(itab, itab', n - 1, d);
    } else {
      EntrySumFrame(itab, itab', n - 1);
    }
  }

  // ------------------------------------------------------------------ frame

  /** The directories, their rows and their blocks are as before. */
  ghost predicate DirsUntouched(disk: seq<Block>, itab: InodeTable, disk': seq<Block>, itab': InodeTable) {
    && |disk'| == |disk|
    && (forall d :: 0 <= d < INODES ==> itab'[d].itype == itab[d].itype)
    && (forall d :: 0 <= d < INODES && itab[d].itype == FS_DIR ==> DirUntouched(disk, itab[d], disk', itab'[d]))
  }

  ghost predicate DirUntouched(disk: seq<Block>, dir: Inode, disk': seq<Block>, dir': Inode) {
    dir' == dir && forall i :: 0 <= i < INODE_BLOCKS && i < BlocksFor(dir.size) ==>
      dir.blocks[i] < |disk| && dir.blocks[i] < |disk'| && disk'[dir.blocks[i]] == disk[dir.blocks[i]]
  }

  lemma DiskEntryFrame(disk: seq<Block>, dir: Inode, disk': seq<Block>, k: nat)
    requires DirUntouched(disk, dir, disk', dir) && k / PAGE_ENTRIES < BlocksFor(dir.size)
    ensures DiskEntry(disk', dir, k) == DiskEntry(disk, dir, k)
  {
  }

  lemma TreeFrame(disk: seq<Block>, itab: InodeTable, disk': seq<Block>, itab': InodeTable, par: seq<(nat, nat)>)
    requires TreeOk(disk, itab, par) && DirsUntouched(disk, itab, disk', itab')
    ensures TreeOk(disk', itab', par)
  {
    EntrySumFrame(itab, itab', |par|);
    forall d: nat, k: nat | d < |par| && IsDir(itab', d) && k < Count(itab'[d])
      ensures EntryListed(disk', itab', par, d, k)
    {
      assert EntryListed(disk, itab, par, d, k);
      DiskEntryFrame(disk, itab[d], disk', k);
    }
    forall m: nat | 2 <= m < |par|
      ensures ParentHolds(disk', itab', m, par[m])
    {
      assert ParentHolds(disk, itab, m, par[m]);
      DiskEntryFrame(disk, itab[par[m].0], disk', par[m].1);
    }
    forall d: nat, k: nat | d < |par| && IsDir(itab', d) && Count(itab'[d]) <= k
      ensures TailClear(disk', itab', d, k)
    {
      assert TailClear(disk, itab, d, k);
      if k / PAGE_ENTRIES < BlocksFor(itab[d].size) {
        DiskEntryFrame(disk, itab[d], disk', k);
      }
    }
  }

  lemma IsEntryFrame(disk: seq<Block>, itab: InodeTable, disk': seq<Block>, itab': InodeTable, d: nat, name: seq<byte>,
        m: nat)
    requires IsEntry(disk, itab, d, name, m) && DirsUntouched(disk, itab, disk', itab')
    ensures IsEntry(disk', itab', d, name, m)
  {
    var k: nat :| k < Count(itab[d]) && EntryIs(DiskEntry(disk, itab[d], k), name, m);
    DiskEntryFrame(disk, itab[d], disk', k);
    assert EntryIs(DiskEntry(disk', itab'[d], k), name, m);
  }

  lemma PageSoundFrame(disk: seq<Block>, itab: InodeTable, disk': seq<Block>, itab': InodeTable, c: DirSlot)
    requires PageSound(disk, itab, c) && DirsUntouched(disk, itab, disk', itab')
    ensures PageSound(disk', itab', c)
  {
    forall j: nat | j < PAGE_ENTRIES && EntryName(PageEntry(c.page, j)) != []
      ensures IsEntry(disk', itab', c.dir, EntryName(PageEntry(c.page, j)), EntryInode(PageEntry(c.page, j)))
    {
      IsEntryFrame(disk, itab, disk', itab', c.dir, EntryName(PageEntry(c.page, j)), EntryInode(PageEntry(c.page, j)));
    }
  }

  lemma PagePlacedFrame(disk: seq<Block>, itab: InodeTable, disk': seq<Block>, itab': InodeTable, c: DirSlot)
    requires PagePlaced(itab, c) && DirsUntouched(disk, itab, disk', itab')
    ensures PagePlaced(itab', c)
  {
    if c.dir != 0 {
      var i: nat :| UsedPlace(itab[c.dir], i, c.num);
      assert UsedPlace(itab'[c.dir], i, c.num);
    }
  }

  lemma NamesHomeFrame(disk: seq<Block>, itab: InodeTable, disk': seq<Block>, itab': InodeTable, c: DirCache)
    requires NamesHome(disk, itab, c) && DirsUntouched(disk, itab, disk', itab')
    requires forall k :: 0 <= k < DIR_SLOTS ==> PagePlaced(itab, c[k])
    ensures NamesHome(disk', itab', c)
  {
    hide PageEntry, EntryName, DiskEntry;
    forall k: nat, j: nat | Names(c, k, j) && c[k].dir < INODES
      ensures HasHome(disk', itab'[c[k].dir], c, c[k].dir, PageEntry(c[k].page, j))
    {
      var d, x := c[k].dir, PageEntry(c[k].page, j);
      assert PagePlaced(itab, c[k]);
      var e: nat :| Home(disk, itab[d], c, d, e, x);
      DiskEntryFrame(disk, itab[d], disk', e);
      assert Home(disk', itab'[d], c, d, e, x);
    }
  }

  // ------------------------------------------------------------------ the shape of the graph

  /** A parent's number is smaller. */
  ghost predicate ParentsDecrease(par: seq<(nat, nat)>) {
    forall m: nat :: 2 <= m < |par| ==> 1 <= par[m].0 < m
  }

  /** Following parents from a used inode reaches the root in finitely many steps. */
  ghost function PathFromRoot(par: seq<(nat, nat)>, n: nat): (p: seq<nat>)
    requires 1 <= n < |par| && ParentsDecrease(par)
    ensures |p| > 0 && p[0] == ROOT && p[|p| - 1] == n
  {
    if n == ROOT then [ROOT] else PathFromRoot(par, par[n].0) + [n]
  }

  ghost predicate Links(disk: seq<Block>, itab: InodeTable, d: nat, m: nat) {
    d < INODES && exists k: nat :: k < Count(itab[d]) && IsDir(itab, d) && EntryInode(DiskEntry(disk, itab[d], k)) == m
  }

  lemma TreeParents(disk: seq<Block>, itab: InodeTable, par: seq<(nat, nat)>)
    requires TreeOk(disk, itab, par)
    ensures ParentsDecrease(par)
    ensures forall m: nat :: 2 <= m < |par| ==> Links(disk, itab, par[m].0, m)
  {
    forall m: nat | 2 <= m < |par| ensures 1 <= par[m].0 < m && Links(disk, itab, par[m].0, m) {
      assert ParentHolds(disk, itab, m, par[m]);
    }
  }

  ghost predicate Chain(disk: seq<Block>, itab: InodeTable, p: seq<nat>) {
    forall i :: 0 <= i < |p| - 1 ==> Links(disk, itab, p[i], p[i + 1])
  }

  lemma {:induction false} ParentPathIsChain(disk: seq<Block>, itab: InodeTable, par: seq<(nat, nat)>, n: nat)
    requires ParentsDecrease(par) && 1 <= n < |par|
    requires forall m: nat :: 2 <= m < |par| ==> Links(disk, itab, par[m].0, m)
    ensures Chain(disk, itab, PathFromRoot(par, n))
    decreases n
  {
    hide Links;
    if n > ROOT {
      var q := PathFromRoot(par, par[n].0);
      ParentPathIsChain(disk, itab, par, par[n].0);
      var p := q + [n];
      forall i | 0 <= i < |p| - 1 ensures Links(disk, itab, p[i], p[i + 1]) {
        if i < |q| - 1 {
          assert p[i] == q[i] && p[i + 1] == q[i + 1];
        }
      }
    }
  }

  /** Every used inode is reached from the root along on-disk links. */
  lemma RootReachesAll(disk: seq<Block>, itab: InodeTable, par: seq<(nat, nat)>, n: nat)
    requires TreeOk(disk, itab, par) && 1 <= n < |par|
    ensures exists p: seq<nat> :: |p| > 0 && p[0] == ROOT && p[|p| - 1] == n && Chain(disk, itab, p)
  {
    TreeParents(disk, itab, par);
    ParentPathIsChain(disk, itab, par, n);
    assert PathFromRoot(par, n)[0] == ROOT;
  }

  /** No chain of links comes back to where it began. */
  lemma {:induction false} NoCycles(disk: seq<Block>, itab: InodeTable, par: seq<(nat, nat)>, p: seq<nat>)
    requires TreeOk(disk, itab, par) && |p| >= 2
    requires forall i :: 0 <= i < |p| ==> p[i] < |par|
    requires Chain(disk, itab, p)
    ensures p[0] < p[|p| - 1]
  {
    assert Links(disk, itab, p[0], p[0 + 1]);
    var k: nat :| k < Count(itab[p[0]]) && IsDir(itab, p[0]) && EntryInode(DiskEntry(disk, itab[p[0]], k)) == p[1];
    assert EntryListed(disk, itab, par, p[0], k);
    if |p| > 2 {
      var q := p[1..];
      forall i | 0 <= i < |q| - 1 ensures Links(disk, itab, q[i], q[i + 1]) {
        assert Links(disk, itab, p[i + 1], p[i + 1 + 1]);
      }
      NoCycles(disk, itab, par, q);
    }
  }
}
