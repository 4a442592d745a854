/** What holds in every state the server can get into by proper calls: ownership of blocks, the free maps, the tree. */
module FsReachable {
  import opened Bytes
  import opened Bitmap
  import opened BlockStore
  import opened FsState
  import opened FsFiles
  import opened FsTree
  import opened FsInv
  import opened FsCalls
  import opened FsWriteCalls
  import opened FsMeta
  import opened FsDirs
  import opened FsSearch
  import opened FsNamespace
  import opened FsStart
  import opened FsRuns

  ghost predicate ReachedBy(s: Fs, n: nat, time: nat -> int, calls: seq<Call>) {
    && META_BLOCKS < n <= 8 * BLOCK_SIZE && (forall i :: 0 <= i < |calls| ==> Proper(calls[i]))
    && s == Run(Formatted(n, time), calls).0
  }

  ghost predicate Reachable(s: Fs) {
    exists n: nat, time: nat -> int, calls: seq<Call> :: ReachedBy(s, n, time, calls)
  }

  lemma ReachableInv(s: Fs) returns (g: Owners)
    requires Reachable(s)
    ensures Inv(s, g)
  {
    hide Formatted, Run, Proper, Faulty, Inv;
    var n: nat, time: nat -> int, calls: seq<Call> :| ReachedBy(s, n, time, calls);
    FormattedOk(n, time);
    g := RunKeepsInv(Formatted(n, time), calls, START);
  }

  // ------------------------------------------------------------------ ownership

  /** Some record of inode n in use, its table row or any cached copy, has block b at used place i. */
  ghost predicate UsesBlock(s: Fs, n: nat, i: nat, b: nat) {
    || (1 <= n < INODES && IsSet(s.inoMap, n) && RecordUses(s.itab[n], i, b))
    || (n != 0 && exists k :: 0 <= k < INODE_SLOTS && s.icache[k].num == n && RecordUses(s.icache[k].inode, i, b))
  }

  predicate RecordUses(ino: Inode, i: nat, b: nat) {
    i < BlocksFor(ino.size) && (i >= INODE_BLOCKS || ino.blocks[i] == b)
  }

  lemma UsedIsOwned(s: Fs, g: Owners, n: nat, i: nat, b: nat)
    requires Inv(s, g) && UsesBlock(s, n, i, b)
    ensures i < INODE_BLOCKS && Owns(g.own, b, n, i) && |g.own| <= s.NumBlocks() && IsSet(s.blkMap, b)
  {
    hide StoreOk, TreeOk, PagesOk;
    if 1 <= n < INODES && IsSet(s.inoMap, n) && RecordUses(s.itab[n], i, b) {
      UsedIffBelow(s, g, n);
      assert RowOk(s.itab[n], n, g);
    } else {
      var k :| 0 <= k < INODE_SLOTS && s.icache[k].num == n && RecordUses(s.icache[k].inode, i, b);
      assert SlotOk(s.icache[k], s.itab, g);
    }
  }

  /** A block in use is a marked data block of the device. */
  lemma UsedBlocksAreMarked(s: Fs, n: nat, i: nat, b: nat)
    requires Reachable(s) && UsesBlock(s, n, i, b)
    ensures i < INODE_BLOCKS && META_BLOCKS <= b < s.NumBlocks() && IsSet(s.blkMap, b)
  {
    hide Reachable, Inv, UsesBlock, IsSet;
    var g := ReachableInv(s);
    UsedIsOwned(s, g, n, i, b);
  }

  /** No two files or directories, and no two places of one, ever share a block: not even through stale copies. */
  lemma NoBlockIsShared(s: Fs, n: nat, i: nat, m: nat, j: nat, b: nat)
    requires Reachable(s) && UsesBlock(s, n, i, b) && UsesBlock(s, m, j, b)
    ensures n == m && i == j
  {
    hide Reachable, Inv, UsesBlock, IsSet;
    var g := ReachableInv(s);
    UsedIsOwned(s, g, n, i, b);
    UsedIsOwned(s, g, m, j, b);
  }

  /** The marked blocks and the marked inodes are initial segments of the numbers. */
  lemma FreeMapsArePrefixes(s: Fs)
    requires Reachable(s)
    ensures exists blocks: nat, inodes: nat ::
      && META_BLOCKS <= blocks <= s.NumBlocks() && Prefix(s.blkMap, blocks)
      && 2 <= inodes <= INODES && Prefix(s.inoMap, inodes)
  {
    hide Reachable, RowsOk, SlotsOk, StoreOk, TreeOk, PagesOk, OwnersOk, Prefix;
    var g := ReachableInv(s);
    assert Prefix(s.blkMap, |g.own|) && Prefix(s.inoMap, |g.par|);
  }

  // ------------------------------------------------------------------ the tree

  /** Entry k of directory d names inode m. */
  ghost predicate LinkAt(s: Fs, d: nat, k: nat, m: nat) {
    IsDir(s.itab, d) && k < Count(s.itab[d]) && EntryInode(DiskEntry(s.store.disk, s.itab[d], k)) == m
  }

  lemma DirsAreUsed(s: Fs, g: Owners, d: nat)
    requires Inv(s, g) && IsDir(s.itab, d)
    ensures 1 <= d < |g.par| && IsSet(s.inoMap, d)
  {
    hide StoreOk, TreeOk, PagesOk, SlotsOk;
    assert RowOk(s.itab[d], d, g);
    UsedIffBelow(s, g, d);
  }

  /** Links go from used directories to used inodes with larger numbers. */
  lemma LinksGoUp(s: Fs, d: nat, k: nat, m: nat)
    requires Reachable(s) && LinkAt(s, d, k, m)
    ensures 1 <= d < m < INODES && IsSet(s.inoMap, d) && IsSet(s.inoMap, m)
  {
    hide Reachable, RowsOk, SlotsOk, StoreOk, PagesOk, OwnersOk, IsSet;
    var g := ReachableInv(s);
    DirsAreUsed(s, g, d);
    assert EntryListed(s.store.disk, s.itab, g.par, d, k);
    UsedIffBelow(s, g, m);
  }

  /** Every used inode but the root has exactly one directory entry. */
  lemma OneEntryEach(s: Fs, m: nat)
    requires Reachable(s) && 2 <= m < INODES && IsSet(s.inoMap, m)
    ensures exists d: nat, k: nat :: LinkAt(s, d, k, m)
    ensures forall d: nat, k: nat, e: nat, l: nat :: LinkAt(s, d, k, m) && LinkAt(s, e, l, m) ==> d == e && k == l
  {
    hide Reachable, RowsOk, SlotsOk, StoreOk, PagesOk, OwnersOk, IsSet;
    var g := ReachableInv(s);
    UsedIffBelow(s, g, m);
    assert ParentHolds(s.store.disk, s.itab, m, g.par[m]);
    assert LinkAt(s, g.par[m].0, g.par[m].1, m);
    forall d: nat, k: nat | LinkAt(s, d, k, m) ensures g.par[m] == (d, k) {
      DirsAreUsed(s, g, d);
      assert EntryListed(s.store.disk, s.itab, g.par, d, k);
    }
  }

  /** Every used inode is reached from the root along on-disk entries. */
  lemma AllReachedFromRoot(s: Fs, m: nat)
    requires Reachable(s) && 1 <= m < INODES && IsSet(s.inoMap, m)
    ensures exists p: seq<nat> :: |p| > 0 && p[0] == ROOT && p[|p| - 1] == m && Chain(s.store.disk, s.itab, p)
  {
    hide Reachable, RowsOk, SlotsOk, StoreOk, PagesOk, OwnersOk, TreeOk, IsSet, Chain;
    var g := ReachableInv(s);
    UsedIffBelow(s, g, m);
    RootReachesAll(s.store.disk, s.itab, g.par, m);
  }

  lemma LinkIsUsed(s: Fs, g: Owners, d: nat, m: nat)
    requires Inv(s, g) && Links(s.store.disk, s.itab, d, m)
    ensures d < |g.par| && m < |g.par|
  {
    hide RowsOk, SlotsOk, StoreOk, PagesOk, OwnersOk, IsSet;
    var k: nat :| k < Count(s.itab[d]) && IsDir(s.itab, d) && EntryInode(DiskEntry(s.store.disk, s.itab[d], k)) == m;
    DirsAreUsed(s, g, d);
    assert EntryListed(s.store.disk, s.itab, g.par, d, k);
  }

  /** A chain of links never comes back to where it began. */
  lemma NoWayBack(s: Fs, p: seq<nat>)
    requires Reachable(s) && |p| >= 2 && Chain(s.store.disk, s.itab, p)
    ensures p[0] < p[|p| - 1]
  {
    hide Reachable, RowsOk, SlotsOk, StoreOk, PagesOk, OwnersOk, IsSet, Links;
    var g := ReachableInv(s);
    forall i | 0 <= i < |p| ensures p[i] < |g.par| {
      if i < |p| - 1 {
        LinkIsUsed(s, g, p[i], p[i + 1]);
      } else {
        LinkIsUsed(s, g, p[i - 1], p[i - 1 + 1]);
      }
    }
    NoCycles(s.store.disk, s.itab, g.par, p);
  }

  /** The directories hold as many entries as there are used inodes besides 0 and the root, so each is small. */
  lemma EntriesCountInodes(s: Fs)
    requires Reachable(s)
    ensures exists inodes: nat ::
      2 <= inodes <= INODES && Prefix(s.inoMap, inodes) && EntrySum(s.itab, inodes) == inodes - 2
    ensures forall d: nat :: IsDir(s.itab, d) ==> Count(s.itab[d]) <= 62 && BlocksFor(s.itab[d].size) <= 2
  {
    hide Reachable, RowsOk, SlotsOk, StoreOk, PagesOk, OwnersOk, Prefix, EntrySum;
    var g := ReachableInv(s);
    assert EntrySum(s.itab, |g.par|) == |g.par| - 2 && Prefix(s.inoMap, |g.par|);
    forall d: nat | IsDir(s.itab, d) ensures Count(s.itab[d]) <= 62 && BlocksFor(s.itab[d].size) <= 2 {
      DirsAreUsed(s, g, d);
      DirectoriesAreSmall(s.store.disk, s.itab, g.par, d);
    }
  }

  /** A lookup that finds an inode reached it along on-disk entries with the names of the path. */
  lemma LookupIsSound(s: Fs, path: seq<byte>)
    requires Reachable(s)
    ensures var r := FsLookup(s, path).1;
      !r.Fault? && (r.Found? ==> Resolves(s.store.disk, s.itab, ROOT, Tokens(path), r.id))
  {
    hide Reachable, Inv, FsLookup, Resolves;
    var g := ReachableInv(s);
    LookupSound(s, path, g);
  }

  // ------------------------------------------------------------------ the metadata image

  /** Disk blocks 0-9 hold these maps and this table. */
  ghost predicate ImageIs(s: Fs, blkMap: Block, inoMap: Block, itab: InodeTable) {
    s.store.disk[0] == blkMap && s.store.disk[1] == inoMap && LoadTable(s.store.disk) == itab
  }

  predicate StoresMeta(c: Call) {
    c.CreateIn? || c.MkdirIn? || c.CopyTo?
  }

  lemma ImageKept(s: Fs, s': Fs, blkMap: Block, inoMap: Block, itab: InodeTable)
    requires ImageIs(s, blkMap, inoMap, itab) && MetaKept(s, s')
    ensures ImageIs(s', blkMap, inoMap, itab)
  {
    assert LoadTable(s'.store.disk) == LoadTable(s.store.disk);
  }

  lemma OtherCallsKeepMeta(s: Fs, c: Call, g: Owners)
    requires Inv(s, g) && Proper(c) && !StoresMeta(c)
    ensures MetaKept(s, Step(s, c).0)
  {
    hide Inv, Quiet, MetaKept, FsGetAttrs, FsLookup, FsRead, FsWrite, FsReaddir, LinesSound;
    match c
    case AttrsOf(file) =>
      GetAttrsOk(s, file, g);
      QuietKeepsMeta(s, FsGetAttrs(s, file).0, g);
    case LookUp(path) =>
      LookupQuiet(s, path, g);
      QuietKeepsMeta(s, FsLookup(s, path).0, g);
    case ReadAt(file, offset, count) =>
      ReadOk(s, file, offset, count, g);
      QuietKeepsMeta(s, FsRead(s, file, offset, count).0, g);
    case WriteAt(file, offset, buffer) =>
      var g' := WriteOk(s, file, offset, buffer, g);
    case ListOf(dir, max) =>
      ReaddirOk(s, dir, max, g);
      QuietKeepsMeta(s, FsReaddir(s, dir, max).0, g);
  }

  lemma {:induction false} ImageStays(s: Fs, calls: seq<Call>, g: Owners, blkMap: Block, inoMap: Block,
        itab: InodeTable)
    requires Inv(s, g) && ImageIs(s, blkMap, inoMap, itab)
    requires forall i :: 0 <= i < |calls| ==> Proper(calls[i]) && !StoresMeta(calls[i])
    ensures ImageIs(Run(s, calls).0, blkMap, inoMap, itab)
    decreases |calls|
  {
    hide Inv, Step, Proper, Acts, ImageIs, MetaKept, Faulty;
    if calls != [] {
      var s1 := Step(s, calls[0]).0;
      var g1 := StepOk(s, calls[0], g);
      OtherCallsKeepMeta(s, calls[0], g);
      ImageKept(s, s1, blkMap, inoMap, itab);
      ImageStays(s1, calls[1..], g1, blkMap, inoMap, itab);
    }
  }

  /**
   After a successful fs_create or fs_mkdir the disk image holds the maps and the table as they are in memory, and
   no later attribute, lookup, read, write or listing call, whatever it evicts, changes that image.
   */
  lemma CreatedImageStays(s: Fs, c: Call, calls: seq<Call>)
    requires Reachable(s) && Proper(c) && (c.CreateIn? || c.MkdirIn?) && Step(s, c).1.made.Ok?
    requires forall i :: 0 <= i < |calls| ==> Proper(calls[i]) && !StoresMeta(calls[i])
    ensures var s1 := Step(s, c).0; ImageIs(Run(s1, calls).0, s1.blkMap, s1.inoMap, s1.itab)
  {
    hide Reachable, Inv, Run, MakeNode, LoadTable, Quiet, IsEntry;
    var g := ReachableInv(s);
    var s1 := Step(s, c).0;
    var g1 := MakeNodeOk(s, c.dir, c.name, if c.CreateIn? then FS_FILE else FS_DIR, g);
    ImageStays(s1, calls, g1, s1.blkMap, s1.inoMap, s1.itab);
  }
}
