/**
 One turn and the end of every loop of the fs_* functions, and what a caller's buffer holds after a call: the facts
 the loops of the file system object are checked against.
 */
module FsTurns {
  import opened Bytes
  import opened Bitmap
  import opened BlockStore
  import opened FsState
  import opened FsFiles
  import opened FsTree
  import opened FsInv
  import opened FsCoherence
  import opened FsCalls
  import opened FsMeta
  import opened FsDirs
  import opened FsSearch
  import opened FsAlloc
  import opened FsWriting
  import opened FsNamespace
  import opened FsCopying
  import opened FsStart

  /** The lines the server has for the reply to a listing. */
  const MAX_READDIR_ENTRIES: nat := 64

  // ------------------------------------------------------------------ the caller's buffer

  /** The reply is in the first places of the buffer, the rest is as it was; or the call failed, as it should. */
  ghost predicate Filled<T>(r: Res<nat>, want: Res<seq<T>>, buffer: seq<T>, was: seq<T>) {
    if want.Ok? then r == Ok(|want.value|) && |want.value| <= |buffer| == |was|
          && buffer == want.value + was[|want.value|..]
    else r.Err? && want.Err?
  }

  lemma FilledTo<T>(buffer: seq<T>, was: seq<T>, count: nat)
    requires count <= |buffer| == |was| && buffer[count..] == was[count..]
    ensures Filled(Ok(count), Ok(buffer[..count]), buffer, was)
  {
    assert buffer == buffer[..count] + buffer[count..];
  }

  lemma NotFilled<T>(buffer: seq<T>, was: seq<T>)
    ensures Filled(Err, Err, buffer, was)
  {
  }

  // ------------------------------------------------------------------ the loops

  lemma StoreTurn(disk: seq<Block>, t: InodeTable, i: nat)
    requires i < TABLE_BLOCKS && META_BLOCKS <= |disk|
    ensures StoreTable(disk, t, i) == StoreTable(DiskWrite(disk, i + 2, TableBlock(t, i)), t, i + 1)
  {
    hide TableBlock;
  }

  lemma StoreEnd(disk: seq<Block>, t: InodeTable)
    requires META_BLOCKS <= |disk|
    ensures StoreTable(disk, t, TABLE_BLOCKS) == disk
  {
  }

  lemma TwoBits(m: Block)
    ensures SetRange(m, 0, 2) == Set(Set(m, 0), 1)
  {
    assert SetRange(Set(m, 0), 1, 2) == SetRange(Set(Set(m, 0), 1), 2, 2);
  }

  lemma TouchTwice(st: Store, k: nat, a: int, b: int)
    requires k < CACHE_SLOTS
    ensures Touch(Touch(st, k, a), k, b) == Touch(st, k, b) && Touch(st, k, a).slots[k].data == st.slots[k].data
  {
  }

  lemma LookupEnds(s: Fs, path: seq<byte>, g: Owners)
    requires Inv(s, g)
    ensures !FsLookup(s, path).1.Fault?
  {
    LookupSound(s, path, g);
  }

  lemma QuietInvariant(s: Fs, s': Fs, g: Owners)
    requires Quiet(s, s', g)
    ensures Inv(s', g)
  {
  }

  lemma FetchTables(s: Fs, b: nat)
    ensures var s' := FetchBlock(s, b).0; s' == s.(store := s'.store, ticks := s'.ticks)
  {
  }

  lemma ReadLoopTurn(s: Fs, ino: Inode, offset: nat, max: nat, iblock: nat, acc: seq<byte>)
    requires |acc| < max && iblock < BlocksFor(ino.size)
    ensures iblock >= INODE_BLOCKS ==> ReadLoop(s, ino, offset, max, iblock, acc) == (s, Err)
    ensures iblock < INODE_BLOCKS ==>
      var (s1, data) := FetchBlock(s, ino.blocks[iblock]);
      var start := if |acc| == 0 then offset % BLOCK_SIZE else 0;
      ReadLoop(s, ino, offset, max, iblock, acc)
        == if data.None? then (s1, Err)
           else ReadLoop(s1, ino, offset, max, iblock + 1, acc + data.value[start..start + Min(BLOCK_SIZE - start,
                 max - |acc|)])
  {
  }

  lemma ReadLoopEnd(s: Fs, ino: Inode, offset: nat, max: nat, iblock: nat, acc: seq<byte>)
    requires |acc| >= max || iblock >= BlocksFor(ino.size)
    ensures ReadLoop(s, ino, offset, max, iblock, acc) == (s, Ok(acc))
  {
  }

  lemma AllocLoopTurn(s: Fs, ref: Ref, i: nat, end: nat)
    requires ValidRef(ref) && i < end <= INODE_BLOCKS
    ensures var b := FindFree(s.blkMap, 0, s.NumBlocks());
      AllocLoop(s, ref, i, end) == if b.None? then (s, false) else AllocLoop(AllocOne(s, ref, i, b.value), ref, i + 1,
            end)
  {
  }

  lemma AllocLoopEnd(s: Fs, ref: Ref, end: nat)
    requires ValidRef(ref) && end <= INODE_BLOCKS
    ensures AllocLoop(s, ref, end, end) == (s, true)
  {
  }

  lemma PutIsStamped(st: Store, k: nat, data: Block, a: int, b: int)
    requires k < CACHE_SLOTS
    ensures var st1 := Touch(st, k, a);
      Touch(st1.(slots := st1.slots[k := st1.slots[k].(data := data, dirty := true)]), k, b) == Put(st, k, data, b)
    ensures Touch(st, k, a).slots[k].data == st.slots[k].data
  {
  }

  lemma UpdateTables(s: Fs, b: nat, start: nat, chunk: seq<byte>)
    requires start + |chunk| <= BLOCK_SIZE
    ensures var s' := UpdateBlock(s, b, start, chunk).0; s' == s.(store := s'.store, ticks := s'.ticks)
  {
  }

  lemma WriteLoopTurn(s: Fs, ino: Inode, offset: nat, buffer: seq<byte>, num: nat, iblock: nat)
    requires num < |buffer| && WriteLoop(s, ino, offset, buffer, num, iblock).1 != Abort
    ensures iblock < INODE_BLOCKS
    ensures var start := if num == 0 then offset % BLOCK_SIZE else 0;
      var w := Min(BLOCK_SIZE - start, |buffer| - num);
      var (s1, ok) := UpdateBlock(s, ino.blocks[iblock], start, buffer[num..num + w]);
      WriteLoop(s, ino, offset, buffer, num, iblock)
        == if !ok then (s1, Err) else WriteLoop(s1, ino, offset, buffer, num + w, iblock + 1)
  {
  }

  lemma WriteLoopEnd(s: Fs, ino: Inode, offset: nat, buffer: seq<byte>, iblock: nat)
    ensures WriteLoop(s, ino, offset, buffer, |buffer|, iblock) == (s, Ok(()))
  {
  }

  lemma SearchTurn(s: Fs, dir: InodeId, name: seq<byte>, part: Option<nat>, iblock: nat, num: nat)
    requires (part.Some? ==> part.value < DIR_SLOTS) && num > 0
          && SearchBlocks(s, dir, name, part, iblock, num).1 != Abort
    ensures iblock < INODE_BLOCKS
    ensures var (s1, page) := FetchPage(s, dir, s.itab[dir].blocks[iblock]);
      var n := Min(PAGE_ENTRIES, num);
      SearchBlocks(s, dir, name, part, iblock, num) ==
        if page.None? then (s1, Err)
        else
          var j := ScanPage(page.value, name, 0, n);
          if j.None? then SearchBlocks(s1, dir, name, part, iblock + 1, num - n)
          else (Noted(s1, part, PageEntry(page.value, j.value)), Ok(EntryInode(PageEntry(page.value, j.value))))
  {
    hide FetchPage, ScanPage, FillFirstGap, EntryInode;
  }

  ghost function Noted(s: Fs, part: Option<nat>, e: seq<byte>): Fs
    requires (part.Some? ==> part.value < DIR_SLOTS) && |e| == ENTRY_SIZE
  {
    if part.None? then s
    else s.(dcache := s.dcache[part.value := s.dcache[part.value].(page := FillFirstGap(s.dcache[part.value].page, 0,
          e))])
  }

  lemma PageTables(s: Fs, d: nat, b: nat)
    ensures FetchPage(s, d, b).0.itab == s.itab
  {
  }

  lemma SearchEnd(s: Fs, dir: InodeId, name: seq<byte>, part: Option<nat>, iblock: nat)
    requires part.Some? ==> part.value < DIR_SLOTS
    ensures SearchBlocks(s, dir, name, part, iblock, 0) == (s, Err)
  {
  }

  lemma LookupTurn(s: Fs, dir: nat, tokens: seq<seq<byte>>)
    requires tokens != [] && !LookupFrom(s, dir, tokens).1.Fault?
    ensures dir / 8 < BLOCK_SIZE
    ensures IsSet(s.inoMap, dir) ==> dir < INODES
    ensures !(IsSet(s.inoMap, dir) && s.itab[dir].itype == FS_DIR) ==> LookupFrom(s, dir, tokens) == (s, Refused)
    ensures IsSet(s.inoMap, dir) && s.itab[dir].itype == FS_DIR ==>
      var (s1, r) := DirSearch(s, dir, tokens[0]);
      !r.Abort? && LookupFrom(s, dir, tokens) == if r.Err? then (s1, Missing) else LookupFrom(s1, r.value, tokens[1..])
  {
    hide DirSearch, IsSet;
  }

  lemma LookupEnd(s: Fs, dir: nat, tokens: seq<seq<byte>>)
    requires tokens == []
    ensures LookupFrom(s, dir, tokens) == (s, Found(dir))
  {
  }

  lemma ListPageTurn(s: Fs, page: Block, j: nat, n: nat, acc: seq<Listed>)
    requires j < n <= PAGE_ENTRIES
    ensures var e := PageEntry(page, j);
      var (s1, t) := ListedType(s, EntryInode(e));
      ListPage(s, page, j, n, acc) == ListPage(s1, page, j + 1, n, acc + [Listed(EntryName(e), t)])
  {
  }

  lemma ListPageEnd(s: Fs, page: Block, n: nat, acc: seq<Listed>)
    requires n <= PAGE_ENTRIES
    ensures ListPage(s, page, n, n, acc) == (s, acc)
  {
  }

  lemma ListBlocksTurn(s: Fs, dir: InodeId, ino: Inode, iblock: nat, num: nat, acc: seq<Listed>)
    requires num > 0 && ListBlocks(s, dir, ino, iblock, num, acc).1 != Abort
    ensures iblock < INODE_BLOCKS
    ensures var (s1, page) := FetchPage(s, dir, ino.blocks[iblock]);
      ListBlocks(s, dir, ino, iblock, num, acc)
        == if page.None? then (s1, Err)
           else
             var n := Min(PAGE_ENTRIES, num);
             var (s2, acc2) := ListPage(s1, page.value, 0, n, acc);
             ListBlocks(s2, dir, ino, iblock + 1, num - n, acc2)
  {
    hide FetchPage, ListPage;
  }

  lemma ListBlocksEnd(s: Fs, dir: InodeId, ino: Inode, iblock: nat, acc: seq<Listed>)
    ensures ListBlocks(s, dir, ino, iblock, 0, acc) == (s, Ok(acc))
  {
  }

  /** The record a listing works from has no more entries than that. */
  predicate EntriesFit(s: Fs, dir: InodeId, n: nat) {
    var (s1, ref) := Acquire(s, dir);
    ref.Some? && FsState.Load(s1, ref.value).itype == FS_DIR ==> Count(FsState.Load(s1, ref.value)) <= n
  }

  lemma ReplyFits(s: Fs, dir: InodeId, g: Owners)
    requires Inv(s, g)
    ensures EntriesFit(s, dir, 62)
  {
    hide Inv, Refers, NoDirtyCopy, Resident, DirPrefix;
    AcquireFinds(s, dir, g);
    AcquireKeepsInv(s, dir, g);
    FileFacts(s, dir, g);
    MakeBounds(s, dir, g);
    if dir < |g.par| && IsDir(s.itab, dir) {
      CachedDirFacts(s, dir, g);
    }
  }

  lemma Wider(s: Fs, dir: InodeId)
    requires EntriesFit(s, dir, 62)
    ensures EntriesFit(s, dir, MAX_READDIR_ENTRIES)
  {
  }

  lemma CopyLoopTurn(s: Fs, src: Ref, dst: Ref, i: nat, used: nat)
    requires ValidRef(src) && ValidRef(dst) && i < used && CopyLoop(s, src, dst, i, used).1 != Abort
    ensures i < INODE_BLOCKS
    ensures var b := FindFree(s.blkMap, 0, s.NumBlocks());
      CopyLoop(s, src, dst, i, used)
        == if b.None? then (s, Err)
           else
             var (s1, ok) := CopyOne(s, src, dst, i, b.value);
             if !ok then (s1, Err) else CopyLoop(s1, src, dst, i + 1, used)
  {
    hide CopyOne;
  }

  lemma CopyLoopEnd(s: Fs, src: Ref, dst: Ref, used: nat)
    requires ValidRef(src) && ValidRef(dst)
    ensures CopyLoop(s, src, dst, used, used) == (s, Ok(()))
  {
  }
}
