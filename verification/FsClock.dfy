/** The clock and the stamps of the directory pages: in any run every cached page was stamped before now. */
module FsClock {
  import opened Bytes
  import opened Bitmap
  import opened BlockStore
  import opened FsState
  import opened FsFiles
  import opened FsTree
  import opened FsMeta
  import opened FsDirs
  import opened FsPages
  import opened FsCopying
  import opened FsStart
  import opened FsRuns
  import ExactLru

  /** Time goes on, and pages stamped before now still are. */
  ghost predicate Later(s: Fs, s': Fs) {
    s'.time == s.time && s.ticks <= s'.ticks && (ExactLru.Ticking(s.time) && Older(s) ==> Older(s'))
  }

  /** Steps that leave the page cache alone. */
  ghost predicate SamePages(s: Fs, s': Fs) {
    s'.time == s.time && s.ticks <= s'.ticks && s'.dcache == s.dcache
  }

  lemma {:induction false} TicksOn(time: nat -> int, i: nat, j: nat)
    requires ExactLru.Ticking(time) && i <= j
    ensures time(i) <= time(j)
    decreases j
  {
    if i < j {
      TicksOn(time, i, j - 1);
      ExactLru.TickingPositive(time, j - 1);
    }
  }

  lemma SamePagesLater(s: Fs, s': Fs)
    requires SamePages(s, s')
    ensures Later(s, s')
  {
    hide ExactLru.Ticking;
    if ExactLru.Ticking(s.time) { TicksOn(s.time, s.ticks, s'.ticks); }
  }

  // ------------------------------------------------------------------ files

  lemma {:induction false} ReadLoopPages(s: Fs, ino: Inode, offset: nat, max: nat, iblock: nat, acc: seq<byte>)
    ensures SamePages(s, ReadLoop(s, ino, offset, max, iblock, acc).0)
    decreases BlocksFor(ino.size) - iblock
  {
    hide Touch, Add, BlocksFor;
    if |acc| < max && iblock < BlocksFor(ino.size) && iblock < INODE_BLOCKS {
      var (s1, data) := FetchBlock(s, ino.blocks[iblock]);
      if data.Some? {
        var start := if |acc| == 0 then offset % BLOCK_SIZE else 0;
        var num := Min(BLOCK_SIZE - start, max - |acc|);
        ReadLoopPages(s1, ino, offset, max, iblock + 1, acc + data.value[start..start + num]);
      }
    }
  }

  lemma {:induction false} AllocLoopPages(s: Fs, ref: Ref, i: nat, end: nat)
    requires ValidRef(ref) && end <= INODE_BLOCKS
    ensures SamePages(s, AllocLoop(s, ref, i, end).0)
    decreases end - i
  {
    hide Add, Set, FindFree;
    var b := FindFree(s.blkMap, 0, s.NumBlocks());
    if i < end && b.Some? { AllocLoopPages(AllocOne(s, ref, i, b.value), ref, i + 1, end); }
  }

  lemma {:induction false} WriteLoopPages(s: Fs, ino: Inode, offset: nat, buffer: seq<byte>, num: nat, iblock: nat)
    ensures SamePages(s, WriteLoop(s, ino, offset, buffer, num, iblock).0)
    decreases |buffer| - num
  {
    hide Put, Add, Overlay;
    if num < |buffer| && iblock < INODE_BLOCKS {
      var start := if num == 0 then offset % BLOCK_SIZE else 0;
      var toWrite := Min(BLOCK_SIZE - start, |buffer| - num);
      var (s1, ok) := UpdateBlock(s, ino.blocks[iblock], start, buffer[num..num + toWrite]);
      if ok { WriteLoopPages(s1, ino, offset, buffer, num + toWrite, iblock + 1); }
    }
  }

  lemma CopyOnePages(s: Fs, src: Ref, dst: Ref, i: nat, b: nat)
    requires ValidRef(src) && ValidRef(dst) && i < INODE_BLOCKS && b < s.NumBlocks()
    ensures SamePages(s, CopyOne(s, src, dst, i, b).0)
  {
    hide Touch, Add, Set;
  }

  lemma {:induction false} CopyLoopPages(s: Fs, src: Ref, dst: Ref, i: nat, used: nat)
    requires ValidRef(src) && ValidRef(dst)
    ensures SamePages(s, CopyLoop(s, src, dst, i, used).0)
    decreases used - i
  {
    hide CopyOne, FindFree;
    var b := FindFree(s.blkMap, 0, s.NumBlocks());
    if i < used && i < INODE_BLOCKS && b.Some? {
      CopyOnePages(s, src, dst, i, b.value);
      var (s1, ok) := CopyOne(s, src, dst, i, b.value);
      if ok { CopyLoopPages(s1, src, dst, i + 1, used); }
    }
  }

  lemma AcquirePages(s: Fs, n: InodeId)
    ensures SamePages(s, Acquire(s, n).0)
  {
    hide WriteBack;
  }

  lemma AttrsPages(s: Fs, file: nat)
    ensures SamePages(s, FsGetAttrs(s, file).0)
  {
    hide Acquire;
    if file < INODES { AcquirePages(s, file); }
  }

  lemma ReadPages(s: Fs, file: nat, offset: nat, count: nat)
    ensures SamePages(s, FsRead(s, file, offset, count).0)
  {
    hide Acquire, ReadLoop;
    if file < INODES {
      AcquirePages(s, file);
      var (s1, ref) := Acquire(s, file);
      if ref.Some? {
        var ino := Load(s1, ref.value);
        if offset < ino.size {
          ReadLoopPages(s1, ino, offset, Min(count, ino.size - offset), offset / BLOCK_SIZE, []);
        }
      }
    }
  }

  lemma WriteThroughPages(s: Fs, file: InodeId, ref: Ref, offset: nat, buffer: seq<byte>)
    requires ValidRef(ref)
    ensures var (s', r) := WriteThrough(s, file, ref, offset, buffer);
      SamePages(s, s') && (r.Ok? && ref.InRow? && offset + |buffer| > Load(s, ref).size ==> s.ticks < s'.ticks)
  {
    hide AllocLoop, WriteLoop, WriteBack, BlocksFor, BlocksNeeded;
    var size := Load(s, ref).size;
    var req := BlocksNeeded(size, offset, |buffer|);
    if req + BlocksFor(size) <= INODE_BLOCKS || req == 0 {
      if req > 0 { AllocLoopPages(s, ref, BlocksFor(size), BlocksFor(size) + req); }
      var (s2, ok) := Reserve(s, ref, BlocksFor(size), req);
      if ok { WriteLoopPages(s2, Load(s2, ref), offset, buffer, 0, offset / BLOCK_SIZE); }
    }
  }

  lemma WritePages(s: Fs, file: nat, offset: nat, buffer: seq<byte>)
    ensures SamePages(s, FsWrite(s, file, offset, buffer).0)
  {
    hide Acquire, WriteThrough;
    if file < INODES {
      AcquirePages(s, file);
      var (s1, ref) := Acquire(s, file);
      if ref.Some? { WriteThroughPages(s1, file, ref.value, Min(offset, Load(s1, ref.value).size), buffer); }
    }
  }

  // ------------------------------------------------------------------ directories

  lemma FetchLater(s: Fs, d: nat, b: nat)
    ensures Later(s, FetchPage(s, d, b).0)
  {
    hide ExactLru.Ticking;
    if ExactLru.Ticking(s.time) { ExactLru.TickingPositive(s.time, s.ticks); }
  }

  lemma TouchLater(s: Fs, k: nat)
    requires k < DIR_SLOTS
    ensures Later(s, TouchPage(s, k))
  {
    hide ExactLru.Ticking;
    if ExactLru.Ticking(s.time) { ExactLru.TickingPositive(s.time, s.ticks); }
  }

  lemma {:induction false} SearchBlocksLater(s: Fs, dir: InodeId, name: seq<byte>, part: Option<nat>, iblock: nat,
        num: nat)
    requires part.Some? ==> part.value < DIR_SLOTS
    ensures Later(s, SearchBlocks(s, dir, name, part, iblock, num).0)
    decreases num
  {
    hide FetchPage, ScanPage, FillFirstGap, ExactLru.Ticking;
    if num > 0 && iblock < INODE_BLOCKS {
      FetchLater(s, dir, s.itab[dir].blocks[iblock]);
      var (s1, page) := FetchPage(s, dir, s.itab[dir].blocks[iblock]);
      var n := Min(PAGE_ENTRIES, num);
      if page.Some? && ScanPage(page.value, name, 0, n).None? {
        SearchBlocksLater(s1, dir, name, part, iblock + 1, num - n);
      }
    }
  }

  lemma DirSearchLater(s: Fs, dir: InodeId, name: seq<byte>)
    ensures Later(s, DirSearch(s, dir, name).0)
  {
    hide SearchBlocks, ScanPage, ExactLru.Ticking, Older;
    var k := PageSlotOfDir(s.dcache, dir);
    if k < DIR_SLOTS {
      TouchLater(s, k);
      SearchBlocksLater(TouchPage(s, k), dir, name, Some(k), 0, Count(s.itab[dir]));
    } else {
      SearchBlocksLater(s, dir, name, None, 0, Count(s.itab[dir]));
    }
  }

  lemma {:induction false} LookupFromLater(s: Fs, dir: nat, tokens: seq<seq<byte>>)
    ensures Later(s, LookupFrom(s, dir, tokens).0)
    decreases |tokens|
  {
    hide DirSearch, ExactLru.Ticking, Older;
    if tokens != [] && dir < INODES {
      DirSearchLater(s, dir, tokens[0]);
      var (s1, r) := DirSearch(s, dir, tokens[0]);
      if r.Ok? { LookupFromLater(s1, r.value, tokens[1..]); }
    }
  }

  lemma LookupLater(s: Fs, path: seq<byte>)
    ensures Later(s, FsLookup(s, path).0)
  {
    hide LookupFrom, Tokens, ExactLru.Ticking, Older;
    LookupFromLater(s, ROOT, Tokens(path));
  }

  lemma RoomPages(s: Fs, dir: InodeId, name: seq<byte>, n: nat)
    requires |name| < NAME_SIZE
    ensures var s2 := RoomForEntry(s, dir).0; SamePages(s, s2) && SamePages(s, AppendEntry(s2, dir, name, n).0)
  {
    hide FindFree, Set, PutEntry, NewEntry, PageEntry;
  }

  lemma MakeLater(s: Fs, dir: nat, name: seq<byte>, itype: nat)
    ensures Later(s, MakeNode(s, dir, name, itype).0)
  {
    hide DirSearch, RoomForEntry, AppendEntry, ExactLru.Ticking, Older, FindFree, Set, TableBlock;
    if dir < INODES && |name| < NAME_SIZE {
      DirSearchLater(s, dir, name);
      var s1 := DirSearch(s, dir, name).0;
      var n := FindFree(s1.inoMap, 0, INODES);
      if n.Some? { RoomPages(s1, dir, name, n.value); }
      var s' := MakeNode(s, dir, name, itype).0;
      assert SamePages(s1, s') || s' == s;
      if SamePages(s1, s') { SamePagesLater(s1, s'); }
    }
  }

  lemma {:induction false} ListPagePages(s: Fs, page: Block, j: nat, n: nat, acc: seq<Listed>)
    requires n <= PAGE_ENTRIES
    ensures SamePages(s, ListPage(s, page, j, n, acc).0)
    decreases n - j
  {
    hide EntryName, EntryInode, PageEntry;
    if j < n {
      var e := PageEntry(page, j);
      var (s1, t) := ListedType(s, EntryInode(e));
      ListPagePages(s1, page, j + 1, n, acc + [Listed(EntryName(e), t)]);
    }
  }

  lemma {:induction false} ListBlocksLater(s: Fs, dir: InodeId, ino: Inode, iblock: nat, num: nat, acc: seq<Listed>)
    ensures Later(s, ListBlocks(s, dir, ino, iblock, num, acc).0)
    decreases num
  {
    hide FetchPage, ListPage, ExactLru.Ticking, Older;
    if num > 0 && iblock < INODE_BLOCKS {
      FetchLater(s, dir, ino.blocks[iblock]);
      var (s1, page) := FetchPage(s, dir, ino.blocks[iblock]);
      if page.Some? {
        var n := Min(PAGE_ENTRIES, num);
        ListPagePages(s1, page.value, 0, n, acc);
        var (s2, acc2) := ListPage(s1, page.value, 0, n, acc);
        SamePagesLater(s1, s2);
        ListBlocksLater(s2, dir, ino, iblock + 1, num - n, acc2);
      }
    }
  }

  lemma ReaddirLater(s: Fs, dir: nat, max: int)
    ensures Later(s, FsReaddir(s, dir, max).0)
  {
    hide Acquire, ListBlocks, ExactLru.Ticking, Older;
    if dir < INODES && 0 <= max {
      AcquirePages(s, dir);
      var (s1, ref) := Acquire(s, dir);
      SamePagesLater(s, s1);
      if ref.Some? {
        var ino := Load(s1, ref.value);
        ListBlocksLater(s1, dir, ino, 0, Min(Count(ino), max), []);
      }
    }
  }

  // ------------------------------------------------------------------ fs_copy

  lemma HoldPages(s: Fs, n: InodeId, dirty: bool)
    ensures SamePages(s, Hold(s, n, dirty).0)
  {
    hide WriteBack;
  }

  lemma CopyDataPages(s: Fs, from: InodeId, to: InodeId)
    ensures SamePages(s, CopyData(s, from, to).0)
  {
    hide Hold, CopyLoop, TableBlock;
    HoldPages(s, from, false);
    var (s1, src) := Hold(s, from, false);
    HoldPages(s1, to, true);
    var (s2, dst) := Hold(s1, to, true);
    CopyLoopPages(s2, src, dst, 0, BlocksFor(Load(s2, src).size));
  }

  lemma CopyLater(s: Fs, srcPath: seq<byte>, tgtPath: seq<byte>)
    ensures Later(s, FsCopy(s, srcPath, tgtPath).0)
  {
    hide FsLookup, FsGetAttrs, MakeNode, CopyData, LastSlash, ExactLru.Ticking, Older;
    LookupLater(s, srcPath);
    var (s1, l) := FsLookup(s, srcPath);
    if l.Found? {
      AttrsPages(s1, l.id);
      var s2 := FsGetAttrs(s1, l.id).0;
      SamePagesLater(s1, s2);
      var p := LastSlash(tgtPath);
      if p.Some? && l.id < INODES {
        CopyIntoLater(s2, l.id, tgtPath[..p.value], tgtPath[p.value + 1..]);
      }
    }
  }

  lemma CopyIntoLater(s: Fs, from: InodeId, dirPart: seq<byte>, name: seq<byte>)
    ensures Later(s, CopyInto(s, from, dirPart, name).0)
  {
    hide FsLookup, MakeNode, CopyData, ExactLru.Ticking, Older;
    LookupLater(s, dirPart);
    var (s1, l) := FsLookup(s, dirPart);
    if l.Found? {
      MakeLater(s1, l.id, name, FS_FILE);
      var (s2, made) := MakeNode(s1, l.id, name, FS_FILE);
      if made.Ok? && made.value < INODES {
        CopyDataPages(s2, from, made.value);
        SamePagesLater(s2, CopyData(s2, from, made.value).0);
      }
    }
  }

  // ------------------------------------------------------------------ runs

  lemma StepLater(s: Fs, c: Call)
    ensures Later(s, Step(s, c).0)
  {
    hide FsGetAttrs, FsLookup, FsRead, FsWrite, MakeNode, FsReaddir, FsCopy, Later, SamePages;
    match c
    case AttrsOf(file) => AttrsPages(s, file); SamePagesLater(s, FsGetAttrs(s, file).0);
    case LookUp(path) => LookupLater(s, path);
    case ReadAt(file, offset, count) =>
      ReadPages(s, file, offset, count);
      SamePagesLater(s, FsRead(s, file, offset, count).0);
    case WriteAt(file, offset, buffer) =>
      WritePages(s, file, offset, buffer);
      SamePagesLater(s, FsWrite(s, file, offset, buffer).0);
    case CreateIn(dir, name) => MakeLater(s, dir, name, FS_FILE);
    case MkdirIn(dir, name) => MakeLater(s, dir, name, FS_DIR);
    case ListOf(dir, max) => ReaddirLater(s, dir, max);
    case CopyTo(src, tgt) => CopyLater(s, src, tgt);
  }

  lemma {:induction false} RunLater(s: Fs, calls: seq<Call>)
    ensures Later(s, Run(s, calls).0)
    decreases |calls|
  {
    hide Step, ExactLru.Ticking, Older;
    if calls != [] {
      StepLater(s, calls[0]);
      RunLater(Step(s, calls[0]).0, calls[1..]);
    }
  }

  /** In any run from the formatted disk under a strictly increasing clock every page was stamped before now. */
  lemma StampsAreOlder(n: nat, time: nat -> int, calls: seq<Call>)
    requires META_BLOCKS < n <= 8 * BLOCK_SIZE && ExactLru.Ticking(time)
    ensures Older(Run(Formatted(n, time), calls).0)
  {
    hide Formatted, Run;
    FormattedStore(n, time);
    RunLater(Formatted(n, time), calls);
  }
}
