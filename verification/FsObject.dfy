/**
 The file system object of snfs_server/fs.c: one mutable structure over a block device, with its two maps, its inode
 table and its three caches as arrays updated in place. State is what it stands for, and every method is proved to
 do to State and to answer what the corresponding function on states says.
 */
module FsObject {
  import opened Bytes
  import opened Bitmap
  import opened Slots
  import opened BlockStore
  import opened FsState
  import opened FsFiles
  import opened FsTree
  import opened FsInv
  import opened FsCalls
  import opened FsNamespace
  import opened FsMeta
  import opened FsDirs
  import opened FsCopying
  import opened FsStart
  import opened FsRuns
  import opened FsTurns
  import BlockDevice

  class FileSystem {
    const device: BlockDevice.Device
    const blkMap: array<byte>
    const inoMap: array<byte>
    const itab: array<Inode>
    const blockCache: array<Slot>
    const inodeCache: array<InodeSlot>
    const dirCache: array<DirSlot>
    /** What successive calls of time(NULL) return, and how many were made. */
    const time: nat -> int
    var ticks: nat

    ghost function Parts(): set<object> {
      {device.bytes as object, blkMap, inoMap, itab, blockCache, inodeCache, dirCache}
    }

    /** The arrays have the sizes of the C structure and do not overlap. */
    ghost predicate Shape() {
      && device.Valid() && device.blockSize == BLOCK_SIZE && META_BLOCKS < device.numBlocks <= 8 * BLOCK_SIZE
      && blkMap.Length == BLOCK_SIZE && inoMap.Length == BLOCK_SIZE && itab.Length == INODES
      && blockCache.Length == CACHE_SLOTS && inodeCache.Length == INODE_SLOTS && dirCache.Length == DIR_SLOTS
      && blkMap != inoMap && device.bytes != blkMap && device.bytes != inoMap
    }

    ghost function State(): Fs
      requires Shape()
      reads this`ticks, Parts()
    {
      FsImage(Store(device.Contents(), blockCache[..]), blkMap[..], inoMap[..], itab[..], inodeCache[..], dirCache[..],
            time, ticks)
    }

    /** The object is in a state some run of calls could have left. */
    ghost predicate Valid()
      reads this`ticks, Parts()
    {
      Shape() && exists g: Owners :: Inv(State(), g)
    }

    // ---------------------------------------------------------------- single assignments

    method Now() returns (now: int)
      requires Shape()
      modifies this`ticks
      ensures now == old(State()).Now() && State() == old(State()).(ticks := old(State()).ticks + 1)
    {
      now := time(ticks);
      ticks := ticks + 1;
    }

    method SetSlot(k: nat, c: Slot)
      requires Shape() && k < CACHE_SLOTS
      modifies blockCache
      ensures State() == old(State()).(store := old(State()).store.(slots := old(State()).store.slots[k := c]))
    {
      blockCache[k] := c;
    }

    method SetInodeSlot(k: nat, c: InodeSlot)
      requires Shape() && k < INODE_SLOTS
      modifies inodeCache
      ensures State() == old(State()).(icache := old(State()).icache[k := c])
    {
      inodeCache[k] := c;
    }

    method SetRow(n: InodeId, ino: Inode)
      requires Shape()
      modifies itab
      ensures State() == old(State()).(itab := old(State()).itab[n := ino])
    {
      itab[n] := ino;
    }

    method SetPage(k: nat, c: DirSlot)
      requires Shape() && k < DIR_SLOTS
      modifies dirCache
      ensures State() == old(State()).(dcache := old(State()).dcache[k := c])
    {
      dirCache[k] := c;
    }

    /** BMAP_SET on the map of blocks. */
    method MarkBlock(b: nat)
      requires Shape() && b < 8 * BLOCK_SIZE
      modifies blkMap
      ensures State() == old(State()).(blkMap := Set(old(State()).blkMap, b))
    {
      blkMap[b / 8] := OrBit(blkMap[b / 8], b % 8);
    }

    /** BMAP_SET on the map of inodes. */
    method MarkInode(n: nat)
      requires Shape() && n < 8 * BLOCK_SIZE
      modifies inoMap
      ensures State() == old(State()).(inoMap := Set(old(State()).inoMap, n))
    {
      inoMap[n / 8] := OrBit(inoMap[n / 8], n % 8);
    }

    /** block_read into a local buffer. */
    method ReadBlock(b: nat) returns (r: Option<Block>)
      requires Shape()
      ensures State() == old(State())
      ensures r == if b < State().NumBlocks() then Some(State().store.disk[b]) else None
    {
      var page := new byte[BLOCK_SIZE];
      var status := device.Read(b, page);
      if status != 0 {
        return None;
      }
      r := Some(page[..BLOCK_SIZE]);
    }

    method WriteBlock(b: nat, data: Block)
      requires Shape()
      modifies device.bytes
      ensures State() == old(State()).(store := old(State()).store.(disk := DiskWrite(old(State()).store.disk, b,
            data)))
    {
      var status := device.Write(b, data);
    }

    // ---------------------------------------------------------------- fs_new and fs_format

    /** fs_new over a device of n blocks. */
    constructor (n: nat, clock: nat -> int)
      requires META_BLOCKS < n <= 8 * BLOCK_SIZE
      ensures Shape() && fresh(Parts()) && State() == FsNew(n, clock)
    {
      hide LoadTable;
      var d := BlockDevice.Device.New(n, BLOCK_SIZE);
      device, time, ticks := d, clock, 0;
      blkMap := new byte[BLOCK_SIZE](_ => 0);
      inoMap := new byte[BLOCK_SIZE](_ => 0);
      itab := new Inode[INODES](_ => NewInode(0));
      blockCache := new Slot[CACHE_SLOTS](_ => Slot(0, Zeros(BLOCK_SIZE), false, 0));
      inodeCache := new InodeSlot[INODE_SLOTS](_ => InodeSlot(0, NewInode(0), false, 0));
      dirCache := new DirSlot[DIR_SLOTS](_ => DirSlot(0, 0, Zeros(BLOCK_SIZE), 0));
      new;
      assert State().store.disk == ZeroDisk(n);
      assert State().store.slots == EmptyCache();
      assert State().icache == FsNew(n, clock).icache;
      assert State().dcache == FsNew(n, clock).dcache;
      Load();
    }

    /** fsi_load_fsdata */
    method Load()
      requires Shape()
      modifies blkMap, inoMap, itab
      ensures var disk := old(State()).store.disk;
        State() == old(State()).(blkMap := disk[0], inoMap := disk[1], itab := LoadTable(disk))
    {
      ghost var disk := State().store.disk;
      LoadMaps();
      var i := 0;
      while i < TABLE_BLOCKS
        invariant i <= TABLE_BLOCKS
        invariant State() == old(State()).(blkMap := disk[0], inoMap := disk[1], itab := State().itab)
        invariant forall n :: 0 <= n < ROWS_PER_BLOCK * i ==> itab[n] == DecodeInode(ImageRow(disk, n))
      {
        LoadRows(i);
        i := i + 1;
      }
      assert State().itab == LoadTable(disk);
    }

    method LoadMaps()
      requires Shape()
      modifies blkMap, inoMap
      ensures var disk := old(State()).store.disk; State() == old(State()).(blkMap := disk[0], inoMap := disk[1])
    {
      var status := device.Read(0, blkMap);
      assert blkMap[..BLOCK_SIZE] == blkMap[..];
      status := device.Read(1, inoMap);
      assert inoMap[..BLOCK_SIZE] == inoMap[..];
    }

    /** Eight rows of the table from one block. */
    method LoadRows(i: nat)
      requires Shape() && i < TABLE_BLOCKS
      modifies itab
      ensures State() == old(State()).(itab := State().itab)
      ensures forall n :: 0 <= n < INODES ==>
        itab[n] == if n / ROWS_PER_BLOCK == i then DecodeInode(ImageRow(State().store.disk, n)) else old(itab[n])
    {
      hide DecodeInode, Set;
      var page := ReadBlock(i + 2);
      forall j | 0 <= j < ROWS_PER_BLOCK {
        itab[ROWS_PER_BLOCK * i + j] := DecodeInode(page.value[INODE_BYTES * j..INODE_BYTES * j + INODE_BYTES]);
      }
      forall n | 0 <= n < INODES && n / ROWS_PER_BLOCK == i
        ensures itab[n] == DecodeInode(ImageRow(State().store.disk, n))
      {
        assert n == ROWS_PER_BLOCK * i + n % ROWS_PER_BLOCK;
      }
    }

    /** fsi_store_fsdata */
    method StoreData()
      requires Shape()
      modifies device.bytes
      ensures State() == StoreMeta(old(State()))
    {
      hide StoreTable, TableBlock, EncodeRows, DiskWrite;
      ghost var s := State();
      WriteBlock(0, blkMap[..]);
      WriteBlock(1, inoMap[..]);
      ghost var disk := State().store.disk;
      assert disk == DiskWrite(DiskWrite(s.store.disk, 0, s.blkMap), 1, s.inoMap);
      var i := 0;
      while i < TABLE_BLOCKS
        invariant i <= TABLE_BLOCKS && State() == s.(store := s.store.(disk := State().store.disk))
        invariant StoreTable(State().store.disk, s.itab, i) == StoreTable(disk, s.itab, 0)
      {
        StoreTurn(State().store.disk, s.itab, i);
        var b := TableBytes(i);
        WriteBlock(i + 2, b);
        i := i + 1;
      }
      StoreEnd(State().store.disk, s.itab);
    }

    /** The i-th 512 bytes of the table in memory. */
    method TableBytes(i: nat) returns (b: Block)
      requires Shape() && i < TABLE_BLOCKS
      ensures b == TableBlock(State().itab, i)
    {
      hide EncodeInode;
      assert itab[ROWS_PER_BLOCK * i..ROWS_PER_BLOCK * (i + 1)]
          == State().itab[ROWS_PER_BLOCK * i..ROWS_PER_BLOCK * (i + 1)];
      b := EncodeRows(itab[ROWS_PER_BLOCK * i..ROWS_PER_BLOCK * (i + 1)]);
    }

    /** fs_format erases every block, reserves the metadata blocks and inodes 0 and 1, and stores the metadata. */
    method Format()
      requires Shape()
      modifies Parts()
      ensures State() == FsFormat(old(State()))
      ensures old(State()) == FsNew(device.numBlocks, time) ==> State() == Formatted(device.numBlocks, time) && Valid()
    {
      Erase();
      var i := 0;
      while i < META_BLOCKS
        invariant i <= META_BLOCKS
        invariant State() == old(State()).(store := old(State()).store.(disk := ZeroDisk(device.numBlocks)),
              blkMap := State().blkMap)
        invariant SetRange(State().blkMap, i, META_BLOCKS) == SetRange(old(State()).blkMap, 0, META_BLOCKS)
      {
        MarkBlock(i);
        i := i + 1;
      }
      ghost var s := State();
      MarkInode(0);
      MarkInode(1);
      assert State().inoMap == SetRange(s.inoMap, 0, 2) by { TwoBits(s.inoMap); }
      SetRow(ROOT, NewInode(FS_DIR));
      StoreData();
      if old(State()) == FsNew(device.numBlocks, time) {
        FormattedOk(device.numBlocks, time);
      }
    }

    method Erase()
      requires Shape()
      modifies device.bytes
      ensures State() == old(State()).(store := old(State()).store.(disk := ZeroDisk(device.numBlocks)))
    {
      var i := 0;
      while i < device.numBlocks
        invariant i <= device.numBlocks
              && State() == old(State()).(store := old(State()).store.(disk := State().store.disk))
        invariant forall b :: 0 <= b < i ==> State().store.disk[b] == Zeros(BLOCK_SIZE)
      {
        WriteBlock(i, Zeros(BLOCK_SIZE));
        i := i + 1;
      }
      assert State().store.disk == ZeroDisk(device.numBlocks);
    }

    // ---------------------------------------------------------------- the block cache

    method StampSlot(k: nat)
      requires Shape() && k < CACHE_SLOTS
      modifies this`ticks, blockCache
      ensures State() == old(State()).(store := Touch(old(State()).store, k, old(State()).Now()),
            ticks := old(State()).ticks + 1)
    {
      var now := Now();
      SetSlot(k, blockCache[k].(last := now));
    }

    /** find_block_in_cache, which stamps the slot it finds. */
    method FindBlock(b: nat) returns (k: nat)
      requires Shape()
      modifies this`ticks, blockCache
      ensures k == Slotted(old(State()).store, b)
      ensures State() == if k < CACHE_SLOTS
        then old(State()).(store := Touch(old(State()).store, k, old(State()).Now()), ticks := old(State()).ticks + 1)
        else old(State())
    {
      k := 0;
      while k < CACHE_SLOTS
        invariant k <= CACHE_SLOTS && State() == old(State())
        invariant Find(Nums(State().store.slots), b, 0) == Find(Nums(State().store.slots), b, k)
      {
        if blockCache[k].num == b {
          StampSlot(k);
          return;
        }
        k := k + 1;
      }
    }

    /** The slot with the oldest access; ties go to the lower one. */
    method OldestSlot() returns (lru: nat)
      requires Shape()
      ensures lru == Victim(Times(State().store.slots))
    {
      lru := 0;
      var i := 1;
      ghost var times := Times(State().store.slots);
      while i < CACHE_SLOTS
        invariant 1 <= i <= CACHE_SLOTS && Oldest(times, lru, i)
        invariant Scan(times, i, lru) == Victim(times)
      {
        if blockCache[i].last < blockCache[lru].last {
          lru := i;
        }
        i := i + 1;
      }
    }

    /** add_block_to_cache */
    method AddBlock(b: nat, data: Block, dirty: bool)
      requires Shape()
      modifies this`ticks, blockCache, device.bytes
      ensures State() == old(State()).(store := Add(old(State()).store, b, data, dirty, old(State()).Now()),
            ticks := old(State()).ticks + 1)
    {
      var lru := OldestSlot();
      if blockCache[lru].dirty {
        WriteBlock(blockCache[lru].num, blockCache[lru].data);
      }
      var now := Now();
      SetSlot(lru, Slot(b, data, dirty, now));
    }

    method CachedRead(b: nat, buffer: array<byte>) returns (status: int)
      requires Shape() && buffer.Length == BLOCK_SIZE && buffer !in Parts()
      modifies this`ticks, blockCache, device.bytes, buffer
      ensures var (st, data, ok) := BlockStore.CachedRead(old(State()).store, b, old(buffer[..]), old(State()).Now());
        && State() == old(State()).(store := st, ticks := old(State()).ticks + 1)
        && buffer[..] == data && status == if ok then 0 else -1
    {
      var k := FindBlock(b);
      if k < CACHE_SLOTS {
        CopyOut(blockCache[k].data, buffer);
        return 0;
      }
      status := device.Read(b, buffer);
      assert buffer[..BLOCK_SIZE] == buffer[..];
      AddBlock(b, buffer[..], false);
    }

    /** memcpy of one block to a buffer. */
    static method CopyOut(data: Block, buffer: array<byte>)
      requires buffer.Length == BLOCK_SIZE
      modifies buffer
      ensures buffer[..] == data
    {
      forall i | 0 <= i < BLOCK_SIZE {
        buffer[i] := data[i];
      }
    }

    method CachedWrite(b: nat, data: Block)
      requires Shape()
      modifies this`ticks, blockCache, device.bytes
      ensures var was := old(State());
        var hit := Slotted(was.store, b) < CACHE_SLOTS;
        State() == was.(store := BlockStore.CachedWrite(was.store, b, data,
              was.time(if hit then was.ticks + 1 else was.ticks)),
                        ticks := if hit then was.ticks + 2 else was.ticks + 1)
    {
      var k := FindBlock(b);
      if k < CACHE_SLOTS {
        SetSlot(k, blockCache[k].(data := data, dirty := true));
        var now := Now();
        SetSlot(k, blockCache[k].(last := now));
      } else {
        AddBlock(b, data, true);
      }
    }

    /** How fs_read and fs_copy get a block. */
    method Fetch(b: nat) returns (r: Option<Block>)
      requires Shape()
      modifies this`ticks, blockCache, device.bytes
      ensures (State(), r) == FetchBlock(old(State()), b)
    {
      hide Touch, Add;
      var k := FindBlock(b);
      if k < CACHE_SLOTS {
        TouchTwice(old(State()).store, k, old(State()).Now(), time(old(ticks) + 1));
        r := Some(blockCache[k].data);
        StampSlot(k);
      } else {
        r := ReadBlock(b);
        if r.Some? {
          AddBlock(b, r.value, false);
        }
      }
    }

    // ---------------------------------------------------------------- maps

    /** fsi_bmap_find_free */
    static method FirstFree(bmap: array<byte>, size: nat) returns (r: Option<nat>)
      requires size <= 8 * bmap.Length
      ensures r == FindFree(bmap[..], 0, size)
    {
      var i := 0;
      while i < size
        invariant i <= size && FindFree(bmap[..], 0, size) == FindFree(bmap[..], i, size)
      {
        if !BitOf(bmap[i / 8], i % 8) {
          return Some(i);
        }
        i := i + 1;
      }
      r := None;
    }

    // ---------------------------------------------------------------- the inode cache

    /** find_inode_in_cache */
    method FindInode(n: nat) returns (k: nat)
      requires Shape()
      ensures k == InodeSlotOf(State().icache, n)
    {
      k := 0;
      while k < INODE_SLOTS
        invariant k <= INODE_SLOTS && Find(InodeNums(State().icache), n, 0) == Find(InodeNums(State().icache), n, k)
      {
        if inodeCache[k].num == n {
          return;
        }
        k := k + 1;
      }
    }

    method OldestInode() returns (lru: nat)
      requires Shape()
      ensures lru == Victim(InodeTimes(State().icache))
    {
      lru := 0;
      var i := 1;
      ghost var times := InodeTimes(State().icache);
      while i < INODE_SLOTS
        invariant 1 <= i <= INODE_SLOTS && Oldest(times, lru, i)
        invariant Scan(times, i, lru) == Victim(times)
      {
        if inodeCache[i].last < inodeCache[lru].last {
          lru := i;
        }
        i := i + 1;
      }
    }

    method StampInode(k: nat)
      requires Shape() && k < INODE_SLOTS
      modifies this`ticks, inodeCache
      ensures State() == TouchInode(old(State()), k)
    {
      var now := Now();
      SetInodeSlot(k, inodeCache[k].(last := now));
    }

    /** add_inode_to_cache with the address of row n: the row is read after the write-back. */
    method CacheInode(n: InodeId, dirty: bool)
      requires Shape()
      modifies this`ticks, inodeCache, itab
      ensures State() == AddInode(old(State()), n, dirty)
    {
      var lru := OldestInode();
      if inodeCache[lru].dirty {
        SetRow(inodeCache[lru].num, inodeCache[lru].inode);
      }
      var now := Now();
      SetInodeSlot(lru, InodeSlot(n, itab[n], dirty, now));
    }

    /** What an fs_inode_t* points at. */
    function Deref(r: Ref): (ino: Inode)
      requires Shape() && ValidRef(r)
      reads this`ticks, Parts()
      ensures ino == FsState.Load(State(), r)
    {
      if r.InSlot? then inodeCache[r.k].inode else itab[r.n]
    }

    method Assign(r: Ref, ino: Inode)
      requires Shape() && ValidRef(r)
      modifies inodeCache, itab
      ensures State() == Save(old(State()), r, ino)
    {
      if r.InSlot? {
        SetInodeSlot(r.k, inodeCache[r.k].(inode := ino));
      } else {
        SetRow(r.n, ino);
      }
    }

    method Dirty(r: Ref)
      requires Shape() && ValidRef(r)
      modifies inodeCache
      ensures State() == MarkDirty(old(State()), r)
    {
      if r.InSlot? {
        SetInodeSlot(r.k, inodeCache[r.k].(dirty := true));
      }
    }

    method GetInode(n: InodeId) returns (ref: Option<Ref>)
      requires Shape()
      modifies this`ticks, inodeCache, itab
      ensures (State(), ref) == Acquire(old(State()), n)
    {
      hide AddInode;
      var k := FindInode(n);
      if k < INODE_SLOTS {
        StampInode(k);
        ref := Some(InSlot(k));
      } else if !IsSet(inoMap[..], n) {
        ref := None;
      } else {
        CacheInode(n, false);
        ref := Some(InRow(n));
      }
    }

    /** fs_get_attrs; Abort is the exit for an inode that is neither file nor directory. */
    method GetAttrs(file: nat) returns (r: Res<Attrs>)
      requires Shape()
      modifies this`ticks, inodeCache, itab
      ensures (State(), r) == FsGetAttrs(old(State()), file)
      ensures old(Valid()) ==> Valid()
    {
      hide Inv, FsGetAttrs, Quiet;
      ghost var s := State();
      r := AttrsAny(file);
      if g: Owners :| Inv(s, g) {
        GetAttrsOk(s, file, g);
        QuietInvariant(s, State(), g);
      }
    }

    method AttrsAny(file: nat) returns (r: Res<Attrs>)
      requires Shape()
      modifies this`ticks, inodeCache, itab
      ensures (State(), r) == FsGetAttrs(old(State()), file)
    {
      hide Acquire;
      if file >= INODES {
        return Err;
      }
      var ref := GetInode(file);
      if ref.None? {
        return Err;
      }
      var ino := Deref(ref.value);
      if ino.itype == FS_DIR {
        r := Ok(FsState.Attrs(file, ino.itype, ino.size, ino.size / 16));
      } else if ino.itype == FS_FILE {
        r := Ok(FsState.Attrs(file, ino.itype, ino.size, -1));
      } else {
        r := Abort;
      }
    }

    // ---------------------------------------------------------------- fs_read

    /** memcpy of part of a block behind what is already in the buffer. */
    static method CopyRange(data: Block, start: nat, num: nat, buffer: array<byte>, pos: nat)
      requires start + num <= BLOCK_SIZE && pos + num <= buffer.Length
      modifies buffer
      ensures buffer[..pos + num] == old(buffer[..pos]) + data[start..start + num]
      ensures buffer[pos + num..] == old(buffer[pos + num..])
    {
      forall i | 0 <= i < num {
        buffer[pos + i] := data[start + i];
      }
    }

    /** The loop of fs_read. */
    method ReadBlocks(ref: Ref, offset: nat, max: nat, buffer: array<byte>) returns (r: Res<nat>)
      requires Shape() && ValidRef(ref) && max <= buffer.Length && buffer !in Parts()
      modifies this`ticks, blockCache, device.bytes, buffer
      ensures var (s, want) := ReadLoop(old(State()), old(Deref(ref)), offset, max, offset / BLOCK_SIZE, []);
        State() == s && Filled(r, want, buffer[..], old(buffer[..]))
    {
      hide ReadLoop, FetchBlock, BlocksFor, Filled;
      ghost var ino := Deref(ref);
      ghost var want := ReadLoop(State(), ino, offset, max, offset / BLOCK_SIZE, []);
      ghost var was := buffer[..];
      var pos: nat := 0;
      var iblock: nat := offset / BLOCK_SIZE;
      var used := BlocksFor(Deref(ref).size);
      while pos < max && iblock < used
        invariant pos <= max && Deref(ref) == ino && buffer[pos..] == was[pos..]
        invariant ReadLoop(State(), ino, offset, max, iblock, buffer[..pos]) == want
        decreases used - iblock
      {
        ReadLoopTurn(State(), ino, offset, max, iblock, buffer[..pos]);
        if iblock >= INODE_BLOCKS {
          NotFilled(buffer[..], was);
          return Err;
        }
        FetchTables(State(), ino.blocks[iblock]);
        var data := Fetch(Deref(ref).blocks[iblock]);
        if data.None? {
          NotFilled(buffer[..], was);
          return Err;
        }
        var start := if pos == 0 then offset % BLOCK_SIZE else 0;
        var num := Min(BLOCK_SIZE - start, max - pos);
        CopyRange(data.value, start, num, buffer, pos);
        pos := pos + num;
        iblock := iblock + 1;
      }
      ReadLoopEnd(State(), ino, offset, max, iblock, buffer[..pos]);
      FilledTo(buffer[..], was, pos);
      r := Ok(pos);
    }

    /** fs_read into the caller's buffer; the result is how many bytes were delivered. */
    method Read(file: nat, offset: nat, count: nat, buffer: array<byte>) returns (r: Res<nat>)
      requires Shape() && count <= buffer.Length && buffer !in Parts()
      modifies this`ticks, Parts(), buffer
      ensures var (s, want) := FsRead(old(State()), file, offset, count);
        State() == s && Filled(r, want, buffer[..], old(buffer[..]))
      ensures old(Valid()) ==> Valid()
    {
      hide Inv, FsRead, Quiet, Filled, Files;
      ghost var s := State();
      r := ReadAny(file, offset, count, buffer);
      if g: Owners :| Inv(s, g) {
        ReadOk(s, file, offset, count, g);
        QuietInvariant(s, State(), g);
      }
    }

    method ReadAny(file: nat, offset: nat, count: nat, buffer: array<byte>) returns (r: Res<nat>)
      requires Shape() && count <= buffer.Length && buffer !in Parts()
      modifies this`ticks, Parts(), buffer
      ensures var (s, want) := FsRead(old(State()), file, offset, count);
        State() == s && Filled(r, want, buffer[..], old(buffer[..]))
    {
      hide ReadLoop, Acquire;
      if file >= INODES {
        return Err;
      }
      var ref := GetInode(file);
      if ref.None? {
        return Err;
      }
      var ino := Deref(ref.value);
      if ino.itype != FS_FILE {
        return Err;
      }
      if offset >= ino.size {
        assert buffer[..] == [] + old(buffer[..]);
        return Ok(0);
      }
      r := ReadBlocks(ref.value, offset, Min(count, ino.size - offset), buffer);
    }

    // ---------------------------------------------------------------- fs_write

    /** The allocation loop of fs_write and the mark it sets at the end. */
    method Allocate(ref: Ref, used: nat, req: nat) returns (ok: bool)
      requires Shape() && ValidRef(ref) && (req == 0 || used + req <= INODE_BLOCKS)
      modifies this`ticks, Parts()
      ensures (State(), ok) == Reserve(old(State()), ref, used, req)
    {
      hide AllocOne, FindFree, AllocLoop;
      if req == 0 {
        return true;
      }
      var i := used;
      while i < used + req
        invariant used <= i <= used + req
        invariant AllocLoop(State(), ref, i, used + req) == AllocLoop(old(State()), ref, used, used + req)
      {
        AllocLoopTurn(State(), ref, i, used + req);
        var b := FirstFree(blkMap, device.numBlocks);
        if b.None? {
          return false;
        }
        TakeOne(ref, i, b.value);
        i := i + 1;
      }
      AllocLoopEnd(State(), ref, used + req);
      Dirty(ref);
      ok := true;
    }

    method TakeOne(ref: Ref, i: nat, b: nat)
      requires Shape() && ValidRef(ref) && i < INODE_BLOCKS && b < device.numBlocks
      modifies this`ticks, Parts()
      ensures State() == AllocOne(old(State()), ref, i, b)
    {
      hide Set, Add;
      MarkBlock(b);
      var ino := Deref(ref);
      Assign(ref, ino.(blocks := ino.blocks[i := b]));
      AddBlock(b, Zeros(BLOCK_SIZE), true);
    }

    /** How fs_write replaces the bytes of one block. */
    method Update(b: nat, start: nat, chunk: seq<byte>) returns (ok: bool)
      requires Shape() && start + |chunk| <= BLOCK_SIZE
      modifies this`ticks, blockCache, device.bytes
      ensures (State(), ok) == UpdateBlock(old(State()), b, start, chunk)
    {
      hide Overlay, Add;
      var k := FindBlock(b);
      if k < CACHE_SLOTS {
        var data := Overlay(blockCache[k].data, start, chunk);
        SetSlot(k, blockCache[k].(data := data, dirty := true));
        StampSlot(k);
        PutIsStamped(old(State()).store, k, data, old(State()).Now(), time(old(ticks) + 1));
        ok := true;
      } else {
        var data := ReadBlock(b);
        if data.None? {
          return false;
        }
        AddBlock(b, Overlay(data.value, start, chunk), true);
        ok := true;
      }
    }

    /** The write loop of fs_write; it must not run past the inode's ten places. */
    method WriteBytes(ref: Ref, offset: nat, data: seq<byte>) returns (r: Res<()>)
      requires Shape() && ValidRef(ref)
      requires WriteLoop(State(), Deref(ref), offset, data, 0, offset / BLOCK_SIZE).1 != Abort
      modifies this`ticks, blockCache, device.bytes
      ensures (State(), r) == WriteLoop(old(State()), old(Deref(ref)), offset, data, 0, offset / BLOCK_SIZE)
    {
      hide WriteLoop, UpdateBlock;
      ghost var ino := Deref(ref);
      var num: nat := 0;
      var iblock: nat := offset / BLOCK_SIZE;
      while num < |data|
        invariant num <= |data| && Deref(ref) == ino
        invariant WriteLoop(State(), ino, offset, data, num, iblock)
              == WriteLoop(old(State()), ino, offset, data, 0, offset / BLOCK_SIZE)
      {
        WriteLoopTurn(State(), ino, offset, data, num, iblock);
        var start := if num == 0 then offset % BLOCK_SIZE else 0;
        var toWrite := Min(BLOCK_SIZE - start, |data| - num);
        UpdateTables(State(), ino.blocks[iblock], start, data[num..num + toWrite]);
        var ok := Update(Deref(ref).blocks[iblock], start, data[num..num + toWrite]);
        if !ok {
          return Err;
        }
        num := num + toWrite;
        iblock := iblock + 1;
      }
      WriteLoopEnd(State(), ino, offset, data, iblock);
      r := Ok(());
    }

    /** The size step of fs_write. */
    method Lengthen(file: InodeId, ref: Ref, size: nat)
      requires Shape() && ValidRef(ref)
      modifies this`ticks, inodeCache, itab
      ensures State() == Grow(old(State()), file, ref, size)
    {
      hide AddInode;
      var ino := Deref(ref);
      Assign(ref, ino.(size := size));
      Dirty(ref);
      if ref.InRow? {
        CacheInode(file, true);
      }
    }

    /** fs_write once the inode has been found. */
    method WriteFound(file: InodeId, ref: Ref, offset: nat, data: seq<byte>) returns (r: Res<()>)
      requires Shape() && ValidRef(ref) && WriteThrough(State(), file, ref, offset, data).1 != Abort
      modifies this`ticks, Parts()
      ensures (State(), r) == WriteThrough(old(State()), file, ref, offset, data)
    {
      hide Reserve, WriteLoop, Grow, BlocksFor, BlocksNeeded;
      var size := Deref(ref).size;
      var req := BlocksNeeded(size, offset, |data|);
      if req > 0 && req + BlocksFor(size) > INODE_BLOCKS {
        return Err;
      }
      var ok := Allocate(ref, BlocksFor(size), req);
      if !ok {
        return Err;
      }
      r := WriteBytes(ref, offset, data);
      if !r.Ok? {
        return;
      }
      if offset + |data| > size {
        Lengthen(file, ref, offset + |data|);
      }
      r := Ok(());
    }

    /** fs_write of the first count bytes of the caller's buffer. */
    method Write(file: nat, offset: nat, buffer: array<byte>, count: nat) returns (r: Res<()>)
      requires Valid() && count <= buffer.Length && buffer !in Parts()
      modifies this`ticks, Parts()
      ensures Valid() && (State(), r) == FsWrite(old(State()), file, offset, buffer[..count])
    {
      hide Inv, FsWrite, FsGetAttrs;
      ghost var g: Owners :| Inv(State(), g);
      ghost var g' := StepOk(State(), WriteAt(file, offset, buffer[..count]), g);
      r := WriteAny(file, offset, buffer[..count]);
    }

    method WriteAny(file: nat, offset: nat, data: seq<byte>) returns (r: Res<()>)
      requires Shape() && FsWrite(State(), file, offset, data).1 != Abort
      modifies this`ticks, Parts()
      ensures (State(), r) == FsWrite(old(State()), file, offset, data)
    {
      hide WriteThrough, Acquire;
      if file >= INODES {
        return Err;
      }
      var ref := GetInode(file);
      if ref.None? {
        return Err;
      }
      var ino := Deref(ref.value);
      if ino.itype != FS_FILE {
        return Err;
      }
      r := WriteFound(file, ref.value, Min(offset, ino.size), data);
    }

    // ---------------------------------------------------------------- the page cache

    method FindPageOfDir(d: nat) returns (k: nat)
      requires Shape()
      ensures k == PageSlotOfDir(State().dcache, d)
    {
      k := 0;
      while k < DIR_SLOTS
        invariant k <= DIR_SLOTS && Find(PageDirs(State().dcache), d, 0) == Find(PageDirs(State().dcache), d, k)
      {
        if dirCache[k].dir == d {
          return;
        }
        k := k + 1;
      }
    }

    method FindPage(d: nat, b: nat) returns (k: nat)
      requires Shape()
      ensures k == PageSlotOf(State().dcache, d, b)
    {
      k := 0;
      while k < DIR_SLOTS
        invariant k <= DIR_SLOTS && Find(PageKeys(State().dcache), (d, b), 0)
              == Find(PageKeys(State().dcache), (d, b), k)
      {
        assert PageKeys(State().dcache)[k] == (dirCache[k].dir, dirCache[k].num);
        if dirCache[k].dir == d && dirCache[k].num == b {
          return;
        }
        k := k + 1;
      }
    }

    method OldestPage() returns (lru: nat)
      requires Shape()
      ensures lru == Victim(PageTimes(State().dcache))
    {
      lru := 0;
      var i := 1;
      ghost var times := PageTimes(State().dcache);
      while i < DIR_SLOTS
        invariant 1 <= i <= DIR_SLOTS && Oldest(times, lru, i)
        invariant Scan(times, i, lru) == Victim(times)
      {
        if dirCache[i].last < dirCache[lru].last {
          lru := i;
        }
        i := i + 1;
      }
    }

    method StampPage(k: nat)
      requires Shape() && k < DIR_SLOTS
      modifies this`ticks, dirCache
      ensures State() == TouchPage(old(State()), k)
    {
      var now := Now();
      SetPage(k, dirCache[k].(last := now));
    }

    /** One page of a directory, from the cache or else from the disk into the cache. */
    method GetPage(d: nat, b: nat) returns (page: Option<Block>)
      requires Shape()
      modifies this`ticks, dirCache
      ensures (State(), page) == FetchPage(old(State()), d, b)
    {
      var k := FindPage(d, b);
      if k < DIR_SLOTS {
        page := Some(dirCache[k].page);
        StampPage(k);
      } else {
        page := ReadBlock(b);
        if page.Some? {
          var lru := OldestPage();
          var now := Now();
          SetPage(lru, DirSlot(d, b, page.value, now));
        }
      }
    }

    // ---------------------------------------------------------------- fsi_dir_search

    /** The comparison loop over the first n entries of a page. */
    static method FindName(page: Block, name: seq<byte>, n: nat) returns (r: Option<nat>)
      requires n <= PAGE_ENTRIES
      ensures r == ScanPage(page, name, 0, n)
    {
      hide EntryName, PageEntry;
      var j := 0;
      while j < n
        invariant j <= n && ScanPage(page, name, 0, n) == ScanPage(page, name, j, n)
      {
        if EntryName(PageEntry(page, j)) == name {
          return Some(j);
        }
        j := j + 1;
      }
      r := None;
    }

    /** The entry is noted in the first nameless place of a cached page. */
    method NoteEntry(k: nat, e: seq<byte>)
      requires Shape() && k < DIR_SLOTS && |e| == ENTRY_SIZE
      modifies dirCache
      ensures var was := old(State());
        State() == was.(dcache := was.dcache[k := was.dcache[k].(page := FillFirstGap(was.dcache[k].page, 0, e))])
    {
      hide EntryName, PageEntry, PutEntry;
      ghost var page := dirCache[k].page;
      var j := 0;
      while j < PAGE_ENTRIES
        invariant j <= PAGE_ENTRIES && State() == old(State()) && FillFirstGap(page, 0, e) == FillFirstGap(page, j, e)
      {
        if EntryName(PageEntry(dirCache[k].page, j)) == [] {
          SetPage(k, dirCache[k].(page := PutEntry(dirCache[k].page, j, e)));
          return;
        }
        j := j + 1;
      }
      assert State().dcache == old(State()).dcache[k := old(State()).dcache[k]];
    }

    /** The block loop of fsi_dir_search. */
    method SearchPages(dir: InodeId, name: seq<byte>, part: Option<nat>) returns (r: Res<nat>)
      requires Shape() && (part.Some? ==> part.value < DIR_SLOTS)
      requires SearchBlocks(State(), dir, name, part, 0, Count(itab[dir])).1 != Abort
      modifies this`ticks, dirCache
      ensures (State(), r) == SearchBlocks(old(State()), dir, name, part, 0, old(Count(itab[dir])))
    {
      hide SearchBlocks, FetchPage, ScanPage, FillFirstGap, EntryInode, PageEntry;
      var num: nat := Count(itab[dir]);
      var iblock: nat := 0;
      while num > 0
        invariant State().itab == old(State()).itab
        invariant SearchBlocks(State(), dir, name, part, iblock, num)
              == SearchBlocks(old(State()), dir, name, part, 0, old(Count(itab[dir])))
      {
        SearchTurn(State(), dir, name, part, iblock, num);
        PageTables(State(), dir, itab[dir].blocks[iblock]);
        var page := GetPage(dir, itab[dir].blocks[iblock]);
        if page.None? {
          return Err;
        }
        var j := FindName(page.value, name, Min(PAGE_ENTRIES, num));
        if j.Some? {
          var e := PageEntry(page.value, j.value);
          if part.Some? {
            NoteEntry(part.value, e);
          }
          return Ok(EntryInode(e));
        }
        num := num - Min(PAGE_ENTRIES, num);
        iblock := iblock + 1;
      }
      SearchEnd(State(), dir, name, part, iblock);
      r := Err;
    }

    method Search(dir: InodeId, name: seq<byte>) returns (r: Res<nat>)
      requires Shape() && DirSearch(State(), dir, name).1 != Abort
      modifies this`ticks, dirCache
      ensures (State(), r) == DirSearch(old(State()), dir, name)
    {
      hide SearchBlocks, ScanPage, EntryInode, PageEntry, PageSlotOfDir;
      var k := FindPageOfDir(dir);
      if k < DIR_SLOTS {
        var page := dirCache[k].page;
        StampPage(k);
        var j := FindName(page, name, PAGE_ENTRIES);
        if j.Some? {
          return Ok(EntryInode(PageEntry(page, j.value)));
        }
        r := SearchPages(dir, name, Some(k));
      } else {
        r := SearchPages(dir, name, None);
      }
    }

    // ---------------------------------------------------------------- fs_lookup

    /** The token loop of fs_lookup. */
    method Walk(tokens: seq<seq<byte>>) returns (r: Lookup)
      requires Shape() && !LookupFrom(State(), ROOT, tokens).1.Fault?
      modifies this`ticks, dirCache
      ensures (State(), r) == LookupFrom(old(State()), ROOT, tokens)
    {
      hide LookupFrom, DirSearch;
      var dir: nat := ROOT;
      var i := 0;
      assert tokens[0..] == tokens;
      while i < |tokens|
        invariant i <= |tokens| && LookupFrom(State(), dir, tokens[i..]) == LookupFrom(old(State()), ROOT, tokens)
      {
        LookupTurn(State(), dir, tokens[i..]);
        if !IsSet(inoMap[..], dir) {
          return Refused;
        }
        if itab[dir].itype != FS_DIR {
          return Refused;
        }
        var found := Search(dir, tokens[i]);
        if !found.Ok? {
          return Missing;
        }
        assert tokens[i..][1..] == tokens[i + 1..];
        dir := found.value;
        i := i + 1;
      }
      LookupEnd(State(), dir, tokens[i..]);
      r := Found(dir);
    }

    method LookupAny(path: seq<byte>) returns (r: Lookup)
      requires Shape() && !FsLookup(State(), path).1.Fault?
      modifies this`ticks, dirCache
      ensures (State(), r) == FsLookup(old(State()), path)
    {
      hide LookupFrom, Tokens;
      if path == [] || path[0] != SLASH {
        return Refused;
      }
      var tokens := Tokens(path);
      if tokens == [] {
        return RootOnly;
      }
      r := Walk(tokens);
    }

    method Lookup(path: seq<byte>) returns (r: FsDirs.Lookup)
      requires Valid()
      modifies this`ticks, Parts()
      ensures Valid() && (State(), r) == FsLookup(old(State()), path)
    {
      hide Inv, FsLookup, FsGetAttrs;
      ghost var g: Owners :| Inv(State(), g);
      ghost var g' := StepOk(State(), LookUp(path), g);
      r := LookupAny(path);
    }

    // ---------------------------------------------------------------- fs_create and fs_mkdir

    method Room(dir: InodeId) returns (r: Res<()>)
      requires Shape() && RoomForEntry(State(), dir).1 != Abort
      modifies blkMap, itab
      ensures (State(), r) == RoomForEntry(old(State()), dir)
    {
      hide FindFree, Set;
      if itab[dir].size % BLOCK_SIZE == 0 {
        var b := FirstFree(blkMap, device.numBlocks);
        if b.None? {
          return Err;
        }
        var d := itab[dir];
        MarkBlock(b.value);
        SetRow(dir, d.(blocks := d.blocks[d.size / BLOCK_SIZE := b.value]));
      }
      r := Ok(());
    }

    /** The page of the new entry is read, changed and written back to the disk. */
    method Append(dir: InodeId, name: seq<byte>, n: nat)
      requires Shape() && |name| < NAME_SIZE && AppendEntry(State(), dir, name, n).1
      modifies device.bytes, itab
      ensures State() == AppendEntry(old(State()), dir, name, n).0
    {
      hide PutEntry, NewEntry;
      var d := itab[dir];
      var b := d.blocks[d.size / BLOCK_SIZE];
      var page := ReadBlock(b);
      var j := d.size % BLOCK_SIZE / ENTRY_SIZE;
      WriteBlock(b, PutEntry(page.value, j, NewEntry(PageEntry(page.value, j), name, n)));
      SetRow(dir, d.(size := d.size + ENTRY_SIZE));
    }

    /** The new inode's row, both bits and the metadata on the disk. */
    method Commit(n: InodeId, itype: nat)
      requires Shape()
      modifies device.bytes, itab, inoMap
      ensures var s := old(State());
        State() == StoreMeta(s.(inoMap := Set(s.inoMap, n), itab := s.itab[n := NewInode(itype)]))
    {
      hide Set, StoreMeta;
      MarkInode(n);
      SetRow(n, NewInode(itype));
      StoreData();
    }

    method Make(dir: nat, name: seq<byte>, itype: nat) returns (r: Res<nat>)
      requires Shape() && MakeNode(State(), dir, name, itype).1 != Abort
      modifies this`ticks, Parts()
      ensures (State(), r) == MakeNode(old(State()), dir, name, itype)
    {
      hide DirSearch, RoomForEntry, AppendEntry, FindFree, StoreMeta, Set, IsSet;
      if dir >= INODES || name == [] || |name| + 1 > NAME_SIZE {
        return Err;
      }
      if !IsSet(inoMap[..], dir) || itab[dir].itype != FS_DIR {
        return Err;
      }
      var found := Search(dir, name);
      if found.Ok? {
        return Err;
      }
      var n := FirstFree(inoMap, INODES);
      if n.None? {
        return Err;
      }
      var room := Room(dir);
      if !room.Ok? {
        return Err;
      }
      Append(dir, name, n.value);
      Commit(n.value, itype);
      r := Ok(n.value);
    }

    method Create(dir: nat, name: seq<byte>) returns (r: Res<nat>)
      requires Valid() && IsCString(name)
      modifies this`ticks, Parts()
      ensures Valid() && (State(), r) == FsCreate(old(State()), dir, name)
    {
      hide Inv, MakeNode, FsGetAttrs;
      ghost var g: Owners :| Inv(State(), g);
      ghost var g' := StepOk(State(), CreateIn(dir, name), g);
      r := Make(dir, name, FS_FILE);
    }

    method Mkdir(dir: nat, name: seq<byte>) returns (r: Res<nat>)
      requires Valid() && IsCString(name)
      modifies this`ticks, Parts()
      ensures Valid() && (State(), r) == FsMkdir(old(State()), dir, name)
    {
      hide Inv, MakeNode, FsGetAttrs;
      ghost var g: Owners :| Inv(State(), g);
      ghost var g' := StepOk(State(), MkdirIn(dir, name), g);
      r := Make(dir, name, FS_DIR);
    }

    // ---------------------------------------------------------------- fs_readdir

    /** The type of one listed inode. */
    method TypeOf(n: nat) returns (t: int)
      requires Shape()
      modifies this`ticks, inodeCache
      ensures (State(), t) == ListedType(old(State()), n)
    {
      hide IsSet, InodeSlotOf;
      var k := FindInode(n);
      if k < INODE_SLOTS {
        t := inodeCache[k].inode.itype;
        StampInode(k);
      } else if n < INODES && IsSet(inoMap[..], n) {
        t := itab[n].itype;
      } else {
        t := UNKNOWN_TYPE;
      }
    }

    /** The inner loop of fs_readdir: the first n entries of a page behind the ones already listed. */
    method ListEntries(page: Block, n: nat, entries: array<Listed>, from: nat, to: nat)
      requires Shape() && n <= PAGE_ENTRIES && from + n <= to <= entries.Length && entries !in Parts()
      modifies this`ticks, inodeCache, entries
      ensures var (s, lines) := ListPage(old(State()), page, 0, n, old(entries[..from]));
        State() == s && entries[..from + n] == lines
      ensures entries[to..] == old(entries[to..])
    {
      hide ListPage, ListedType, EntryName, EntryInode, PageEntry;
      ghost var s0 := State();
      ghost var acc := entries[..from];
      var j := 0;
      while j < n
        invariant j <= n
        invariant ListPage(State(), page, j, n, entries[..from + j]) == ListPage(s0, page, 0, n, acc)
        invariant entries[to..] == old(entries[to..])
      {
        ListPageTurn(State(), page, j, n, entries[..from + j]);
        var e := PageEntry(page, j);
        var t := TypeOf(EntryInode(e));
        ghost var so := entries[..from + j];
        entries[from + j] := Listed(EntryName(e), t);
        assert entries[..from + j + 1] == so + [Listed(EntryName(e), t)];
        j := j + 1;
      }
      ListPageEnd(State(), page, n, entries[..from + n]);
    }

    /** The block loop of fs_readdir over the copy of the directory's inode it works from. */
    method ListPages(dir: InodeId, ino: Inode, count: nat, entries: array<Listed>) returns (r: Res<nat>)
      requires Shape() && count <= entries.Length && entries !in Parts()
      requires ListBlocks(State(), dir, ino, 0, count, []).1 != Abort
      modifies this`ticks, inodeCache, dirCache, entries
      ensures var (s, want) := ListBlocks(old(State()), dir, ino, 0, count, []);
        State() == s && Filled(r, want, entries[..], old(entries[..]))
    {
      hide ListBlocks, FetchPage, ListPage, Filled, DirPrefix;
      ghost var was := entries[..];
      var num: nat := count;
      var iblock: nat := 0;
      var ientry: nat := 0;
      while num > 0
        invariant ientry + num == count && entries[count..] == was[count..]
        invariant ListBlocks(State(), dir, ino, iblock, num, entries[..ientry])
              == ListBlocks(old(State()), dir, ino, 0, count, [])
      {
        ListBlocksTurn(State(), dir, ino, iblock, num, entries[..ientry]);
        var page := GetPage(dir, ino.blocks[iblock]);
        if page.None? {
          NotFilled(entries[..], was);
          return Err;
        }
        var n := Min(PAGE_ENTRIES, num);
        ListEntries(page.value, n, entries, ientry, count);
        ientry, num, iblock := ientry + n, num - n, iblock + 1;
      }
      ListBlocksEnd(State(), dir, ino, iblock, entries[..ientry]);
      FilledTo(entries[..], was, count);
      r := Ok(count);
    }

    method ListAny(dir: nat, entries: array<Listed>, max: int) returns (r: Res<nat>)
      requires Shape() && entries !in Parts() && FsReaddir(State(), dir, max).1 != Abort
      requires dir < INODES ==> EntriesFit(State(), dir, entries.Length)
      modifies this`ticks, inodeCache, itab, dirCache, entries
      ensures var (s, want) := FsReaddir(old(State()), dir, max);
        State() == s && Filled(r, want, entries[..], old(entries[..]))
    {
      hide ListBlocks, Acquire;
      if dir >= INODES || max < 0 {
        return Err;
      }
      var ref := GetInode(dir);
      if ref.None? {
        return Err;
      }
      var ino := Deref(ref.value);
      if ino.itype != FS_DIR {
        return Err;
      }
      r := ListPages(dir, ino, Min(Count(ino), max), entries);
    }

    /** fs_readdir into the 64 lines the server has for it, whatever the client's limit. */
    method Readdir(dir: nat, entries: array<Listed>, max: int) returns (r: Res<nat>)
      requires Valid() && entries !in Parts() && entries.Length == MAX_READDIR_ENTRIES
      modifies this`ticks, Parts(), entries
      ensures Valid()
      ensures var (s, want) := FsReaddir(old(State()), dir, max);
        State() == s && Filled(r, want, entries[..], old(entries[..]))
    {
      hide Inv, FsReaddir, Quiet, EntriesFit, LinesSound, Filled;
      ghost var s := State();
      ghost var g: Owners :| Inv(s, g);
      ReaddirOk(s, dir, max, g);
      if dir < INODES {
        ReplyFits(s, dir, g);
        Wider(s, dir);
      }
      r := ListAny(dir, entries, max);
      QuietInvariant(s, State(), g);
    }

    // ---------------------------------------------------------------- fs_copy

    /** How fs_copy finds an inode. */
    method HoldInode(n: InodeId, dirty: bool) returns (ref: Ref)
      requires Shape()
      modifies this`ticks, inodeCache, itab
      ensures (State(), ref) == Hold(old(State()), n, dirty) && ValidRef(ref)
    {
      hide AddInode, InodeSlotOf;
      var k := FindInode(n);
      if k < INODE_SLOTS {
        StampInode(k);
        ref := InSlot(k);
      } else {
        CacheInode(n, dirty);
        ref := InRow(n);
      }
    }

    /** One turn of the copy loop. */
    method CopyBlock(src: Ref, dst: Ref, i: nat, b: nat) returns (ok: bool)
      requires Shape() && ValidRef(src) && ValidRef(dst) && i < INODE_BLOCKS && b < device.numBlocks
      modifies this`ticks, Parts()
      ensures (State(), ok) == CopyOne(old(State()), src, dst, i, b)
    {
      hide Set, FetchBlock, Add;
      var from := Deref(src).blocks[i];
      MarkBlock(b);
      var ino := Deref(dst);
      Assign(dst, ino.(blocks := ino.blocks[i := b]));
      var data := Fetch(from);
      if data.None? {
        return false;
      }
      AddBlock(b, data.value, true);
      ok := true;
    }

    method CopyBlocks(src: Ref, dst: Ref, used: nat) returns (r: Res<()>)
      requires Shape() && ValidRef(src) && ValidRef(dst) && CopyLoop(State(), src, dst, 0, used).1 != Abort
      modifies this`ticks, Parts()
      ensures (State(), r) == CopyLoop(old(State()), src, dst, 0, used)
    {
      hide CopyLoop, CopyOne, FindFree;
      var i := 0;
      while i < used
        invariant i <= used && CopyLoop(State(), src, dst, i, used) == CopyLoop(old(State()), src, dst, 0, used)
      {
        CopyLoopTurn(State(), src, dst, i, used);
        var b := FirstFree(blkMap, device.numBlocks);
        if b.None? {
          return Err;
        }
        var ok := CopyBlock(src, dst, i, b.value);
        if !ok {
          return Err;
        }
        i := i + 1;
      }
      CopyLoopEnd(State(), src, dst, used);
      r := Ok(());
    }

    /** The data half of fs_copy. */
    method CopyContent(from: InodeId, to: InodeId) returns (r: Res<()>)
      requires Shape() && CopyData(State(), from, to).1 != Abort
      modifies this`ticks, Parts()
      ensures (State(), r) == CopyData(old(State()), from, to)
    {
      hide Hold, CopyLoop, StoreMeta;
      var src := HoldInode(from, false);
      var dst := HoldInode(to, true);
      r := CopyBlocks(src, dst, BlocksFor(Deref(src).size));
      if !r.Ok? {
        return;
      }
      var size := Deref(src).size;
      var ino := Deref(dst);
      Assign(dst, ino.(size := size, itype := FS_FILE));
      if dst.InSlot? && inodeCache[dst.k].dirty {
        StoreData();
      }
      r := Ok(());
    }

    method CopyAny(src: seq<byte>, tgt: seq<byte>) returns (r: Res<()>)
      requires Shape() && !FsLookup(State(), src).1.Fault?
      requires FsCopy(State(), src, tgt).1 == Abort ==> CopyFaults(State(), src, tgt)
      modifies this`ticks, Parts()
      ensures (State(), r) == FsCopy(old(State()), src, tgt)
    {
      hide FsLookup, FsGetAttrs, MakeNode, CopyData, LastSlash, OnlySlashes;
      RootOnlyIff(State(), src);
      var found := LookupAny(src);
      if found.RootOnly? {
        return Abort;
      }
      if !found.Found? {
        return Err;
      }
      var attrs := AttrsAny(found.id);
      if attrs.Abort? {
        return Abort;
      }
      if !attrs.Ok? || attrs.value.itype != FS_FILE {
        return Err;
      }
      var p := LastSlash(tgt);
      if p.None? {
        return Err;
      }
      if !TargetFits(tgt) {
        return Abort;
      }
      RootOnlyIff(State(), tgt[..p.value]);
      var dir := LookupAny(tgt[..p.value]);
      if dir.RootOnly? {
        return Abort;
      }
      if !dir.Found? {
        return Err;
      }
      var made := Make(dir.id, tgt[p.value + 1..], FS_FILE);
      if !made.Ok? {
        return Err;
      }
      r := CopyContent(found.id, made.value);
    }

    /** fs_copy; the result Abort stands for the places where the program goes on undefined. */
    method Copy(src: seq<byte>, tgt: seq<byte>) returns (r: Res<()>)
      requires Valid() && IsCString(tgt)
      modifies this`ticks, Parts()
      ensures Valid() && (State(), r) == FsCopy(old(State()), src, tgt)
    {
      hide Inv, FsCopy, CopyFaults, FsLookup, CopyCall;
      ghost var g: Owners :| Inv(State(), g);
      ghost var g' := CopyOk(State(), src, tgt, g);
      LookupEnds(State(), src, g);
      r := CopyAny(src, tgt);
    }
  }
}
