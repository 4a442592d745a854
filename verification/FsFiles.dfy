/** fs_read and fs_write of snfs_server/fs.c on the state value. */
module FsFiles {
  import opened Bytes
  import opened Bitmap
  import opened BlockStore
  import opened FsState

  /** How fs_read and fs_copy get a block: from its slot (stamped twice), else from the disk into the cache. */
  function FetchBlock(s: Fs, b: nat): (r: (Fs, Option<Block>)) {
    var k := Slotted(s.store, b);
    if k < CACHE_SLOTS then
      (s.(store := Touch(s.store, k, s.time(s.ticks + 1)), ticks := s.ticks + 2), Some(s.store.slots[k].data))
    else if b < s.NumBlocks() then
      (s.(store := Add(s.store, b, s.store.disk[b], false, s.Now()), ticks := s.ticks + 1), Some(s.store.disk[b]))
    else (s, None)
  }

  /** The loop of fs_read; acc is what is already in the caller's buffer. */
  function ReadLoop(s: Fs, ino: Inode, offset: nat, max: nat, iblock: nat, acc: seq<byte>): (r: (Fs, Res<seq<byte>>))
    decreases BlocksFor(ino.size) - iblock
  {
    if |acc| >= max || iblock >= BlocksFor(ino.size) then (s, Ok(acc))
    else if iblock >= INODE_BLOCKS then (s, Err)
    else
      var (s1, data) := FetchBlock(s, ino.blocks[iblock]);
      if data.None? then (s1, Err)
      else
        var start := if |acc| == 0 then offset % BLOCK_SIZE else 0;
        var num := Min(BLOCK_SIZE - start, max - |acc|);
        ReadLoop(s1, ino, offset, max, iblock + 1, acc + data.value[start..start + num])
  }

  function FsRead(s: Fs, file: nat, offset: nat, count: nat): (r: (Fs, Res<seq<byte>>)) {
    if file >= INODES then (s, Err)
    else
      var (s1, ref) := Acquire(s, file);
      if ref.None? then (s1, Err)
      else
        var ino := Load(s1, ref.value);
        if ino.itype != FS_FILE then (s1, Err)
        else if offset >= ino.size then (s1, Ok([]))
        else ReadLoop(s1, ino, offset, Min(count, ino.size - offset), offset / BLOCK_SIZE, [])
  }

  /** One turn of the allocation loop of fs_write: mark the block, note it in the inode, cache it zeroed and dirty. */
  function AllocOne(s: Fs, ref: Ref, i: nat, b: nat): Fs
    requires ValidRef(ref) && i < INODE_BLOCKS && b < s.NumBlocks()
  {
    var ino := Load(s, ref);
    var s1 := Save(s.(blkMap := Set(s.blkMap, b)), ref, ino.(blocks := ino.blocks[i := b]));
    s1.(store := Add(s1.store, b, Zeros(BLOCK_SIZE), true, s1.Now()), ticks := s1.ticks + 1)
  }

  function AllocLoop(s: Fs, ref: Ref, i: nat, end: nat): (r: (Fs, bool))
    requires ValidRef(ref) && end <= INODE_BLOCKS
    decreases end - i
  {
    if i >= end then (s, true)
    else
      var b := FindFree(s.blkMap, 0, s.NumBlocks());
      if b.None? then (s, false)
      else AllocLoop(AllocOne(s, ref, i, b.value), ref, i + 1, end)
  }

  /** Block content with to_write bytes of the caller's buffer laid over it. */
  function Overlay(data: Block, start: nat, chunk: seq<byte>): (r: Block)
    requires start + |chunk| <= BLOCK_SIZE
    ensures forall q :: 0 <= q < BLOCK_SIZE ==>
          r[q] == if start <= q < start + |chunk| then chunk[q - start] else data[q]
  {
    data[..start] + chunk + data[start + |chunk|..]
  }

  /** How fs_write replaces the bytes of one block. */
  function UpdateBlock(s: Fs, b: nat, start: nat, chunk: seq<byte>): (r: (Fs, bool))
    requires start + |chunk| <= BLOCK_SIZE
  {
    var k := Slotted(s.store, b);
    if k < CACHE_SLOTS then
      var data := Overlay(s.store.slots[k].data, start, chunk);
      (s.(store := Put(s.store, k, data, s.time(s.ticks + 1)), ticks := s.ticks + 2), true)
    else if b < s.NumBlocks() then
      var data := Overlay(s.store.disk[b], start, chunk);
      (s.(store := Add(s.store, b, data, true, s.Now()), ticks := s.ticks + 1), true)
    else (s, false)
  }

  /** The write loop of fs_write; num bytes of the buffer are already in place. */
  function WriteLoop(s: Fs, ino: Inode, offset: nat, buffer: seq<byte>, num: nat, iblock: nat): (r: (Fs, Res<()>))
    decreases |buffer| - num
  {
    if num >= |buffer| then (s, Ok(()))
    else if iblock >= INODE_BLOCKS then (s, Abort)
    else
      var start := if num == 0 then offset % BLOCK_SIZE else 0;
      var toWrite := Min(BLOCK_SIZE - start, |buffer| - num);
      var (s1, ok) := UpdateBlock(s, ino.blocks[iblock], start, buffer[num..num + toWrite]);
      if !ok then (s1, Err)
      else WriteLoop(s1, ino, offset, buffer, num + toWrite, iblock + 1)
  }

  /** The last step of fs_write: a longer file. A row changed in place is also added to the cache, dirty. */
  function Grow(s: Fs, file: InodeId, ref: Ref, size: nat): Fs
    requires ValidRef(ref)
  {
    var s1 := MarkDirty(Save(s, ref, Load(s, ref).(size := size)), ref);
    if ref.InSlot? then s1 else AddInode(s1, file, true)
  }

  /** Blocks a write needs beyond those the file has. */
  function BlocksNeeded(size: nat, offset: nat, count: nat): nat {
    Max(BlocksFor(offset + count), BlocksFor(size)) - BlocksFor(size)
  }

  /** The third step of fs_write: req more blocks, and the inode marked modified if they were all there. */
  function Reserve(s: Fs, ref: Ref, used: nat, req: nat): (r: (Fs, bool))
    requires ValidRef(ref) && (req == 0 || used + req <= INODE_BLOCKS)
  {
    if req == 0 then (s, true)
    else
      var (s1, ok) := AllocLoop(s, ref, used, used + req);
      if ok then (MarkDirty(s1, ref), true) else (s1, false)
  }

  /** fs_write after the inode has been found. */
  function WriteThrough(s: Fs, file: InodeId, ref: Ref, offset: nat, buffer: seq<byte>): (r: (Fs, Res<()>))
    requires ValidRef(ref)
  {
    var size := Load(s, ref).size;
    var req := BlocksNeeded(size, offset, |buffer|);
    if req > 0 && req + BlocksFor(size) > INODE_BLOCKS then (s, Err)
    else
      var (s2, ok) := Reserve(s, ref, BlocksFor(size), req);
      if !ok then (s2, Err)
      else
        var (s3, res) := WriteLoop(s2, Load(s2, ref), offset, buffer, 0, offset / BLOCK_SIZE);
        if !res.Ok? then (s3, res)
        else if offset + |buffer| > size then (Grow(s3, file, ref, offset + |buffer|), Ok(()))
        else (s3, Ok(()))
  }

  function FsWrite(s: Fs, file: nat, offset: nat, buffer: seq<byte>): (r: (Fs, Res<()>)) {
    if file >= INODES then (s, Err)
    else
      var (s1, ref) := Acquire(s, file);
      if ref.None? then (s1, Err)
      else
        var ino := Load(s1, ref.value);
        if ino.itype != FS_FILE then (s1, Err)
        else WriteThrough(s1, file, ref.value, Min(offset, ino.size), buffer)
  }
}
