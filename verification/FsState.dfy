/**
 The state of the file system layer (struct fs_ of snfs_server/fs.c) as a value, and the operations on its inode
 table and inode cache that the fs_* calls share.
 */
module FsState {
  import opened Bytes
  import opened Bitmap
  import opened Slots
  import opened BlockStore

  const INODES: nat := 64
  const INODE_BLOCKS: nat := 10
  const INODE_SLOTS: nat := 4
  const DIR_SLOTS: nat := 4
  /** Blocks 0-9 hold the two maps and the inode table. */
  const META_BLOCKS: nat := 10
  const MAX_FILE: nat := 5120
  const FS_DIR: nat := 1
  const FS_FILE: nat := 2
  const ROOT: nat := 1

  type InodeId = n: nat | n < INODES
  type BlockRefs = r: seq<nat> | |r| == INODE_BLOCKS witness seq(INODE_BLOCKS, _ => 0)
  type Reserved = r: seq<nat> | |r| == 4 witness seq(4, _ => 0)

  datatype Inode = Inode(itype: nat, size: nat, blocks: BlockRefs, reserved: Reserved)

  datatype InodeSlot = InodeSlot(num: InodeId, inode: Inode, dirty: bool, last: int)

  datatype DirSlot = DirSlot(dir: nat, num: nat, page: Block, last: int)

  /** fsi_inode_init */
  function NewInode(itype: nat): Inode {
    Inode(itype, 0, seq(INODE_BLOCKS, _ => 0), seq(4, _ => 0))
  }

  type InodeTable = t: seq<Inode> | |t| == INODES witness seq(INODES, _ => NewInode(0))
  type InodeCache = c: seq<InodeSlot> | |c| == INODE_SLOTS
    witness seq(INODE_SLOTS, _ => InodeSlot(0, NewInode(0), false, 0))
  type DirCache = c: seq<DirSlot> | |c| == DIR_SLOTS
    witness seq(DIR_SLOTS, _ => DirSlot(0, 0, Zeros(BLOCK_SIZE), 0))

  /** time is what successive calls of time(NULL) return; ticks counts the calls made so far. */
  datatype FsImage = FsImage(
    store: Store,
    blkMap: Block,
    inoMap: Block,
    itab: InodeTable,
    icache: InodeCache,
    dcache: DirCache,
    time: nat -> int,
    ticks: nat)
  {
    function Now(): int { time(ticks) }

    function NumBlocks(): nat { |store.disk| }
  }

  /** The free map has 4096 bits, one for each block; the metadata takes the first ten blocks. */
  type Fs = s: FsImage | META_BLOCKS < |s.store.disk| <= 8 * BLOCK_SIZE
    witness FsImage(Store(seq(11, _ => Zeros(BLOCK_SIZE)), EmptyCache()), Zeros(BLOCK_SIZE), Zeros(BLOCK_SIZE),
                    seq(INODES, _ => NewInode(0)), seq(INODE_SLOTS, _ => InodeSlot(0, NewInode(0), false, 0)),
                    seq(DIR_SLOTS, _ => DirSlot(0, 0, Zeros(BLOCK_SIZE), 0)), (i: nat) => 0, 0)

  /**
   How a call ends: with a result, with -1, or by leaving the defined behaviour of the program
   (an index outside its array, a variable never set, exit).
   */
  datatype Res<+T> = Ok(value: T) | Err | Abort

  /** OFFSET_TO_BLOCKS */
  function BlocksFor(pos: nat): nat {
    pos / BLOCK_SIZE + if pos % BLOCK_SIZE > 0 then 1 else 0
  }

  // ------------------------------------------------------------------ inode table and inode cache

  function InodeNums(c: InodeCache): (r: seq<nat>)
    ensures |r| == |c| && forall k :: 0 <= k < |c| ==> r[k] == c[k].num
  {
    seq(|c|, k requires 0 <= k < |c| => c[k].num as nat)
  }

  function InodeTimes(c: InodeCache): (r: seq<int>)
    ensures |r| == |c| && forall k :: 0 <= k < |c| ==> r[k] == c[k].last
  {
    seq(|c|, k requires 0 <= k < |c| => c[k].last)
  }

  /** find_inode_in_cache: the first slot for inode n, or INODE_SLOTS. */
  function InodeSlotOf(c: InodeCache, n: nat): (k: nat)
    ensures k <= INODE_SLOTS
    ensures k < INODE_SLOTS ==> c[k].num == n
    ensures forall j :: 0 <= j < k ==> c[j].num != n
  {
    Find(InodeNums(c), n, 0)
  }

  function TouchInode(s: Fs, k: nat): Fs
    requires k < INODE_SLOTS
  {
    s.(icache := s.icache[k := s.icache[k].(last := s.Now())], ticks := s.ticks + 1)
  }

  /** The table after the inode slot about to be replaced has been written back. */
  function WriteBack(s: Fs): InodeTable {
    var v := s.icache[Victim(InodeTimes(s.icache))];
    if v.dirty then s.itab[v.num := v.inode] else s.itab
  }

  /** add_inode_to_cache, always called with the address of row n of the table. */
  function AddInode(s: Fs, n: InodeId, dirty: bool): Fs {
    var k := Victim(InodeTimes(s.icache));
    var t := WriteBack(s);
    s.(itab := t, icache := s.icache[k := InodeSlot(n, t[n], dirty, s.Now())], ticks := s.ticks + 1)
  }

  /** An fs_inode_t*: into a cache slot or into the table. */
  datatype Ref = InSlot(k: nat) | InRow(n: nat)

  predicate ValidRef(r: Ref) {
    if r.InSlot? then r.k < INODE_SLOTS else r.n < INODES
  }

  function Load(s: Fs, r: Ref): Inode
    requires ValidRef(r)
  {
    if r.InSlot? then s.icache[r.k].inode else s.itab[r.n]
  }

  function Save(s: Fs, r: Ref, ino: Inode): Fs
    requires ValidRef(r)
  {
    if r.InSlot? then s.(icache := s.icache[r.k := s.icache[r.k].(inode := ino)])
    else s.(itab := s.itab[r.n := ino])
  }

  /** The assignment cached_inode->dirty = 1; a row has no such flag. */
  function MarkDirty(s: Fs, r: Ref): Fs
    requires ValidRef(r)
  {
    if r.InSlot? then s.(icache := s.icache[r.k := s.icache[r.k].(dirty := true)]) else s
  }

  /** The opening of fs_get_attrs, fs_read, fs_write and fs_readdir: find the inode or bring a clean copy in. */
  function Acquire(s: Fs, n: InodeId): (r: (Fs, Option<Ref>))
    ensures r.1.Some? ==> ValidRef(r.1.value)
    ensures r.0.store == s.store && r.0.blkMap == s.blkMap && r.0.inoMap == s.inoMap && r.0.dcache == s.dcache
  {
    var k := InodeSlotOf(s.icache, n);
    if k < INODE_SLOTS then (TouchInode(s, k), Some(InSlot(k)))
    else if !IsSet(s.inoMap, n) then (s, None)
    else (AddInode(s, n, false), Some(InRow(n)))
  }

  datatype Attrs = Attrs(inodeid: nat, itype: nat, size: nat, numEntries: int)

  /** fs_get_attrs; an inode that is neither a directory nor a file ends the process. */
  function FsGetAttrs(s: Fs, file: nat): (r: (Fs, Res<Attrs>)) {
    if file >= INODES then (s, Err)
    else
      var (s1, ref) := Acquire(s, file);
      if ref.None? then (s1, Err)
      else
        var ino := Load(s1, ref.value);
        if ino.itype == FS_DIR then (s1, Ok(Attrs(file, ino.itype, ino.size, ino.size / 16)))
        else if ino.itype == FS_FILE then (s1, Ok(Attrs(file, ino.itype, ino.size, -1)))
        else (s1, Abort)
  }
}
