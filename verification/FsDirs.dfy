/** The directory calls of snfs_server/fs.c on the state value: search, lookup, create, mkdir and readdir. */
module FsDirs {
  import opened Bytes
  import opened Bitmap
  import opened Slots
  import opened BlockStore
  import opened FsState
  import opened FsTree
  import opened FsMeta

  const SLASH: byte := 47

  // ------------------------------------------------------------------ the page cache

  function PageDirs(c: DirCache): (r: seq<nat>)
    ensures |r| == |c| && forall k :: 0 <= k < |c| ==> r[k] == c[k].dir
  {
    seq(|c|, k requires 0 <= k < |c| => c[k].dir)
  }

  function PageKeys(c: DirCache): (r: seq<(nat, nat)>)
    ensures |r| == |c| && forall k :: 0 <= k < |c| ==> r[k] == (c[k].dir, c[k].num)
  {
    seq(|c|, k requires 0 <= k < |c| => (c[k].dir, c[k].num))
  }

  function PageTimes(c: DirCache): (r: seq<int>)
    ensures |r| == |c| && forall k :: 0 <= k < |c| ==> r[k] == c[k].last
  {
    seq(|c|, k requires 0 <= k < |c| => c[k].last)
  }

  /** The first slot with a page of directory d, or DIR_SLOTS. */
  function PageSlotOfDir(c: DirCache, d: nat): (k: nat)
    ensures k <= DIR_SLOTS
    ensures k < DIR_SLOTS ==> c[k].dir == d
    ensures k == DIR_SLOTS ==> forall j :: 0 <= j < DIR_SLOTS ==> c[j].dir != d
  {
    Find(PageDirs(c), d, 0)
  }

  /** The first slot with the page of directory d in block b, or DIR_SLOTS. */
  function PageSlotOf(c: DirCache, d: nat, b: nat): (k: nat)
    ensures k <= DIR_SLOTS
    ensures k < DIR_SLOTS ==> c[k].dir == d && c[k].num == b
    ensures k == DIR_SLOTS ==> forall j :: 0 <= j < DIR_SLOTS ==> !(c[j].dir == d && c[j].num == b)
  {
    var k := Find(PageKeys(c), (d, b), 0);
    assert k < DIR_SLOTS ==> PageKeys(c)[k] == (d, b);
    assert k == DIR_SLOTS ==> forall j :: 0 <= j < DIR_SLOTS ==> PageKeys(c)[j] != (d, b);
    k
  }

  function TouchPage(s: Fs, k: nat): Fs
    requires k < DIR_SLOTS
  {
    s.(dcache := s.dcache[k := s.dcache[k].(last := s.Now())], ticks := s.ticks + 1)
  }

  function AddPage(s: Fs, d: nat, b: nat, page: Block): Fs {
    var k := Victim(PageTimes(s.dcache));
    s.(dcache := s.dcache[k := DirSlot(d, b, page, s.Now())], ticks := s.ticks + 1)
  }

  /** How fsi_dir_search and fs_readdir get one page of a directory; None when the disk has no such block. */
  function FetchPage(s: Fs, d: nat, b: nat): (r: (Fs, Option<Block>)) {
    var k := PageSlotOf(s.dcache, d, b);
    if k < DIR_SLOTS then (TouchPage(s, k), Some(s.dcache[k].page))
    else if b < s.NumBlocks() then (AddPage(s, d, b, s.store.disk[b]), Some(s.store.disk[b]))
    else (s, None)
  }

  // ------------------------------------------------------------------ pages

  /** The first of entries j .. n-1 with the name. */
  function ScanPage(page: Block, name: seq<byte>, j: nat, n: nat): (r: Option<nat>)
    requires n <= PAGE_ENTRIES
    ensures r.Some? ==> j <= r.value < n && EntryName(PageEntry(page, r.value)) == name
    ensures forall i: nat :: j <= i < (if r.Some? then r.value else n) ==> EntryName(PageEntry(page, i)) != name
    decreases n - j
  {
    if j >= n then None
    else if EntryName(PageEntry(page, j)) == name then Some(j)
    else ScanPage(page, name, j + 1, n)
  }

  function PutEntry(page: Block, j: nat, e: seq<byte>): (r: Block)
    requires j < PAGE_ENTRIES && |e| == ENTRY_SIZE
    ensures forall i: nat :: i < PAGE_ENTRIES ==> PageEntry(r, i) == if i == j then e else PageEntry(page, i)
  {
    var r: Block := page[..ENTRY_SIZE * j] + e + page[ENTRY_SIZE * j + ENTRY_SIZE..];
    assert forall i: nat :: i < PAGE_ENTRIES ==> PageEntry(r, i) == if i == j then e else PageEntry(page, i);
    r
  }

  /** The entry copied into the first place of a cached page whose name is empty, if there is one. */
  function FillFirstGap(page: Block, j: nat, e: seq<byte>): (r: Block)
    requires |e| == ENTRY_SIZE
    ensures forall i: nat :: i < PAGE_ENTRIES ==> PageEntry(r, i) == PageEntry(page, i) || PageEntry(r, i) == e
    decreases PAGE_ENTRIES - j
  {
    if j >= PAGE_ENTRIES then page
    else if EntryName(PageEntry(page, j)) == [] then PutEntry(page, j, e)
    else FillFirstGap(page, j + 1, e)
  }

  // ------------------------------------------------------------------ fsi_dir_search

  /** The block loop of fsi_dir_search; part is the slot in which the first pass saw a page of the directory. */
  function SearchBlocks(s: Fs, dir: InodeId, name: seq<byte>, part: Option<nat>, iblock: nat, num: nat): (r: (Fs,
        Res<nat>))
    requires part.Some? ==> part.value < DIR_SLOTS
    decreases num
  {
    if num == 0 then (s, Err)
    else if iblock >= INODE_BLOCKS then (s, Abort)
    else
      var (s1, page) := FetchPage(s, dir, s.itab[dir].blocks[iblock]);
      if page.None? then (s1, Err)
      else
        var n := Min(PAGE_ENTRIES, num);
        var j := ScanPage(page.value, name, 0, n);
        if j.None? then SearchBlocks(s1, dir, name, part, iblock + 1, num - n)
        else
          var e := PageEntry(page.value, j.value);
          var s2 := if part.None? then s1
                    else s1.(dcache := s1.dcache[part.value := s1.dcache[part.value].(
                           page := FillFirstGap(s1.dcache[part.value].page, 0, e))]);
          (s2, Ok(EntryInode(e)))
  }

  function DirSearch(s: Fs, dir: InodeId, name: seq<byte>): (r: (Fs, Res<nat>)) {
    var k := PageSlotOfDir(s.dcache, dir);
    if k < DIR_SLOTS then
      var s1 := TouchPage(s, k);
      var j := ScanPage(s.dcache[k].page, name, 0, PAGE_ENTRIES);
      if j.Some? then (s1, Ok(EntryInode(PageEntry(s.dcache[k].page, j.value))))
      else SearchBlocks(s1, dir, name, Some(k), 0, Count(s.itab[dir]))
    else SearchBlocks(s, dir, name, None, 0, Count(s.itab[dir]))
  }

  // ------------------------------------------------------------------ fs_lookup

  function TokenLength(path: seq<byte>): (n: nat)
    ensures n <= |path|
  {
    if path == [] || path[0] == SLASH then 0 else 1 + TokenLength(path[1..])
  }

  /** strtok with "/": the maximal runs of other characters. */
  function Tokens(path: seq<byte>): (t: seq<seq<byte>>)
    ensures forall i :: 0 <= i < |t| ==> t[i] != []
  {
    if path == [] then []
    else if path[0] == SLASH then Tokens(path[1..])
    else var n := TokenLength(path); [path[..n]] + Tokens(path[n..])
  }

  /** Found is the result 1; RootOnly is 1 with *fileid never set; Missing is 0; Refused is -1. */
  datatype Lookup = Found(id: nat) | RootOnly | Missing | Refused | Fault

  /** The token loop of fs_lookup, from directory dir on. */
  function LookupFrom(s: Fs, dir: nat, tokens: seq<seq<byte>>): (r: (Fs, Lookup))
    decreases |tokens|
  {
    if tokens == [] then (s, Found(dir))
    else if dir / 8 >= BLOCK_SIZE then (s, Fault)
    else if !IsSet(s.inoMap, dir) then (s, Refused)
    else if dir >= INODES then (s, Fault)
    else if s.itab[dir].itype != FS_DIR then (s, Refused)
    else
      var (s1, r) := DirSearch(s, dir, tokens[0]);
      if r.Abort? then (s1, Fault)
      else if r.Err? then (s1, Missing)
      else LookupFrom(s1, r.value, tokens[1..])
  }

  function FsLookup(s: Fs, path: seq<byte>): (r: (Fs, Lookup)) {
    if path == [] || path[0] != SLASH then (s, Refused)
    else
      var tokens := Tokens(path);
      if tokens == [] then (s, RootOnly) else LookupFrom(s, ROOT, tokens)
  }

  // ------------------------------------------------------------------ fs_create and fs_mkdir

  /** strcpy of the name into an entry, then its inode number; bytes behind the terminator stay. */
  function NewEntry(was: seq<byte>, name: seq<byte>, n: nat): (e: seq<byte>)
    requires |was| == ENTRY_SIZE && |name| < NAME_SIZE
    ensures |e| == ENTRY_SIZE
  {
    name + [0] + was[|name| + 1..NAME_SIZE] + Encode16(n)
  }

  /** A block for the entry about to be appended, if the last one is full; None when the disk is. */
  function RoomForEntry(s: Fs, dir: InodeId): (r: (Fs, Res<()>)) {
    var d := s.itab[dir];
    if d.size % BLOCK_SIZE != 0 then (s, Ok(()))
    else
      var b := FindFree(s.blkMap, 0, s.NumBlocks());
      if b.None? then (s, Err)
      else if d.size / BLOCK_SIZE >= INODE_BLOCKS then (s, Abort)
      else
        (s.(blkMap := Set(s.blkMap, b.value),
            itab := s.itab[dir := d.(blocks := d.blocks[d.size / BLOCK_SIZE := b.value])]), Ok(()))
  }

  /** The entry for inode n written behind the last one, straight to the disk, and the longer directory. */
  function AppendEntry(s: Fs, dir: InodeId, name: seq<byte>, n: nat): (r: (Fs, bool))
    requires |name| < NAME_SIZE
  {
    var d := s.itab[dir];
    if d.size / BLOCK_SIZE >= INODE_BLOCKS || d.blocks[d.size / BLOCK_SIZE] >= s.NumBlocks() then (s, false)
    else
      var b := d.blocks[d.size / BLOCK_SIZE];
      var j := d.size % BLOCK_SIZE / ENTRY_SIZE;
      var page := s.store.disk[b];
      var page' := PutEntry(page, j, NewEntry(PageEntry(page, j), name, n));
      (s.(store := s.store.(disk := s.store.disk[b := page']), itab := s.itab[dir := d.(size := d.size + ENTRY_SIZE)]),
            true)
  }

  /** fs_create and fs_mkdir, which differ in the type of the new inode only. */
  function MakeNode(s: Fs, dir: nat, name: seq<byte>, itype: nat): (r: (Fs, Res<nat>)) {
    if dir >= INODES || name == [] || |name| + 1 > NAME_SIZE then (s, Err)
    else if !IsSet(s.inoMap, dir) || s.itab[dir].itype != FS_DIR then (s, Err)
    else
      var (s1, found) := DirSearch(s, dir, name);
      if found.Ok? then (s1, Err)
      else if found.Abort? then (s1, Abort)
      else
        var n := FindFree(s1.inoMap, 0, INODES);
        if n.None? then (s1, Err)
        else
          var (s2, room) := RoomForEntry(s1, dir);
          if room.Err? then (s2, Err)
          else if room.Abort? then (s2, Abort)
          else
            var (s3, ok) := AppendEntry(s2, dir, name, n.value);
            if !ok then (s3, Abort)
            else
              var s4 := s3.(inoMap := Set(s3.inoMap, n.value), itab := s3.itab[n.value := NewInode(itype)]);
              (StoreMeta(s4), Ok(n.value))
  }

  function FsCreate(s: Fs, dir: nat, name: seq<byte>): (r: (Fs, Res<nat>)) {
    MakeNode(s, dir, name, FS_FILE)
  }

  function FsMkdir(s: Fs, dir: nat, name: seq<byte>): (r: (Fs, Res<nat>)) {
    MakeNode(s, dir, name, FS_DIR)
  }

  // ------------------------------------------------------------------ fs_readdir

  /** One line of a listing; the type is UNKNOWN_TYPE for an entry whose inode is not used. */
  datatype Listed = Listed(name: seq<byte>, itype: int)

  const UNKNOWN_TYPE: int := -1

  /** The type fs_readdir reports, from the inode cache first. */
  function ListedType(s: Fs, n: nat): (r: (Fs, int)) {
    var k := InodeSlotOf(s.icache, n);
    if k < INODE_SLOTS then (TouchInode(s, k), s.icache[k].inode.itype)
    else if n < INODES && IsSet(s.inoMap, n) then (s, s.itab[n].itype)
    else (s, UNKNOWN_TYPE)
  }

  /** The inner loop of fs_readdir: entries j .. n-1 of a page appended to the reply. */
  function ListPage(s: Fs, page: Block, j: nat, n: nat, acc: seq<Listed>): (r: (Fs, seq<Listed>))
    requires n <= PAGE_ENTRIES
    decreases n - j
  {
    if j >= n then (s, acc)
    else
      var e := PageEntry(page, j);
      var (s1, t) := ListedType(s, EntryInode(e));
      ListPage(s1, page, j + 1, n, acc + [Listed(EntryName(e), t)])
  }

  /** The block loop of fs_readdir. */
  function ListBlocks(s: Fs, dir: InodeId, ino: Inode, iblock: nat, num: nat, acc: seq<Listed>): (r: (Fs,
        Res<seq<Listed>>))
    decreases num
  {
    if num == 0 then (s, Ok(acc))
    else if iblock >= INODE_BLOCKS then (s, Abort)
    else
      var (s1, page) := FetchPage(s, dir, ino.blocks[iblock]);
      if page.None? then (s1, Err)
      else
        var n := Min(PAGE_ENTRIES, num);
        var (s2, acc2) := ListPage(s1, page.value, 0, n, acc);
        ListBlocks(s2, dir, ino, iblock + 1, num - n, acc2)
  }

  function FsReaddir(s: Fs, dir: nat, max: int): (r: (Fs, Res<seq<Listed>>)) {
    if dir >= INODES || max < 0 then (s, Err)
    else
      var (s1, ref) := Acquire(s, dir);
      if ref.None? then (s1, Err)
      else
        var ino := Load(s1, ref.value);
        if ino.itype != FS_DIR then (s1, Err)
        else ListBlocks(s1, dir, ino, 0, Min(Count(ino), max), [])
  }
}
