/** fs_copy of snfs_server/fs.c: it fills the table row of the new file, and what a reader then sees. */
module FsCopying {
  import opened Bytes
  import opened Bitmap
  import opened Slots
  import opened BlockStore
  import opened FsState
  import opened FsFiles
  import opened FsTree
  import opened FsInv
  import opened FsContent
  import opened FsAlloc
  import opened FsCoherence
  import opened FsCalls
  import opened FsWriteCalls
  import opened FsMeta
  import opened FsDirs
  import opened FsSearch
  import opened FsMake
  import opened FsNamespace

  /** strrchr: the position of the last slash. */
  function LastSlash(path: seq<byte>): (p: Option<nat>)
    ensures p.Some? ==> p.value < |path| && path[p.value] == SLASH && forall i :: p.value < i < |path| ==>
          path[i] != SLASH
    ensures p.None? ==> forall i :: 0 <= i < |path| ==> path[i] != SLASH
  {
    if path == [] then None
    else if path[|path| - 1] == SLASH then Some(|path| - 1)
    else LastSlash(path[..|path| - 1])
  }

  /** One turn of the copy loop with block b for place i of the new inode. */
  function CopyOne(s: Fs, src: Ref, dst: Ref, i: nat, b: nat): (r: (Fs, bool))
    requires ValidRef(src) && ValidRef(dst) && i < INODE_BLOCKS && b < s.NumBlocks()
  {
    var from := Load(s, src).blocks[i];
    var ino := Load(s, dst);
    var s1 := Save(s.(blkMap := Set(s.blkMap, b)), dst, ino.(blocks := ino.blocks[i := b]));
    var (s2, data) := FetchBlock(s1, from);
    if data.None? then (s2, false)
    else (s2.(store := Add(s2.store, b, data.value, true, s2.Now()), ticks := s2.ticks + 1), true)
  }

  function CopyLoop(s: Fs, src: Ref, dst: Ref, i: nat, used: nat): (r: (Fs, Res<()>))
    requires ValidRef(src) && ValidRef(dst)
    decreases used - i
  {
    if i >= used then (s, Ok(()))
    else if i >= INODE_BLOCKS then (s, Abort)
    else
      var b := FindFree(s.blkMap, 0, s.NumBlocks());
      if b.None? then (s, Err)
      else
        var (s1, ok) := CopyOne(s, src, dst, i, b.value);
        if !ok then (s1, Err) else CopyLoop(s1, src, dst, i + 1, used)
  }

  /** Finding an inode of fs_copy: the cached copy, else its row, brought into the cache with the flag given. */
  function Hold(s: Fs, n: InodeId, dirty: bool): (r: (Fs, Ref))
    ensures ValidRef(r.1)
  {
    var k := InodeSlotOf(s.icache, n);
    if k < INODE_SLOTS then (TouchInode(s, k), InSlot(k)) else (AddInode(s, n, dirty), InRow(n))
  }

  /** From the moment both inodes exist. */
  function CopyData(s: Fs, from: InodeId, to: InodeId): (r: (Fs, Res<()>)) {
    var (s1, src) := Hold(s, from, false);
    var (s2, dst) := Hold(s1, to, true);
    var (s3, res) := CopyLoop(s2, src, dst, 0, BlocksFor(Load(s2, src).size));
    if !res.Ok? then (s3, res)
    else
      var s4 := Save(s3, dst, Load(s3, dst).(size := Load(s3, src).size, itype := FS_FILE));
      if dst.InSlot? && s4.icache[dst.k].dirty then (StoreMeta(s4), Ok(())) else (s4, Ok(()))
  }

  /** The target half before any data: the directory part is looked up and the file created in it. */
  function MakeTarget(s: Fs, dirPart: seq<byte>, name: seq<byte>): (r: (Fs, Res<nat>)) {
    var (s1, l) := FsLookup(s, dirPart);
    if l.Fault? || l.RootOnly? then (s1, Abort)
    else if !l.Found? then (s1, Err)
    else FsCreate(s1, l.id, name)
  }

  function CopyInto(s: Fs, from: InodeId, dirPart: seq<byte>, name: seq<byte>): (r: (Fs, Res<()>)) {
    var (s2, made) := MakeTarget(s, dirPart, name);
    if made.Err? then (s2, Err)
    else if made.Abort? || made.value >= INODES then (s2, Abort)
    else CopyData(s2, from, made.value)
  }

  /** The target path in its two 14-byte buffers. */
  predicate TargetFits(path: seq<byte>) {
    var p := LastSlash(path);
    p.Some? ==> p.value < NAME_SIZE && |path| - (p.value + 1) < NAME_SIZE
  }

  /** The target's directory part and its last component. */
  function DirPart(path: seq<byte>): seq<byte> {
    var p := LastSlash(path);
    if p.Some? then path[..p.value] else []
  }

  function FileName(path: seq<byte>): seq<byte> {
    var p := LastSlash(path);
    if p.Some? then path[p.value + 1..] else path
  }

  function FsCopy(s: Fs, srcPath: seq<byte>, tgtPath: seq<byte>): (r: (Fs, Res<()>)) {
    var (s1, l) := FsLookup(s, srcPath);
    if l.Fault? || l.RootOnly? then (s1, Abort)
    else if !l.Found? then (s1, Err)
    else
      var (s2, a) := FsGetAttrs(s1, l.id);
      if a.Abort? then (s2, Abort)
      else if a.Err? || a.value.itype != FS_FILE then (s2, Err)
      else if l.id >= INODES then (s2, Abort)
      else
        var p := LastSlash(tgtPath);
        if p.None? then (s2, Err)
        else if !TargetFits(tgtPath) then (s2, Abort)
        else CopyInto(s2, l.id, tgtPath[..p.value], tgtPath[p.value + 1..])
  }

  // ------------------------------------------------------------------ one turn

  lemma StillNotCached(s: Fs, from: nat, b: nat)
    requires Slotted(s.store, b) == CACHE_SLOTS && from != b
    ensures Slotted(FetchBlock(s, from).0.store, b) == CACHE_SLOTS
  {
    var st := FetchBlock(s, from).0.store;
    forall j | 0 <= j < CACHE_SLOTS ensures st.slots[j].num != b {}
  }

  /** The source record in its slot and the new file's row. */
  ghost predicate Copying(s: Fs, k: nat, from: nat, n: nat, i: nat, used: nat, g: Owners) {
    && Inv(s, g) && k < INODE_SLOTS && 1 <= from < |g.par| <= INODES && 1 <= n < |g.par| && n != from
    && s.icache[k].num == from && s.itab[from].itype == FS_FILE && s.itab[n].itype == FS_FILE && s.itab[n].size == 0
    && used == BlocksFor(s.icache[k].inode.size) && i <= used
  }

  lemma CopyOneOk(s: Fs, k: nat, from: nat, n: nat, i: nat, used: nat, g: Owners)
    requires Copying(s, k, from, n, i, used, g) && i < used && i < INODE_BLOCKS && |g.own| < s.NumBlocks()
    ensures var (b, row) := (|g.own|, s.itab[n]);
      var (s', ok) := CopyOne(s, InSlot(k), InRow(n), i, b);
      && ok && Inv(s', g.(own := g.own + [(n, i)]))
      && s'.icache == s.icache && s'.itab == s.itab[n := row.(blocks := row.blocks[i := b])]
      && s'.inoMap == s.inoMap && s'.dcache == s.dcache && s'.time == s.time && s'.NumBlocks() == s.NumBlocks()
      && s.icache[k].inode.blocks[i] < |g.own|
      && View(s'.store, b) == View(s.store, s.icache[k].inode.blocks[i]) && SameViewsBut(s.store, s'.store, b)
  {
    hide Inv, View, UsesOwned, Fits, FetchBlock;
    var (b, row) := (|g.own|, s.itab[n]);
    var g1 := g.(own := g.own + [(n, i)]);
    var from_ := s.icache[k].inode.blocks[i];
    var row1 := row.(blocks := row.blocks[i := b]);
    var s0 := s.(blkMap := Set(s.blkMap, b));
    var s1 := Save(s0, InRow(n), row1);
    TakeBlock(s, n, i, g);
    LoadedOk(s0, InRow(n), n, g1);
    LoadedOk(s, InSlot(k), from, g);
    BeyondUsed(row, n, g1.own, i, b);
    RowRecordOk(row, row1, n, i, b, s0, g1);
    SaveKeepsInv(s0, InRow(n), n, row1, g1);
    SourceBlock(s, s1, k, from, n, i, g);
    FetchBlockOk(s1, from_, g1);
    var s2 := FetchBlock(s1, from_).0;
    NotCachedYet(s, g);
    StillNotCached(s1, from_, b);
    PutCopy(s1, s2, CopyOne(s, InSlot(k), InRow(n), i, b).0, b, View(s1.store, from_), n, i, g1);
  }

  lemma RowRecordOk(row: Inode, row1: Inode, n: nat, i: nat, b: nat, s0: Fs, g1: Owners)
    requires Fits(row) && row.itype == FS_FILE && i < INODE_BLOCKS && row1 == row.(blocks := row.blocks[i := b])
    requires UsesOwned(row1, n, g1.own) && b < s0.NumBlocks()
    ensures FileRecordOk(row1, n, g1)
  {
  }

  lemma SourceBlock(s: Fs, s1: Fs, k: nat, from: nat, n: nat, i: nat, g: Owners)
    requires k < INODE_SLOTS && UsesOwned(s.icache[k].inode, from, g.own) && i < INODE_BLOCKS
          && i < BlocksFor(s.icache[k].inode.size)
    requires from < INODES && s1.itab[from].itype == FS_FILE
    ensures var x := s.icache[k].inode.blocks[i];
      x < |g.own| && META_BLOCKS <= x && IsFileBlock(g.own + [(n, i)], s1.itab, x)
  {
    assert Owns(g.own, s.icache[k].inode.blocks[i], from, i);
  }

  /** The last step of a turn: the data enters the cache, dirty, under the new number. */
  lemma PutCopy(s1: Fs, s2: Fs, s3: Fs, b: nat, data: Block, n: nat, i: nat, g1: Owners)
    requires Inv(s2, g1) && s2 == s1.(store := s2.store, ticks := s2.ticks) && SameViewsBut(s1.store, s2.store, 0)
    requires s3 == s2.(store := Add(s2.store, b, data, true, s2.Now()), ticks := s2.ticks + 1)
    requires 0 < b < |g1.own| && g1.own[b] == (n, i) && META_BLOCKS <= b && n < INODES && s2.itab[n].itype == FS_FILE
    requires Slotted(s2.store, b) == CACHE_SLOTS
    ensures Inv(s3, g1) && View(s3.store, b) == data && SameViewsBut(s1.store, s3.store, b)
  {
    assert StoreOk(s2.store, s2.itab, g1.own) && |g1.own| <= s2.NumBlocks();
    hide Inv, StoreOk, View;
    StoreAdd(s2.store, b, data, true, s2.Now(), s2.itab, g1.own);
    StoreStepKeepsInv(s2, s3, g1);
  }

  // ------------------------------------------------------------------ the loop

  /** Places i .. m-1 of row n hold fresh blocks with the content of the source's blocks; nothing below them changed. */
  ghost predicate Copied(s: Fs, s': Fs, k: nat, n: nat, i: nat, m: nat, g: Owners)
    requires k < INODE_SLOTS && n < INODES && i <= m
  {
    && Inv(s', g.(own := g.own + Places(n, i, m)))
    && s'.icache == s.icache && s'.itab == s.itab[n := s'.itab[n]] && Allocated(s.itab[n], s'.itab[n], i, m, |g.own|)
    && s'.inoMap == s.inoMap && s'.dcache == s.dcache && s'.time == s.time && s'.NumBlocks() == s.NumBlocks()
    && SameViewsBelow(s.store, s'.store, |g.own|)
    && forall j: nat :: i <= j < m && j < INODE_BLOCKS ==>
         View(s'.store, |g.own| + (j - i)) == View(s.store, s.icache[k].inode.blocks[j])
  }

  lemma NothingCopied(s: Fs, k: nat, n: nat, i: nat, g: Owners)
    requires Inv(s, g) && k < INODE_SLOTS && n < INODES
    ensures Copied(s, s, k, n, i, i, g)
  {
    hide Inv;
    assert g.own + Places(n, i, i) == g.own;
    assert s.itab[n := s.itab[n]] == s.itab;
  }

  lemma CopiesCompose(s: Fs, s1: Fs, s': Fs, k: nat, from: nat, n: nat, i: nat, m: nat, g: Owners)
    requires k < INODE_SLOTS && n < INODES && i < m <= INODE_BLOCKS && META_BLOCKS <= |g.own| < s.NumBlocks()
    requires var row := s.itab[n]; s1.itab == s.itab[n := row.(blocks := row.blocks[i := |g.own|])]
    requires s1.icache == s.icache
    requires s1.inoMap == s.inoMap && s1.dcache == s.dcache && s1.time == s.time && s1.NumBlocks() == s.NumBlocks()
    requires View(s1.store, |g.own|) == View(s.store, s.icache[k].inode.blocks[i])
          && SameViewsBut(s.store, s1.store, |g.own|)
    requires forall j: nat :: i <= j < m ==> 0 < s.icache[k].inode.blocks[j] < |g.own|
    requires Copied(s1, s', k, n, i + 1, m, g.(own := g.own + [(n, i)]))
    ensures Copied(s, s', k, n, i, m, g)
  {
    hide Inv, View;
    assert g.own + [(n, i)] + Places(n, i + 1, m) == g.own + Places(n, i, m);
    assert s'.itab == s.itab[n := s'.itab[n]];
  }

  lemma SourceBelow(s: Fs, k: nat, from: nat, n: nat, i: nat, used: nat, g: Owners)
    requires Copying(s, k, from, n, i, used, g)
    ensures used <= INODE_BLOCKS
    ensures forall j: nat :: i <= j < used ==> 0 < s.icache[k].inode.blocks[j] < |g.own|
  {
    var ino := s.icache[k].inode;
    assert UsesOwned(ino, from, g.own) by { LoadedOk(s, InSlot(k), from, g); }
    hide Inv;
    forall j: nat | i <= j < used ensures 0 < ino.blocks[j] < |g.own| {
      assert Owns(g.own, ino.blocks[j], from, j);
    }
  }

  lemma CopyTurn(s: Fs, k: nat, from: nat, n: nat, i: nat, used: nat, g: Owners) returns (s1: Fs)
    requires Copying(s, k, from, n, i, used, g) && i < used && |g.own| < s.NumBlocks()
    ensures CopyLoop(s, InSlot(k), InRow(n), i, used) == CopyLoop(s1, InSlot(k), InRow(n), i + 1, used)
    ensures Copying(s1, k, from, n, i + 1, used, g.(own := g.own + [(n, i)]))
    ensures var row := s.itab[n]; i < INODE_BLOCKS && s1.itab == s.itab[n := row.(blocks := row.blocks[i := |g.own|])]
    ensures s1.icache == s.icache
    ensures s1.inoMap == s.inoMap && s1.dcache == s.dcache && s1.time == s.time && s1.NumBlocks() == s.NumBlocks()
    ensures View(s1.store, |g.own|) == View(s.store, s.icache[k].inode.blocks[i])
          && SameViewsBut(s.store, s1.store, |g.own|)
  {
    hide Inv, View, CopyOne;
    SourceBelow(s, k, from, n, i, used, g);
    NextFreeBlock(s, g);
    CopyOneOk(s, k, from, n, i, used, g);
    s1 := CopyOne(s, InSlot(k), InRow(n), i, |g.own|).0;
  }

  /** The loop copies block by block into consecutive fresh blocks and fails exactly when the disk is too small. */
  lemma {:induction false} CopyLoopOk(s: Fs, k: nat, from: nat, n: nat, i: nat, used: nat, g: Owners) returns (m: nat)
    requires Copying(s, k, from, n, i, used, g)
    ensures k < INODE_SLOTS && n < INODES && i <= m <= used <= INODE_BLOCKS
    ensures var (s', r) := CopyLoop(s, InSlot(k), InRow(n), i, used);
      && r == (if m == used then Ok(()) else Err)
      && (m == used <==> |g.own| + (used - i) <= s.NumBlocks()) && (m < used ==> |g.own| + (m - i) == s.NumBlocks())
      && Copied(s, s', k, n, i, m, g)
    decreases used - i
  {
    hide Inv, CopyOne, Copied, View;
    SourceBelow(s, k, from, n, i, used, g);
    NextFreeBlock(s, g);
    if i == used || |g.own| == s.NumBlocks() {
      NothingCopied(s, k, n, i, g);
      m := i;
    } else {
      hide CopyLoop;
      var s1 := CopyTurn(s, k, from, n, i, used, g);
      m := CopyLoopOk(s1, k, from, n, i + 1, used, g.(own := g.own + [(n, i)]));
      CopiesCompose(s, s1, CopyLoop(s1, InSlot(k), InRow(n), i + 1, used).0, k, from, n, i, m, g);
    }
  }

  // ------------------------------------------------------------------ the content of the new row

  /** A record of the same size over equal blocks has the same content. */
  lemma SameBlocksSameContent(st: Store, st': Store, a: Inode, b: Inode)
    requires a.size == b.size <= MAX_FILE
    requires forall j: nat :: j < INODE_BLOCKS && j < BlocksFor(a.size) ==>
          View(st', b.blocks[j]) == View(st, a.blocks[j])
    ensures Content(st', b) == Content(st, a)
  {
    hide View;
    forall p | 0 <= p < a.size ensures ByteAt(st', b, p) == ByteAt(st, a, p) {
      InUsedRange(p, a.size);
    }
  }

  lemma FilledRow(s: Fs, s': Fs, k: nat, from: nat, n: nat, used: nat, g: Owners)
    requires Copying(s, k, from, n, 0, used, g) && used <= INODE_BLOCKS && Copied(s, s', k, n, 0, used, g)
    ensures var (src, row) := (s.icache[k].inode, s'.itab[n].(size := s.icache[k].inode.size, itype := FS_FILE));
      && Content(s'.store, row) == Content(s.store, src)
      && UsesOwned(row, n, g.own + Places(n, 0, used)) && Fits(row)
      && forall j: nat :: j < used ==> row.blocks[j] == |g.own| + j
  {
    var (src, row) := (s.icache[k].inode, s'.itab[n].(size := s.icache[k].inode.size, itype := FS_FILE));
    var own' := g.own + Places(n, 0, used);
    assert Fits(src) && src.itype == FS_FILE && UsesOwned(src, from, g.own) by { LoadedOk(s, InSlot(k), from, g); }
    assert Fits(s'.itab[n]) by { LoadedOk(s', InRow(n), n, g.(own := own')); }
    assert META_BLOCKS <= |g.own| by { InvLimits(s, g); }
    hide Inv, View, Content;
    forall j: nat | j < INODE_BLOCKS && j < BlocksFor(row.size)
      ensures Owns(own', row.blocks[j], n, j) && View(s'.store, row.blocks[j]) == View(s.store, src.blocks[j])
    {
      assert own'[|g.own| + j] == Places(n, 0, used)[j];
    }
    SameBlocksSameContent(s.store, s'.store, src, row);
  }

  // ------------------------------------------------------------------ both inodes, then the data

  /** The slot the new inode takes once the source's has been touched. */
  function CopyVictim(s: Fs, from: InodeId): nat {
    Victim(InodeTimes(Hold(s, from, false).0.icache))
  }

  /** The record of inode m in use once both inodes of a copy are held: the new one has taken a slot. */
  function AfterCopy(s: Fs, from: InodeId, m: nat): Inode
    requires m < INODES
  {
    AfterAdd(Hold(s, from, false).0, m)
  }

  /** What file m, not the new one, then contains. */
  function SeenAfterCopy(s: Fs, from: InodeId, m: nat): Option<seq<byte>> {
    if IsFile(s, m) then Some(Content(s.store, AfterCopy(s, from, m))) else None
  }

  /** The new file as fs_create left it. */
  ghost predicate NewFile(s: Fs, n: nat) {
    NewRecord(s, n, FS_FILE)
  }

  /** Nothing a reader of a file whose inode is coherent can see differs. */
  ghost predicate Unseen(s: Fs, s': Fs, g: Owners) {
    && s'.time == s.time && s'.NumBlocks() == s.NumBlocks() && s'.inoMap == s.inoMap
    && SameViewsBelow(s.store, s'.store, |g.own|)
    && SameDirRows(s.itab, s'.itab)
    && RecordsKept(s, s')
  }

  lemma UnseenTwice(s: Fs, s1: Fs, s2: Fs, g: Owners)
    requires Unseen(s, s1, g) && Unseen(s1, s2, g)
    ensures Unseen(s, s2, g)
  {
    hide View, RecordsKept, RecordsMoved;
    RecordsKeptTwice(s, s1, s2);
  }

  lemma UnseenFiles(s: Fs, s': Fs, g: Owners)
    requires Inv(s, g) && Unseen(s, s', g)
    ensures forall n: nat :: FileSame(s, s', n)
  {
    hide Inv, SameViewsBelow, ContentOf, CoherentAt, RecordKept;
    forall n: nat | 1 <= n < INODES ensures FileSame(s, s', n) { FileKept(s, s', n, g); }
  }

  lemma QuietIsUnseen(s: Fs, s': Fs, g: Owners)
    requires Quiet(s, s', g)
    ensures Unseen(s, s', g)
  {
    hide Inv, RecordsKept, RecordsMoved, View;
  }

  /** Bringing the new file's row into the cache. */
  lemma AddNew(s1: Fs, n: InodeId, g: Owners)
    requires Inv(s1, g) && NewFile(s1, n) && n < |g.par|
    ensures var (s2, v) := (AddInode(s1, n, true), Victim(InodeTimes(s1.icache)));
      && Inv(s2, g) && Unseen(s1, s2, g) && s2.store == s1.store && s2.itab[n] == NewInode(FS_FILE)
      && s2.icache == s1.icache[v := s2.icache[v]] && s2.icache[v].num == n && s2.icache[v].dirty
            && s2.icache[v].inode == NewInode(FS_FILE)
      && RecordsMoved(s1, s2, -1) && forall m: nat :: m < INODES && m != n ==> Eff(s2, m) == AfterAdd(s1, m)
  {
    var s2 := AddInode(s1, n, true);
    AddInodeKeepsInv(s1, n, true, g);
    WriteBackOk(s1, g);
    NoSlot(s1.icache, n);
    hide Inv, View, Content, Eff, AfterAdd, RecordMoved;
    AddKeepsOthers(s1, n, true, g);
  }

  /** With both inodes held: the source in slot k, the new row, and the dirty copy of the new inode in slot v. */
  ghost predicate Held(s: Fs, s2: Fs, from: InodeId, n: InodeId, k: nat, v: nat, g: Owners) {
    && k < INODE_SLOTS && v < INODE_SLOTS && k == InodeSlotOf(s.icache, from) && v == CopyVictim(s, from)
    && Inv(s2, g) && Unseen(s, s2, g) && s2.store == s.store
    && s2.itab[n] == NewInode(FS_FILE)
    && s2.icache[v].num == n && s2.icache[v].dirty && s2.icache[v].inode == NewInode(FS_FILE)
    && (forall j :: 0 <= j < INODE_SLOTS && j != v ==> s2.icache[j].num != n)
    && (k != v ==> s2.icache[k].num == from && s2.icache[k].inode == Eff(s, from))
    && RecordsMoved(s, s2, -1) && forall m: nat :: m < INODES && m != n ==> Eff(s2, m) == AfterCopy(s, from, m)
  }

  lemma HoldBoth(s: Fs, from: InodeId, n: InodeId, g: Owners) returns (s2: Fs, k: nat, v: nat)
    requires Inv(s, g) && Resident(s, from) && NewFile(s, n) && n < |g.par| && from != n
    ensures Hold(s, from, false).1 == InSlot(k) && Hold(Hold(s, from, false).0, n, true) == (s2, InRow(n))
    ensures Held(s, s2, from, n, k, v, g)
  {
    hide Inv, Unseen, SameFile, AfterAdd, RecordMoved;
    k := InodeSlotOf(s.icache, from);
    var s1 := TouchInode(s, k);
    TouchInodeKeepsInv(s, k, g);
    TouchQuiet(s, k, g);
    QuietIsUnseen(s, s1, g);
    AddNew(s1, n, g);
    NoSlot(s1.icache, n);
    s2, v := AddInode(s1, n, true), Victim(InodeTimes(s1.icache));
    UnseenTwice(s, s1, s2, g);
    TouchKeepsRecords(s, k);
    RecordsMovedTwice(s, s1, s2, -1);
  }

  /** Steps that leave the inode cache alone and change one row, of an inode that is cached, are unseen. */
  lemma RowBehindCopyUnseen(s2: Fs, s': Fs, n: InodeId, v: nat, g: Owners)
    requires Inv(s2, g) && v < INODE_SLOTS && n != 0 && s2.icache[v].num == n && s2.icache[v].dirty
          && s2.itab[n].itype == FS_FILE
    requires forall j :: 0 <= j < INODE_SLOTS && j != v ==> s2.icache[j].num != n
    requires s'.icache == s2.icache && s'.itab == s2.itab[n := s'.itab[n]] && s'.itab[n].itype == s2.itab[n].itype
    requires s'.time == s2.time && s'.NumBlocks() == s2.NumBlocks() && s'.inoMap == s2.inoMap
    requires SameViewsBelow(s2.store, s'.store, |g.own|)
    ensures Unseen(s2, s', g) && Eff(s', n) == s2.icache[v].inode
    ensures RecordsMoved(s2, s', n) && forall m: nat :: m < INODES && m != n ==> Eff(s', m) == Eff(s2, m)
  {
    hide Inv, View, Content;
    assert forall m: nat, k: nat, r: Inode :: CopyOf(s', m, k, r) == CopyOf(s2, m, k, r);
    var k := InodeSlotOf(s2.icache, n);
    assert s2.icache[v].num == n;
    forall m: nat | 1 <= m < INODES ensures RecordKept(s2, s', m) {
      forall j | 0 <= j < INODE_SLOTS && s2.icache[j].num == m && CoherentAt(s2, m)
        ensures CleanAgrees(s'.icache[j], s'.itab)
      {
        assert CleanAgrees(s2.icache[j], s2.itab);
      }
      assert Eff(s', m) == Eff(s2, m) || m == n;
    }
  }

  /** The source's slot is not the one replaced, so that its record is still there to copy from. */
  predicate SourceStays(s: Fs, from: InodeId) {
    CopyVictim(s, from) != InodeSlotOf(s.icache, from)
  }

  /** What fs_copy achieves after the new file exists, and what other files then contain. */
  ghost predicate CopyDone(s: Fs, s': Fs, r: Res<()>, from: InodeId, n: InodeId, g: Owners, g': Owners) {
    && Inv(s', g') && g'.par == g.par && g.own <= g'.own && Unseen(s, s', g) && (r == Ok(()) || r == Err)
    && (r.Ok? <==> SourceStays(s, from) ==> |g.own| + BlocksFor(Eff(s, from).size) <= s.NumBlocks())
    && (r == Err ==> |g'.own| == s.NumBlocks())
    && OthersAsHeld(s, s', from, n)
    && Content(s'.store, Eff(s', n)) == []
    && (r.Ok? && SourceStays(s, from) ==>
          && Content(s'.store, s'.itab[n]) == Content(s.store, Eff(s, from))
          && UsesOwned(s'.itab[n], n, g'.own)
          && forall j: nat :: j < INODE_BLOCKS && j < BlocksFor(s'.itab[n].size) ==> s'.itab[n].blocks[j] >= |g.own|)
    && (!SourceStays(s, from) ==> s'.itab[n].size == 0)
  }

  ghost predicate OthersAsHeld(s: Fs, s': Fs, from: InodeId, n: InodeId) {
    && RecordsMoved(s, s', n) && forall m: nat :: m < INODES && m != n ==> Eff(s', m) == AfterCopy(s, from, m)
  }

  /** A step that leaves the records of others alone. */
  lemma StillAsHeld(s: Fs, s2: Fs, s': Fs, from: InodeId, n: InodeId, k: nat, v: nat, g: Owners)
    requires Held(s, s2, from, n, k, v, g) && RecordsMoved(s2, s', n)
    requires forall m: nat :: m < INODES && m != n ==> Eff(s', m) == Eff(s2, m)
    ensures OthersAsHeld(s, s', from, n)
  {
    hide Inv, Unseen, RecordMoved, Eff, AfterCopy;
    assert RecordsMoved(s, s2, n);
    RecordsMovedTwice(s, s2, s', n);
  }

  lemma EmptyContent(st: Store)
    ensures Content(st, NewInode(FS_FILE)) == []
  {
    assert |Content(st, NewInode(FS_FILE))| == 0;
  }

  /** The source's slot was the one replaced: there is nothing left to copy. */
  lemma CopyNothing(s: Fs, s2: Fs, from: InodeId, n: InodeId, k: nat, v: nat, g: Owners)
    requires Held(s, s2, from, n, k, v, g) && k == v && n != 0
    ensures var (s3, r) := CopyLoop(s2, InSlot(k), InRow(n), 0, BlocksFor(Load(s2, InSlot(k)).size));
      && (s3, r) == (s2, Ok(()))
      && CopyDone(s, Save(s3, InRow(n), Load(s3, InRow(n)).(size := Load(s3, InSlot(k)).size, itype := FS_FILE)), r,
            from, n, g, g)
  {
    hide Inv, Unseen, CopyOne, View, Content, UsesOwned;
    assert s2.itab[n := NewInode(FS_FILE)] == s2.itab;
    EmptyContent(s2.store);
    SlotHasNew(s2, n, v);
  }

  lemma SlotHasNew(s2: Fs, n: InodeId, v: nat)
    requires v < INODE_SLOTS && s2.icache[v].num == n
    requires forall j :: 0 <= j < INODE_SLOTS && j != v ==> s2.icache[j].num != n
    ensures Eff(s2, n) == s2.icache[v].inode
  {
    var k := InodeSlotOf(s2.icache, n);
  }

  lemma HeldCopying(s: Fs, s2: Fs, from: InodeId, n: InodeId, k: nat, v: nat, g: Owners)
    requires Inv(s, g) && IsFile(s, from) && Held(s, s2, from, n, k, v, g) && k != v && from != n && 1 <= n < |g.par|
    ensures Copying(s2, k, from, n, 0, BlocksFor(s2.icache[k].inode.size), g)
  {
    FileFacts(s, from, g);
    MakeBounds(s, 0, g);
    hide Inv, SameViewsBelow, RecordsKept, RecordsMoved, Eff;
  }

  /** The ordinary case: the loop ran, and the row got its size if it got through. */
  lemma CopyAll(s: Fs, s2: Fs, from: InodeId, n: InodeId, k: nat, v: nat, g: Owners) returns (g': Owners)
    requires Inv(s, g) && IsFile(s, from) && Held(s, s2, from, n, k, v, g) && k != v && from != n && 1 <= n < |g.par|
    ensures var (s3, r) := CopyLoop(s2, InSlot(k), InRow(n), 0, BlocksFor(Load(s2, InSlot(k)).size));
      var s4 := Save(s3, InRow(n), Load(s3, InRow(n)).(size := Load(s3, InSlot(k)).size, itype := FS_FILE));
      CopyDone(s, if r.Ok? then s4 else s3, r, from, n, g, g') && (r == Ok(()) || r == Err)
  {
    hide Inv, Unseen, CopyLoop, View, Content, UsesOwned, SameViewsBelow, Fits, OthersAsHeld, RecordsMoved, AfterCopy;
    var used := BlocksFor(s2.icache[k].inode.size);
    HeldCopying(s, s2, from, n, k, v, g);
    var m := CopyLoopOk(s2, k, from, n, 0, used, g);
    g' := g.(own := g.own + Places(n, 0, m));
    var (s3, r) := CopyLoop(s2, InSlot(k), InRow(n), 0, used);
    EmptyContent(s3.store);
    if r.Ok? {
      CopyFinished(s, s2, s3, from, n, k, v, used, g);
    } else {
      RowBehindCopyUnseen(s2, s3, n, v, g);
      UnseenTwice(s, s2, s3, g);
      StillAsHeld(s, s2, s3, from, n, k, v, g);
    }
  }

  lemma CopyFinished(s: Fs, s2: Fs, s3: Fs, from: InodeId, n: InodeId, k: nat, v: nat, used: nat, g: Owners)
    requires Held(s, s2, from, n, k, v, g) && k != v && Copying(s2, k, from, n, 0, used, g) && used <= INODE_BLOCKS
    requires Copied(s2, s3, k, n, 0, used, g) && |g.own| + used <= s.NumBlocks()
    ensures var s4 := Save(s3, InRow(n), Load(s3, InRow(n)).(size := Load(s3, InSlot(k)).size, itype := FS_FILE));
      CopyDone(s, s4, Ok(()), from, n, g, g.(own := g.own + Places(n, 0, used)))
  {
    hide Inv, Unseen, View, Content, UsesOwned, SameViewsBelow, Fits, OthersAsHeld, Places, RecordsMoved, Eff,
          AfterCopy;
    var g' := g.(own := g.own + Places(n, 0, used));
    FilledRow(s2, s3, k, from, n, used, g);
    var row := s3.itab[n].(size := s2.icache[k].inode.size, itype := FS_FILE);
    var s4 := Save(s3, InRow(n), row);
    SaveKeepsInv(s3, InRow(n), n, row, g');
    EmptyContent(s4.store);
    assert s4.itab == s2.itab[n := row];
    RowBehindCopyUnseen(s2, s4, n, v, g);
    UnseenTwice(s, s2, s4, g);
    StillAsHeld(s, s2, s4, from, n, k, v, g);
  }

  /**
   After the new file exists: a successful copy fills its table row with the source's size, fresh blocks and the
   source's content, unless the new inode took the source's cache slot. But readers go through the copy of the
   inode cached before the data was there: the new file reads empty. Other files are read through the records that
   holding both inodes left in use.
   */
  lemma CopyDataOk(s: Fs, from: InodeId, n: InodeId, g: Owners) returns (g': Owners)
    requires Inv(s, g) && IsFile(s, from) && Resident(s, from) && NewFile(s, n) && n < |g.par| && from != n
    ensures var (s', r) := CopyData(s, from, n); CopyDone(s, s', r, from, n, g, g')
  {
    hide Inv, Hold, CopyLoop, Held, CopyDone, IsFile, NewFile, Resident;
    var s2, k, v := HoldBoth(s, from, n, g);
    assert k < INODE_SLOTS && n != 0 by { HeldBounds(s, s2, from, n, k, v, g); }
    var (s3, r) := CopyLoop(s2, InSlot(k), InRow(n), 0, BlocksFor(Load(s2, InSlot(k)).size));
    var s4 := Save(s3, InRow(n), Load(s3, InRow(n)).(size := Load(s3, InSlot(k)).size, itype := FS_FILE));
    assert CopyData(s, from, n) == if r.Ok? then (s4, Ok(())) else (s3, r);
    if k == v {
      g' := g;
      CopyNothing(s, s2, from, n, k, v, g);
    } else {
      g' := CopyAll(s, s2, from, n, k, v, g);
    }
  }

  lemma HeldBounds(s: Fs, s2: Fs, from: InodeId, n: InodeId, k: nat, v: nat, g: Owners)
    requires Held(s, s2, from, n, k, v, g) && NewFile(s, n)
    ensures k < INODE_SLOTS && 1 <= n < INODES
  {
  }

  // ------------------------------------------------------------------ the whole call

  /** A path that is nothing but slashes makes fs_lookup succeed without an inode number. */
  predicate OnlySlashes(path: seq<byte>) {
    path != [] && path[0] == SLASH && Tokens(path) == []
  }

  /** The entry for inode n was added, with that name, to the directory the path leads to. */
  ghost predicate EntryMade(s: Fs, s': Fs, dirPart: seq<byte>, name: seq<byte>, n: nat) {
    exists dir: nat :: EntryAdded(s, s', dir, name, n) && Resolves(s.store.disk, s.itab, ROOT, Tokens(dirPart), dir)
  }

  /** What fs_copy as a whole may do to the tree a reader sees: nothing, or one more, empty, file. */
  ghost predicate CopyCall(s: Fs, s': Fs, r: Res<()>, dirPart: seq<byte>, name: seq<byte>, g: Owners, g': Owners) {
    && Inv(s', g') && g.own <= g'.own && g.par <= g'.par && (r == Ok(()) || r == Err)
    && s'.time == s.time && s'.NumBlocks() == s.NumBlocks()
    && |g'.par| <= |g.par| + 1 && (r.Ok? ==> |g'.par| == |g.par| + 1)
    && (if |g'.par| > |g.par| then EntryMade(s, s', dirPart, name, |g.par|) else SameEntries(s, s'))
    && (forall n: nat :: n != |g.par| || |g'.par| == |g.par| ==> FileSame(s, s', n))
    && (forall n: nat :: CopiesKept(s, s', n))
    && (|g'.par| > |g.par| ==> CoherentAt(s', |g.par|) && ContentOf(s', |g.par|) == Some([]))
  }

  /** The same for the map of all files, when all inodes are coherent. */
  lemma CopyCallFiles(s: Fs, s': Fs, r: Res<()>, dirPart: seq<byte>, name: seq<byte>, g: Owners, g': Owners)
    requires Inv(s, g) && Coherent(s) && CopyCall(s, s', r, dirPart, name, g, g')
    ensures Coherent(s') && Files(s') == if |g'.par| > |g.par| then Files(s)[|g.par| := []] else Files(s)
  {
    ZeroIsNoFile(s, g);
    ZeroIsNoFile(s', g');
    InvBounds(s', g');
    hide CopiesKept, Inv, CoherentAt, IsFile, Content, Eff, EntryMade, SameEntries;
    if |g'.par| == |g.par| {
      SameFiles(s, s');
    } else {
      SameButOneFile(s, s', |g.par|, []);
    }
  }

  lemma MakeTargetOk(s: Fs, dirPart: seq<byte>, name: seq<byte>, g: Owners) returns (g': Owners)
    requires Inv(s, g) && IsCString(name) && !OnlySlashes(dirPart)
    ensures var (s', r) := MakeTarget(s, dirPart, name);
      && Inv(s', g') && g.own <= g'.own && g.par <= g'.par && !r.Abort?
      && s'.time == s.time && s'.NumBlocks() == s.NumBlocks() && s'.icache == s.icache
      && (r.Err? ==> g' == g && Files(s') == Files(s) && SameEntries(s, s'))
      && (r.Ok? ==>
            && r.value == |g.par| && |g'.par| == |g.par| + 1 && EntryMade(s, s', dirPart, name, r.value)
            && NewFile(s', r.value) && Files(s') == Files(s)[r.value := []])
      && (forall n: nat :: CoherentAt(s, n) || (r.Ok? && n == r.value) ==> CoherentAt(s', n))
      && (forall n: nat :: CopiesKept(s, s', n))
  {
    hide Inv, FsLookup, MakeNode, Quiet, Files, CoherentAt, Resolves, IsEntry, LoadTable, EntryAdded, SameEntries,
          EntryMade, CopiesKept;
    LookupSound(s, dirPart, g);
    var (s1, l) := FsLookup(s, dirPart);
    PagesOnlyQuiet(s, s1, g);
    PagesOnlyFiles(s, s1);
    QuietKeepsEntries(s, s1, g);
    UnchangedTables(s, s1);
    if l.Found? {
      g' := MakeNodeOk(s1, l.id, name, FS_FILE, g);
      var (s2, r) := MakeNode(s1, l.id, name, FS_FILE);
      forall n: nat ensures CopiesKept(s, s2, n) {
        QuietCopies(s, s1, n, g);
        if r.Err? { QuietCopies(s1, s2, n, g); }
        CopiesKeptTwice(s, s1, s2, n);
      }
      if r.Err? {
        PagesOnlyFiles(s1, s2);
        QuietKeepsEntries(s1, s2, g);
        SameEntriesTwice(s, s1, s2);
        UnchangedTables(s1, s2);
      } else {
        AddedSince(s, s1, s2, l.id, name, |g.par|);
        EntryMadeBy(s, s2, dirPart, name, |g.par|, l.id);
      }
    } else {
      g' := g;
      forall n: nat ensures CopiesKept(s, s1, n) { QuietCopies(s, s1, n, g); }
    }
  }

  lemma EntryMadeBy(s: Fs, s': Fs, dirPart: seq<byte>, name: seq<byte>, n: nat, dir: nat)
    requires EntryAdded(s, s', dir, name, n) && Resolves(s.store.disk, s.itab, ROOT, Tokens(dirPart), dir)
    ensures EntryMade(s, s', dirPart, name, n)
  {
    hide Resolves, EntryAdded;
  }

  lemma EntryMadeThen(s: Fs, s1: Fs, s2: Fs, dirPart: seq<byte>, name: seq<byte>, n: nat)
    requires EntryMade(s, s1, dirPart, name, n) && SameEntries(s1, s2)
    ensures EntryMade(s, s2, dirPart, name, n)
  {
    hide Resolves, IsEntry;
    var dir: nat :| EntryAdded(s, s1, dir, name, n) && Resolves(s.store.disk, s.itab, ROOT, Tokens(dirPart), dir);
    assert EntryAdded(s, s2, dir, name, n);
  }

  lemma {:induction false} ResolvesSame(s: Fs, s1: Fs, d: nat, names: seq<seq<byte>>, m: nat)
    requires SameEntries(s, s1)
    ensures Resolves(s1.store.disk, s1.itab, d, names, m) ==> Resolves(s.store.disk, s.itab, d, names, m)
    decreases |names|
  {
    hide IsEntry;
    if names != [] && Resolves(s1.store.disk, s1.itab, d, names, m) {
      var x: nat :| IsEntry(s1.store.disk, s1.itab, d, names[0], x)
            && Resolves(s1.store.disk, s1.itab, x, names[1..], m);
      ResolvesSame(s, s1, x, names[1..], m);
      assert IsEntry(s.store.disk, s.itab, d, names[0], x);
    }
  }

  lemma ThenEntryMade(s: Fs, s1: Fs, s2: Fs, dirPart: seq<byte>, name: seq<byte>, n: nat)
    requires SameEntries(s, s1) && EntryMade(s1, s2, dirPart, name, n)
    ensures EntryMade(s, s2, dirPart, name, n)
  {
    hide Resolves, IsEntry;
    var dir: nat :| EntryAdded(s1, s2, dir, name, n) && Resolves(s1.store.disk, s1.itab, ROOT, Tokens(dirPart), dir);
    assert EntryAdded(s, s2, dir, name, n);
    ResolvesSame(s, s1, ROOT, Tokens(dirPart), dir);
  }

  lemma FileInMap(s: Fs, n: nat)
    requires n < INODES
    ensures n in Files(s) <==> IsFile(s, n)
    ensures n in Files(s) ==> Files(s)[n] == Content(s.store, Eff(s, n))
  {
  }

  /** With the target created in state s2, the data step is all that is left. */
  lemma CopyAfterTarget(s: Fs, s2: Fs, from: InodeId, n: InodeId, dirPart: seq<byte>, name: seq<byte>, g: Owners,
        g2: Owners) returns (g': Owners)
    requires Inv(s, g) && IsFile(s, from) && Resident(s, from)
    requires Inv(s2, g2) && g.own <= g2.own && g.par <= g2.par && |g2.par| == |g.par| + 1
    requires s2.time == s.time && s2.NumBlocks() == s.NumBlocks() && s2.icache == s.icache
    requires EntryMade(s, s2, dirPart, name, n)
    requires n == |g.par| && NewFile(s2, n) && Files(s2) == Files(s)[n := []]
    requires forall m: nat :: CoherentAt(s, m) || m == n ==> CoherentAt(s2, m)
    requires forall m: nat :: CopiesKept(s, s2, m)
    ensures Content(s2.store, Eff(s2, from)) == Content(s.store, Eff(s, from))
    ensures var (s', r) := CopyData(s2, from, n);
      && CopyDone(s2, s', r, from, n, g2, g') && CopyCall(s, s', r, dirPart, name, g, g')
      && ContentOf(s', n) == Some([]) && forall m: nat :: m != n ==> ContentOf(s', m) == SeenAfterCopy(s2, from, m)
  {
    hide Inv, CopyData, Files, CoherentAt, Eff, Content, Resident, NewFile, View, UsesOwned, FileSame, EntryMade,
          SameEntries, IsFileBlock, CopiesKept, ContentOf, OthersAsHeld, Unseen, IsFile, SourceStays, SeenAfterCopy;
    FileFacts(s, from, g);
    FileInMap(s, from);
    FileInMap(s2, from);
    assert Resident(s2, from) by { SameCacheSameResidents(s, s2, from); }
    g' := CopyDataOk(s2, from, n, g2);
    UnseenFiles(s2, CopyData(s2, from, n).0, g2);
    TargetFiles(s, s2, CopyData(s2, from, n).0, n);
    HeldSeen(s2, CopyData(s2, from, n).0, from, n, g2);
    forall m: nat ensures CopiesKept(s, CopyData(s2, from, n).0, m) {
      NewIsNoFile(s, n, g);
      if m == n { NoFileKeeps(s, CopyData(s2, from, n).0, m); }
      else { CopiesKeptTwice(s, s2, CopyData(s2, from, n).0, m); }
    }
    UnseenTimes(s2, CopyData(s2, from, n).0, g2);
    UnseenKeepsEntries(s2, CopyData(s2, from, n).0, g2, g');
    EntryMadeThen(s, s2, CopyData(s2, from, n).0, dirPart, name, n);
  }

  lemma NewIsNoFile(s: Fs, n: nat, g: Owners)
    requires Inv(s, g) && n == |g.par|
    ensures !IsFile(s, n)
  {
    if n < INODES { FileFacts(s, n, g); }
  }

  lemma NoFileKeeps(s: Fs, s': Fs, m: nat)
    requires !IsFile(s, m)
    ensures CopiesKept(s, s', m)
  {
  }

  lemma UnseenTimes(s: Fs, s': Fs, g: Owners)
    requires Unseen(s, s', g)
    ensures s'.time == s.time && s'.NumBlocks() == s.NumBlocks()
  {
  }

  /** What the data step makes of files other than the new one. */
  lemma HeldSeen(s: Fs, s': Fs, from: InodeId, n: InodeId, g: Owners)
    requires Inv(s, g) && Resident(s, from) && Unseen(s, s', g) && OthersAsHeld(s, s', from, n)
    ensures forall m: nat :: m != n ==> ContentOf(s', m) == SeenAfterCopy(s, from, m) && CopiesKept(s, s', m)
  {
    hide Inv, SameViewsBelow, Content, Eff, RecordOf, RecordsKept, AfterCopy, CopiesKept;
    forall m: nat | m != n ensures ContentOf(s', m) == SeenAfterCopy(s, from, m) && CopiesKept(s, s', m) {
      if m < INODES {
        AfterCopyIsRecord(s, from, m);
        SeenThrough(s, s', m, AfterCopy(s, from, m), g);
        if m == 0 { NoFileNoCopies(s, s', m, g); } else { CopiesByViews(s, s', m, g); }
      } else {
        NoFileNoCopies(s, s', m, g);
      }
    }
  }

  lemma AfterCopyIsRecord(s: Fs, from: InodeId, m: nat)
    requires Resident(s, from) && m < INODES
    ensures RecordOf(s, m, AfterCopy(s, from, m))
  {
    hide RecordOf, AfterAdd;
    var s1 := Hold(s, from, false).0;
    AfterAddIsRecord(s1, m);
    TouchMovesRecords(s, InodeSlotOf(s.icache, from), m);
  }

  /** The new file is there and empty, the others are as they were. */
  lemma TargetFiles(s: Fs, s2: Fs, s': Fs, n: nat)
    requires 1 <= n < INODES && Files(s2) == Files(s)[n := []]
    requires forall m: nat :: CoherentAt(s, m) || m == n ==> CoherentAt(s2, m)
    requires forall m: nat :: FileSame(s2, s', m)
    ensures forall m: nat :: m != n ==> FileSame(s, s', m)
    ensures CoherentAt(s', n) && ContentOf(s', n) == Some([])
  {
    hide CoherentAt, IsFile, Content, Eff, Files;
    assert ContentOf(s2, n) == Some([]) by { FileInMap(s2, n); }
    forall m: nat | 1 <= m < INODES && m != n ensures FileSame(s, s', m) {
      FileInMap(s, m);
      FileInMap(s2, m);
      assert FileSame(s2, s', m);
    }
    assert FileSame(s2, s', n);
  }

  lemma UnseenKeepsEntries(s: Fs, s': Fs, g: Owners, g': Owners)
    requires Inv(s, g) && Inv(s', g') && Unseen(s, s', g)
    ensures SameEntries(s, s')
  {
    hide Inv, View, RecordsKept, RecordsMoved;
    EntriesByViews(s, s', g, g');
  }

  lemma UnseenKeepsMeta(s: Fs, s': Fs, g: Owners, g': Owners)
    requires Inv(s, g) && Inv(s', g') && Unseen(s, s', g)
    ensures MetaKept(s, s')
  {
    InvBounds(s, g);
    hide Inv, View, RecordsKept, RecordsMoved;
    MetaByViews(s, s', g, g');
  }

  lemma SameCacheSameResidents(s: Fs, s2: Fs, n: nat)
    requires s2.icache == s.icache && Resident(s, n)
    ensures Resident(s2, n)
  {
  }

  /** All that CopyInto does from state s on. */
  ghost predicate CopiedInto(s: Fs, s': Fs, r: Res<()>, from: InodeId, dirPart: seq<byte>, name: seq<byte>, g2: Owners,
        g': Owners)
  {
    var (s2, made) := MakeTarget(s, dirPart, name);
    if made.Ok? then
      && made.value < INODES && Inv(s2, g2) && CopyDone(s2, s', r, from, made.value, g2, g')
      && Content(s2.store, Eff(s2, from)) == Content(s.store, Eff(s, from))
      && ContentOf(s', made.value) == Some([])
      && forall m: nat :: m != made.value ==> ContentOf(s', m) == SeenAfterCopy(s2, from, m)
    else
      r == Err && forall m: nat :: ContentOf(s', m) == ContentOf(s, m)
  }

  lemma CopyIntoOk(s: Fs, from: InodeId, dirPart: seq<byte>, name: seq<byte>, g: Owners) returns (g2: Owners,
        g': Owners)
    requires Inv(s, g) && IsCString(name) && !OnlySlashes(dirPart) && IsFile(s, from) && Resident(s, from)
    ensures var (s', r) := CopyInto(s, from, dirPart, name);
      CopyCall(s, s', r, dirPart, name, g, g') && CopiedInto(s, s', r, from, dirPart, name, g2, g')
  {
    hide Inv, MakeTarget, CopyData, Files, CoherentAt, CopyDone, Eff, Content, Resident, NewFile, IsFile, EntryMade,
          SameEntries, CopiesKept, SeenAfterCopy;
    g2 := MakeTargetOk(s, dirPart, name, g);
    var (s2, made) := MakeTarget(s, dirPart, name);
    if made.Ok? {
      var n: nat := made.value;
      assert n < INODES by { NewFileBound(s2, n); }
      g' := CopyAfterTarget(s, s2, from, n, dirPart, name, g, g2);
    } else {
      g' := g;
      SameMapSameFiles(s, s2);
    }
  }

  lemma SameMapSameFiles(s: Fs, s': Fs)
    requires Files(s') == Files(s) && forall n: nat :: CoherentAt(s, n) ==> CoherentAt(s', n)
    ensures forall n: nat :: FileSame(s, s', n) && ContentOf(s', n) == ContentOf(s, n)
  {
    hide CoherentAt, Content, Eff, Files;
    forall n: nat | n < INODES ensures ContentOf(s', n) == ContentOf(s, n) {
      FileInMap(s, n);
      FileInMap(s', n);
    }
  }

  lemma NewFileBound(s: Fs, n: nat)
    requires NewFile(s, n)
    ensures 1 <= n < INODES
  {
  }

  /** The attributes step makes the source's inode resident. */
  lemma CopySource(s: Fs, id: nat, g: Owners)
    requires Inv(s, g) && 1 <= id < |g.par|
    ensures id < INODES && var (s2, a) := FsGetAttrs(s, id);
      && Quiet(s, s2, g) && a.Ok? && (a.value.itype == FS_FILE ==> IsFile(s2, id) && Resident(s2, id))
  {
    GetAttrsOk(s, id, g);
    InvBounds(s, g);
    FileFacts(s, id, g);
    hide Inv, RecordsKept, RecordsMoved, SameViewsBelow, Resident;
  }

  /**
   Where fs_copy leaves the defined behaviour of the program: it goes on with a variable never set after a path of
   slashes, or writes a target that is too long behind its two buffers.
   */
  predicate CopyFaults(s: Fs, srcPath: seq<byte>, tgtPath: seq<byte>) {
    var l := FsLookup(s, srcPath).1;
    || OnlySlashes(srcPath)
    || (l.Found? && l.id < INODES && s.itab[l.id].itype == FS_FILE && LastSlash(tgtPath).Some?
        && (!TargetFits(tgtPath) || OnlySlashes(DirPart(tgtPath))))
  }

  /** The half behind the source's attributes. */
  lemma CopyFromSource(s: Fs, s2: Fs, id: InodeId, tgtPath: seq<byte>, p: nat, g: Owners) returns (g': Owners)
    requires Inv(s, g) && Quiet(s, s2, g) && IsCString(tgtPath) && IsFile(s2, id) && Resident(s2, id)
    requires LastSlash(tgtPath) == Some(p)
    ensures var (s', r) := CopyInto(s2, id, tgtPath[..p], tgtPath[p + 1..]);
      && (r == Abort <==> OnlySlashes(tgtPath[..p])) && Inv(s', g')
      && (r != Abort ==> CopyCall(s, s', r, DirPart(tgtPath), FileName(tgtPath), g, g'))
  {
    hide Inv, CopyInto, Quiet, IsFile, Resident, CopyCall;
    QuietInv(s, s2, g);
    if OnlySlashes(tgtPath[..p]) {
      g' := g;
      TargetOfSlashes(s2, id, tgtPath[..p], tgtPath[p + 1..]);
    } else {
      var g2;
      g2, g' := CopyIntoOk(s2, id, tgtPath[..p], tgtPath[p + 1..], g);
      var (s', r) := CopyInto(s2, id, tgtPath[..p], tgtPath[p + 1..]);
      CopyCallEnds(s2, s', r, tgtPath[..p], tgtPath[p + 1..], g, g');
      QuietThenCopy(s, s2, s', r, tgtPath[..p], tgtPath[p + 1..], g, g');
    }
  }

  lemma TargetOfSlashes(s: Fs, from: InodeId, dirPart: seq<byte>, name: seq<byte>)
    requires OnlySlashes(dirPart)
    ensures CopyInto(s, from, dirPart, name) == (s, Abort)
  {
    hide CopyData;
  }

  lemma CopyCallEnds(s: Fs, s': Fs, r: Res<()>, dirPart: seq<byte>, name: seq<byte>, g: Owners, g': Owners)
    requires CopyCall(s, s', r, dirPart, name, g, g')
    ensures r != Abort && Inv(s', g')
  {
  }

  /**
   fs_copy leaves the defined behaviour exactly where CopyFaults says, and never its arrays otherwise. For a reader its
   whole effect on coherent inodes, success or not, is then at most one more empty file.
   */
  lemma CopyOk(s: Fs, srcPath: seq<byte>, tgtPath: seq<byte>, g: Owners) returns (g': Owners)
    requires Inv(s, g) && IsCString(tgtPath)
    ensures var (s', r) := FsCopy(s, srcPath, tgtPath);
      && (r == Abort <==> CopyFaults(s, srcPath, tgtPath)) && Inv(s', g')
      && (r != Abort ==> CopyCall(s, s', r, DirPart(tgtPath), FileName(tgtPath), g, g'))
  {
    hide Inv, FsLookup, FsGetAttrs, CopyInto, Quiet, Resolves, IsFile, Resident, CopyCall, TargetFits, OnlySlashes;
    LookupSound(s, srcPath, g);
    assert FsLookup(s, srcPath).1 == RootOnly <==> OnlySlashes(srcPath) by { RootOnlyIff(s, srcPath); }
    g' := g;
    var (s1, l) := FsLookup(s, srcPath);
    PagesOnlyQuiet(s, s1, g);
    QuietCall(s, s1, tgtPath, g);
    if l.Found? {
      CopySource(s1, l.id, g);
      var (s2, a) := FsGetAttrs(s1, l.id);
      QuietTwice(s, s1, s2, g);
      QuietCall(s, s2, tgtPath, g);
      QuietInv(s, s2, g);
      SourceType(s1, l.id, g);
      var p := LastSlash(tgtPath);
      if a.value.itype == FS_FILE && p.Some? && TargetFits(tgtPath) {
        g' := CopyFromSource(s, s2, l.id, tgtPath, p.value, g);
      }
    }
  }

  lemma RootOnlyIff(s: Fs, path: seq<byte>)
    ensures FsLookup(s, path).1 == RootOnly <==> OnlySlashes(path)
  {
    LookupIsNotRootOnly(s, ROOT, Tokens(path));
  }

  lemma SourceType(s: Fs, id: nat, g: Owners)
    requires Inv(s, g) && 1 <= id < |g.par|
    ensures id < INODES && FsGetAttrs(s, id).1.Ok? && FsGetAttrs(s, id).1.value.itype == s.itab[id].itype
  {
    GetAttrsOk(s, id, g);
    InvBounds(s, g);
  }

  /**
   A target directly in the root is always refused: its directory part is the empty path. The source's inode has been
   looked up all the same.
   */
  lemma CopyIntoRootFails(s: Fs, srcPath: seq<byte>, name: seq<byte>, g: Owners)
    requires Inv(s, g) && IsCString(name) && SLASH !in name && |name| < NAME_SIZE && !OnlySlashes(srcPath)
    ensures var ((s', r), l) := (FsCopy(s, srcPath, [SLASH] + name), FsLookup(s, srcPath).1);
      && r == Err && Quiet(s, s', g)
      && forall m: nat :: ContentOf(s', m) == if l.Found? then SeenAfter(s, l.id, m) else ContentOf(s, m)
  {
    hide Inv, FsLookup, FsGetAttrs, Quiet, Resolves, IsFile, Resident, OnlySlashes, ContentOf, SeenAfter;
    var tgtPath := [SLASH] + name;
    SlashFirst(name);
    LookupSound(s, srcPath, g);
    RootOnlyIff(s, srcPath);
    var (s1, l) := FsLookup(s, srcPath);
    PagesOnlyQuiet(s, s1, g);
    PagesSeen(s, s1, 0);
    if l.Found? {
      SourceSeen(s, s1, l.id, g);
      CopySource(s1, l.id, g);
      QuietTwice(s, s1, FsGetAttrs(s1, l.id).0, g);
      assert tgtPath[..0] == [];
      NoSuchTarget(FsGetAttrs(s1, l.id).0, l.id, name);
    }
  }

  lemma NoSuchTarget(s: Fs, from: InodeId, name: seq<byte>)
    ensures CopyInto(s, from, [], name) == (s, Err)
  {
  }

  /** The only slash of the path is its first byte. */
  lemma SlashFirst(name: seq<byte>)
    requires SLASH !in name
    ensures LastSlash([SLASH] + name) == Some(0) && ([SLASH] + name)[1..] == name
  {
    var path := [SLASH] + name;
    var p := LastSlash(path);
    assert path[0] == SLASH;
    assert forall i :: 1 <= i < |path| ==> path[i] == name[i - 1];
  }

  lemma QuietCall(s: Fs, s1: Fs, tgtPath: seq<byte>, g: Owners)
    requires Inv(s, g) && Quiet(s, s1, g)
    ensures CopyCall(s, s1, Err, DirPart(tgtPath), FileName(tgtPath), g, g)
  {
    QuietKeepsEntries(s, s1, g);
    QuietFiles(s, s1, g);
    forall n: nat ensures CopiesKept(s, s1, n) { QuietCopies(s, s1, n, g); }
    hide CopiesKept, Inv, FileSame, SameViewsBelow, SameEntries, EntryMade;
  }

  lemma QuietThenCopy(s: Fs, s1: Fs, s2: Fs, r: Res<()>, dirPart: seq<byte>, name: seq<byte>, g: Owners, g': Owners)
    requires Inv(s, g) && Quiet(s, s1, g) && CopyCall(s1, s2, r, dirPart, name, g, g')
    ensures CopyCall(s, s2, r, dirPart, name, g, g')
  {
    hide Inv, FileSame, SameViewsBelow, SameEntries, EntryMade, RecordsKept, RecordsMoved, CopiesKept;
    QuietKeepsEntries(s, s1, g);
    QuietFiles(s, s1, g);
    forall n: nat ensures CopiesKept(s, s2, n) {
      QuietCopies(s, s1, n, g);
      CopiesKeptTwice(s, s1, s2, n);
    }
    FilesSameTwice(s, s1, s2, if |g'.par| > |g.par| then |g.par| else -1);
    if |g'.par| > |g.par| {
      ThenEntryMade(s, s1, s2, dirPart, name, |g.par|);
    } else {
      SameEntriesTwice(s, s1, s2);
    }
  }

  // ------------------------------------------------------------------ what files contain after fs_copy

  /** How far fs_copy gets before it moves data: Target holds the state in which both inodes exist. */
  datatype CopyProgress = NoSource | NoTarget(source: nat) | Target(state: Fs, from: InodeId, to: nat)

  function Progress(s: Fs, srcPath: seq<byte>, tgtPath: seq<byte>): CopyProgress {
    var (s1, l) := FsLookup(s, srcPath);
    if !l.Found? then NoSource
    else
      var (s2, a) := FsGetAttrs(s1, l.id);
      if !a.Ok? || a.value.itype != FS_FILE || l.id >= INODES || LastSlash(tgtPath).None? || !TargetFits(tgtPath) then
        NoTarget(l.id)
      else
        var (s3, made) := MakeTarget(s2, DirPart(tgtPath), FileName(tgtPath));
        if made.Ok? then Target(s3, l.id, made.value) else NoTarget(l.id)
  }

  /** What file m contains after fs_copy: each inode it brings in can push out a copy of m. */
  function CopySeen(s: Fs, p: CopyProgress, m: nat): Option<seq<byte>> {
    match p
    case NoSource => ContentOf(s, m)
    case NoTarget(source) => SeenAfter(s, source, m)
    case Target(state, from, to) => if m == to then Some([]) else SeenAfterCopy(state, from, m)
  }

  /** Once both inodes exist only the size of the disk can fail a copy whose source is still cached. */
  ghost predicate CopySucceeds(p: CopyProgress, g: Owners) {
    p.Target? && (SourceStays(p.state, p.from) ==>
      |g.own| + BlocksFor(Eff(p.state, p.from).size) <= p.state.NumBlocks())
  }

  lemma PagesSeen(s: Fs, s1: Fs, n: nat)
    requires PagesOnly(s, s1)
    ensures forall m: nat :: ContentOf(s1, m) == ContentOf(s, m) && SeenAfter(s1, n, m) == SeenAfter(s, n, m)
  {
  }

  /** The attributes step of a copy, seen from before the lookup of the source. */
  lemma SourceSeen(s: Fs, s1: Fs, id: nat, g: Owners)
    requires Inv(s1, g) && PagesOnly(s, s1) && 1 <= id < |g.par|
    ensures id < INODES && var s2 := FsGetAttrs(s1, id).0;
      forall m: nat :: ContentOf(s2, m) == SeenAfter(s, id, m)
  {
    hide Inv, FsGetAttrs, ContentOf, SeenAfter;
    PagesSeen(s, s1, id);
    GetAttrsOk(s1, id, g);
    InvBounds(s1, g);
    var s2 := FsGetAttrs(s1, id).0;
    assert forall m: nat :: ContentOf(s2, m) == SeenAfter(s1, id, m);
  }

  /**
   What every file, coherent or not, contains after fs_copy, and exactly when fs_copy succeeds. One that fails for want
   of blocks leaves the new file there, empty, and no block free.
   */
  lemma CopyShows(s: Fs, srcPath: seq<byte>, tgtPath: seq<byte>, g: Owners) returns (g2: Owners)
    requires Inv(s, g) && IsCString(tgtPath)
    ensures var ((s', r), p) := (FsCopy(s, srcPath, tgtPath), Progress(s, srcPath, tgtPath));
      r != Abort ==>
        && (forall m: nat :: ContentOf(s', m) == CopySeen(s, p, m))
        && (p.Target? ==> Inv(p.state, g2)) && (r.Ok? <==> CopySucceeds(p, g2))
        && (p.Target? && r == Err ==> FindFree(s'.blkMap, 0, s'.NumBlocks()).None?)
  {
    hide Inv, FsLookup, FsGetAttrs, CopyInto, MakeTarget, Quiet, Resolves, IsFile, Resident, CopyCall, TargetFits,
          OnlySlashes, ContentOf, SeenAfter, SeenAfterCopy;
    LookupSound(s, srcPath, g);
    g2 := g;
    var (s1, l) := FsLookup(s, srcPath);
    PagesSeen(s, s1, 0);
    if l.Found? {
      SourceSeen(s, s1, l.id, g);
      CopySource(s1, l.id, g);
      var (s2, a) := FsGetAttrs(s1, l.id);
      QuietInv(s1, s2, g);
      var p := LastSlash(tgtPath);
      if a.value.itype == FS_FILE && p.Some? && TargetFits(tgtPath) {
        g2 := IntoShows(s2, l.id, DirPart(tgtPath), FileName(tgtPath), g);
      }
    }
  }

  /** The half behind the source's attributes. */
  lemma IntoShows(s: Fs, from: InodeId, dirPart: seq<byte>, name: seq<byte>, g: Owners) returns (g2: Owners)
    requires Inv(s, g) && IsCString(name) && IsFile(s, from) && Resident(s, from)
    ensures var ((s', r), (s3, made)) := (CopyInto(s, from, dirPart, name), MakeTarget(s, dirPart, name));
      r != Abort ==>
        if made.Ok? then
          && (forall m: nat :: ContentOf(s', m) == CopySeen(s, Target(s3, from, made.value), m))
          && Inv(s3, g2) && (r.Ok? <==> CopySucceeds(Target(s3, from, made.value), g2))
          && (r == Err ==> FindFree(s'.blkMap, 0, s'.NumBlocks()).None?)
        else
          r == Err && forall m: nat :: ContentOf(s', m) == ContentOf(s, m)
  {
    hide Inv, CopyInto, MakeTarget, IsFile, Resident, OnlySlashes, ContentOf, SeenAfterCopy, CopyCall, Content, Eff,
          UsesOwned, Unseen, OthersAsHeld, SourceStays;
    g2 := g;
    if OnlySlashes(dirPart) {
      TargetOfSlashes(s, from, dirPart, name);
    } else {
      var g';
      g2, g' := CopyIntoOk(s, from, dirPart, name, g);
      var (s', r) := CopyInto(s, from, dirPart, name);
      if MakeTarget(s, dirPart, name).1.Ok? && r == Err { CopyFilled(s, s', r, from, dirPart, name, g2, g'); }
    }
  }

  lemma CopyFilled(s: Fs, s': Fs, r: Res<()>, from: InodeId, dirPart: seq<byte>, name: seq<byte>, g2: Owners,
        g': Owners)
    requires CopiedInto(s, s', r, from, dirPart, name, g2, g') && MakeTarget(s, dirPart, name).1.Ok? && r == Err
    ensures FindFree(s'.blkMap, 0, s'.NumBlocks()).None?
  {
    hide Inv, MakeTarget, OthersAsHeld, Content, Eff, SeenAfterCopy, ContentOf, UsesOwned, SourceStays;
    NextFreeBlock(s', g');
    hide SameViewsBelow, RecordsKept;
  }

  /**
   What a successful copy is worth: its table row duplicates the source exactly if the new inode did not replace the
   source's cached copy or the source is empty. What readers see of the new file equals the source exactly if that is
   empty.
   */
  lemma CopyReadsBackIff(s: Fs, srcPath: seq<byte>, tgtPath: seq<byte>, g: Owners)
    requires Inv(s, g) && IsCString(tgtPath) && FsCopy(s, srcPath, tgtPath).1.Ok?
    ensures var (s', p) := (FsCopy(s, srcPath, tgtPath).0, Progress(s, srcPath, tgtPath));
      && p.Target? && p.to < INODES && FsLookup(s, srcPath).1 == Found(p.from) && IsFile(s, p.from)
      && IsFile(s', p.to)
      && var c := Content(s.store, Eff(s, p.from));
         && (Content(s'.store, s'.itab[p.to]) == c <==> SourceStays(p.state, p.from) || c == [])
         && (ContentOf(s', p.to) == Some(c) <==> c == [])
  {
    hide Inv, FsLookup, FsGetAttrs, CopyInto, MakeTarget, Quiet, Resolves, Resident, CopyCall, OnlySlashes, SeenAfter,
          SeenAfterCopy, Content, Eff, SourceStays;
    LookupSound(s, srcPath, g);
    var (s1, l) := FsLookup(s, srcPath);
    CopySource(s1, l.id, g);
    SourceSeen(s, s1, l.id, g);
    var (s2, a) := FsGetAttrs(s1, l.id);
    QuietInv(s1, s2, g);
    SourceContent(s, s1, s2, l.id, g);
    IntoReadsBackIff(s2, l.id, DirPart(tgtPath), FileName(tgtPath), g);
  }

  lemma SourceContent(s: Fs, s1: Fs, s2: Fs, id: nat, g: Owners)
    requires PagesOnly(s, s1) && id < INODES && IsFile(s2, id)
    requires ContentOf(s2, id) == SeenAfter(s, id, id)
    ensures IsFile(s, id) && Content(s2.store, Eff(s2, id)) == Content(s.store, Eff(s, id))
  {
    hide Content, Eff;
  }

  lemma IntoReadsBackIff(s: Fs, from: InodeId, dirPart: seq<byte>, name: seq<byte>, g: Owners)
    requires Inv(s, g) && IsCString(name) && IsFile(s, from) && Resident(s, from)
    requires CopyInto(s, from, dirPart, name).1.Ok?
    ensures var (s', (s3, made)) := (CopyInto(s, from, dirPart, name).0, MakeTarget(s, dirPart, name));
      && made.Ok? && made.value < INODES && IsFile(s', made.value)
      && var c := Content(s.store, Eff(s, from));
         && (Content(s'.store, s'.itab[made.value]) == c <==> SourceStays(s3, from) || c == [])
         && (ContentOf(s', made.value) == Some(c) <==> c == [])
  {
    hide Inv, MakeTarget, CopyInto, Files, CoherentAt, Eff, Content, Resident, SourceStays, Unseen, UsesOwned,
          OnlySlashes;
    if OnlySlashes(dirPart) {
      TargetOfSlashes(s, from, dirPart, name);
    } else {
      var g2, g' := CopyIntoOk(s, from, dirPart, name, g);
      SizeZeroIsEmpty(CopyInto(s, from, dirPart, name).0, MakeTarget(s, dirPart, name).1.value);
    }
  }

  lemma SizeZeroIsEmpty(s: Fs, n: nat)
    requires n < INODES
    ensures s.itab[n].size == 0 ==> Content(s.store, s.itab[n]) == []
  {
    assert |Content(s.store, s.itab[n])| == s.itab[n].size;
  }
}
