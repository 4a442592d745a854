/**
 The inode a call works with: the first cached copy, else the table row. What replacing a cached inode makes of it is
 exact for every inode; as long as an inode has one copy and a clean copy agrees with the table, it is invisible.
 */
module FsCoherence {
  import opened Bitmap
  import opened Slots
  import opened FsState
  import opened FsTree
  import opened FsInv
  import opened FsContent
  import opened FsAlloc
  import opened FsWriting

  /** What find_inode_in_cache or else the table gives for inode n. */
  function Eff(s: Fs, n: nat): Inode
    requires n < INODES
  {
    var k := InodeSlotOf(s.icache, n);
    if k < INODE_SLOTS then s.icache[k].inode else s.itab[n]
  }

  predicate Resident(s: Fs, n: nat) {
    InodeSlotOf(s.icache, n) < INODE_SLOTS
  }

  ghost predicate OneCopy(c: InodeCache, n: nat) {
    forall j, k :: 0 <= j < k < INODE_SLOTS && c[k].num == n ==> c[j].num != n
  }

  ghost predicate CleanAgrees(c: InodeSlot, itab: InodeTable) {
    itab[c.num].itype == FS_FILE && !c.dirty ==> SameFile(c.inode, itab[c.num])
  }

  /** Inode n has at most one cached copy, and a clean copy of a file agrees with the table. */
  ghost predicate CoherentAt(s: Fs, n: nat) {
    && OneCopy(s.icache, n)
    && forall k :: 0 <= k < INODE_SLOTS && s.icache[k].num == n ==> CleanAgrees(s.icache[k], s.itab)
  }

  ghost predicate Coherent(s: Fs) {
    forall n: nat :: 1 <= n < INODES ==> CoherentAt(s, n)
  }

  /** A coherent inode stays coherent, and a file reads through the same record, up to entries behind its end. */
  ghost predicate RecordKept(s: Fs, s': Fs, n: nat)
    requires n < INODES
  {
    CoherentAt(s, n) ==> CoherentAt(s', n) && (s.itab[n].itype == FS_FILE ==> SameFile(Eff(s, n), Eff(s', n)))
  }

  /** Record r of inode n: its table row or a cached copy. */
  ghost predicate RecordOf(s: Fs, n: nat, r: Inode) {
    n < INODES && (r == s.itab[n] || exists k: nat :: CopyOf(s, n, k, r))
  }

  predicate CopyOf(s: Fs, n: nat, k: nat, r: Inode) {
    k < INODE_SLOTS && s.icache[k].num == n && s.icache[k].inode == r
  }

  ghost predicate RecordsKept(s: Fs, s': Fs) {
    forall n: nat :: 1 <= n < INODES ==> RecordKept(s, s', n)
  }

  /** Copies of inode n came and went, but no new record of it was made. */
  ghost predicate RecordMoved(s: Fs, s': Fs, n: nat) {
    forall r: Inode :: RecordOf(s', n, r) ==> RecordOf(s, n, r)
  }

  /** The same for all inodes but one. */
  ghost predicate RecordsMoved(s: Fs, s': Fs, but: int) {
    forall n: nat :: 1 <= n < INODES && n != but ==> RecordMoved(s, s', n)
  }

  lemma EffIsRecord(s: Fs, n: nat)
    requires n < INODES
    ensures RecordOf(s, n, Eff(s, n))
  {
    assert Resident(s, n) ==> CopyOf(s, n, InodeSlotOf(s.icache, n), Eff(s, n));
  }

  lemma SlotOfUnique(c: InodeCache, k: nat)
    requires k < INODE_SLOTS && OneCopy(c, c[k].num)
    ensures InodeSlotOf(c, c[k].num) == k
  {
    var nums := InodeNums(c);
    assert forall j :: 0 <= j < |nums| && j != k ==> nums[j] != nums[k];
    FindUnique(nums, k);
  }

  lemma NoSlot(c: InodeCache, n: nat)
    requires forall k :: 0 <= k < INODE_SLOTS ==> c[k].num != n
    ensures InodeSlotOf(c, n) == INODE_SLOTS
  {
    var k := InodeSlotOf(c, n);
  }

  // ------------------------------------------------------------------ what replacing the oldest slot does to any inode

  /** The first copy of inode n, the one in use, is in the slot replaced next. */
  predicate PushedOut(s: Fs, n: nat) {
    InodeSlotOf(s.icache, n) == Victim(InodeTimes(s.icache))
  }

  /** The record in use once the first copy is gone: the next, else the row, written back if that copy was dirty. */
  function LeftBehind(s: Fs, n: nat): Inode
    requires n < INODES && Resident(s, n)
  {
    var j := Find(InodeNums(s.icache), n, InodeSlotOf(s.icache, n) + 1);
    if j < INODE_SLOTS then s.icache[j].inode else WriteBack(s)[n]
  }

  /** The record of inode n in use after another inode has taken the oldest slot. */
  function AfterAdd(s: Fs, n: nat): Inode
    requires n < INODES
  {
    if PushedOut(s, n) then LeftBehind(s, n) else Eff(s, n)
  }

  /** Looking inode n up replaces a slot. */
  predicate Brings(s: Fs, n: nat) {
    n < INODES && !Resident(s, n) && IsSet(s.inoMap, n)
  }

  /** The record of inode m in use after inode n has been looked up. */
  function AfterAcquire(s: Fs, n: nat, m: nat): Inode
    requires m < INODES
  {
    if Brings(s, n) && m != n then AfterAdd(s, m) else Eff(s, m)
  }

  lemma AddEff(s: Fs, n: InodeId, dirty: bool, m: nat)
    requires m < INODES
    ensures m != n ==> Eff(AddInode(s, n, dirty), m) == AfterAdd(s, m)
    ensures m == n && !Resident(s, n) ==> Eff(AddInode(s, n, dirty), m) == Eff(s, m)
  {
    var s', v := AddInode(s, n, dirty), Victim(InodeTimes(s.icache));
    var k, k' := InodeSlotOf(s.icache, m), InodeSlotOf(s'.icache, m);
    assert s'.icache[v].num == n && forall j :: 0 <= j < INODE_SLOTS && j != v ==> s'.icache[j] == s.icache[j];
    if m != n && k == v {
      var j := Find(InodeNums(s.icache), m, k + 1);
      assert k' == j;
    }
  }

  /** The record in use of every inode after any one has been looked up. */
  lemma AcquireEff(s: Fs, n: InodeId, m: nat)
    requires m < INODES
    ensures Eff(Acquire(s, n).0, m) == AfterAcquire(s, n, m)
  {
    var k := InodeSlotOf(s.icache, n);
    if k < INODE_SLOTS {
      assert InodeNums(TouchInode(s, k).icache) == InodeNums(s.icache);
    } else if IsSet(s.inoMap, n) {
      AddEff(s, n, false, m);
    }
  }

  lemma AfterAddIsRecord(s: Fs, n: nat)
    requires n < INODES
    ensures RecordOf(s, n, AfterAdd(s, n))
  {
    EffIsRecord(s, n);
    if PushedOut(s, n) {
      var j := Find(InodeNums(s.icache), n, InodeSlotOf(s.icache, n) + 1);
      assert j < INODE_SLOTS ==> CopyOf(s, n, j, LeftBehind(s, n));
      assert CopyOf(s, n, InodeSlotOf(s.icache, n), s.icache[InodeSlotOf(s.icache, n)].inode);
    }
  }

  lemma AddMovesRecords(s: Fs, n: InodeId, dirty: bool, m: nat)
    requires m < INODES
    ensures RecordMoved(s, AddInode(s, n, dirty), m)
  {
    var s', v := AddInode(s, n, dirty), Victim(InodeTimes(s.icache));
    assert s.icache[v].num == m ==> CopyOf(s, m, v, s.icache[v].inode);
    forall r: Inode | RecordOf(s', m, r) ensures RecordOf(s, m, r) {
      if r != s'.itab[m] {
        var k: nat :| CopyOf(s', m, k, r);
        assert k != v ==> CopyOf(s, m, k, r);
      }
    }
  }

  lemma TouchMovesRecords(s: Fs, k: nat, m: nat)
    requires k < INODE_SLOTS
    ensures RecordMoved(s, TouchInode(s, k), m)
    ensures m < INODES ==> Eff(TouchInode(s, k), m) == Eff(s, m)
  {
    var s' := TouchInode(s, k);
    assert InodeNums(s'.icache) == InodeNums(s.icache);
    forall r: Inode | RecordOf(s', m, r) ensures RecordOf(s, m, r) {
      if r != s'.itab[m] {
        var j: nat :| CopyOf(s', m, j, r);
        assert CopyOf(s, m, j, r);
      }
    }
  }

  // ------------------------------------------------------------------ bringing an inode in

  /** The record of m after inode n has taken the place of the oldest slot; n itself was not cached before. */
  lemma AddKeepsEff(s: Fs, n: InodeId, dirty: bool, m: nat)
    requires 1 <= m < INODES && CoherentAt(s, m) && s.itab[m].itype == FS_FILE && (m == n ==> !Resident(s, n))
    ensures SameFile(Eff(s, m), Eff(AddInode(s, n, dirty), m))
  {
    var s' := AddInode(s, n, dirty);
    var v := Victim(InodeTimes(s.icache));
    var k := InodeSlotOf(s.icache, m);
    if m == n {
      assert s'.icache[v].num == n;
      assert forall j :: 0 <= j < INODE_SLOTS && j != v ==> s'.icache[j].num != n;
      var j := InodeSlotOf(s'.icache, n);
    } else if k == INODE_SLOTS || k == v {
      if k == v { assert forall j :: 0 <= j < INODE_SLOTS && j != v ==> s.icache[j].num != m; }
      NoSlot(s'.icache, m);
      if k == v { assert CleanAgrees(s.icache[v], s.itab); }
    } else {
      SlotOfUnique(s.icache, k);
      assert s'.icache[k] == s.icache[k];
      assert forall j :: 0 <= j < k ==> s'.icache[j].num != m;
      var j := InodeSlotOf(s'.icache, m);
    }
  }

  lemma AddKeepsCoherence(s: Fs, n: InodeId, dirty: bool, m: nat)
    requires 1 <= m < INODES && CoherentAt(s, m) && (m == n ==> !Resident(s, n))
    requires SameDirRows(s.itab, WriteBack(s))
    ensures CoherentAt(AddInode(s, n, dirty), m)
  {
    var s' := AddInode(s, n, dirty);
    forall k | 0 <= k < INODE_SLOTS && s'.icache[k].num == m ensures CleanAgrees(s'.icache[k], s'.itab) {
      if s'.icache[k] == s.icache[k] { assert CleanAgrees(s.icache[k], s.itab); }
    }
  }

  lemma TouchKeepsRecords(s: Fs, k: nat)
    requires k < INODE_SLOTS
    ensures RecordsKept(s, TouchInode(s, k)) && RecordsMoved(s, TouchInode(s, k), -1)
  {
    var s' := TouchInode(s, k);
    assert InodeNums(s'.icache) == InodeNums(s.icache);
    forall n: nat | 1 <= n < INODES ensures RecordKept(s, s', n) {
      forall j | 0 <= j < INODE_SLOTS && s'.icache[j].num == n && CoherentAt(s, n)
        ensures CleanAgrees(s'.icache[j], s'.itab)
      {
        assert CleanAgrees(s.icache[j], s.itab);
      }
    }
    forall n: nat | 1 <= n < INODES ensures RecordMoved(s, s', n) { TouchMovesRecords(s, k, n); }
  }

  /**
   Whatever inode comes in, and whichever is written back for it: a coherent inode keeps its record. Any other inode
   changes to the record left behind exactly when its first copy is the one replaced.
   */
  lemma AddKeepsOthers(s: Fs, n: InodeId, dirty: bool, g: Owners)
    requires Inv(s, g)
    ensures forall m: nat :: 1 <= m < INODES && m != n ==> RecordKept(s, AddInode(s, n, dirty), m)
    ensures !Resident(s, n) ==> RecordsKept(s, AddInode(s, n, dirty))
    ensures forall m: nat :: m < INODES && m != n ==> Eff(AddInode(s, n, dirty), m) == AfterAdd(s, m)
    ensures forall m: nat :: m < INODES ==> RecordMoved(s, AddInode(s, n, dirty), m)
  {
    hide StoreOk, TreeOk, PagesOk, RowOk, CleanAgrees, SameFile, SlotOk, CoherentAt, RecordMoved, Eff, AfterAdd;
    WriteBackOk(s, g);
    forall m: nat | m < INODES && m != n ensures Eff(AddInode(s, n, dirty), m) == AfterAdd(s, m) {
      AddEff(s, n, dirty, m);
    }
    forall m: nat | m < INODES ensures RecordMoved(s, AddInode(s, n, dirty), m) { AddMovesRecords(s, n, dirty, m); }
    forall m: nat | 1 <= m < INODES && CoherentAt(s, m) && (m == n ==> !Resident(s, n))
      ensures RecordKept(s, AddInode(s, n, dirty), m)
    {
      AddKeepsCoherence(s, n, dirty, m);
      if s.itab[m].itype == FS_FILE { AddKeepsEff(s, n, dirty, m); }
    }
  }

  /**
   Looking any inode up, with whatever write-back it causes: coherent inodes keep their records, and the record in use
   of every inode afterwards is the one AfterAcquire gives.
   */
  lemma AcquireKeepsCoherence(s: Fs, n: InodeId, g: Owners)
    requires Inv(s, g)
    ensures RecordsKept(s, Acquire(s, n).0) && RecordsMoved(s, Acquire(s, n).0, -1)
    ensures forall m: nat :: m < INODES ==> Eff(Acquire(s, n).0, m) == AfterAcquire(s, n, m)
  {
    hide StoreOk, TreeOk, PagesOk, RowOk, CleanAgrees, SameFile, SlotOk, CoherentAt, Eff, AfterAdd, RecordMoved;
    forall m: nat | m < INODES ensures Eff(Acquire(s, n).0, m) == AfterAcquire(s, n, m) { AcquireEff(s, n, m); }
    var k := InodeSlotOf(s.icache, n);
    if k < INODE_SLOTS {
      TouchKeepsRecords(s, k);
    } else if IsSet(s.inoMap, n) {
      AddKeepsOthers(s, n, false, g);
    } else {
      RecordsKeptRefl(s);
    }
  }

  lemma RecordsKeptRefl(s: Fs)
    ensures RecordsKept(s, s) && RecordsMoved(s, s, -1)
  {
  }

  lemma RecordsKeptTwice(s: Fs, s1: Fs, s2: Fs)
    requires RecordsKept(s, s1) && RecordsKept(s1, s2)
    requires forall n :: 0 <= n < INODES ==> s1.itab[n].itype == s.itab[n].itype
    ensures RecordsKept(s, s2)
  {
    hide CoherentAt, Eff;
    forall n: nat | 1 <= n < INODES ensures RecordKept(s, s2, n) {
      assert RecordKept(s, s1, n) && RecordKept(s1, s2, n);
    }
  }

  lemma RecordsMovedTwice(s: Fs, s1: Fs, s2: Fs, but: int)
    requires RecordsMoved(s, s1, but) && RecordsMoved(s1, s2, but)
    ensures RecordsMoved(s, s2, but)
  {
    hide RecordOf;
    forall n: nat | 1 <= n < INODES && n != but ensures RecordMoved(s, s2, n) {
      assert RecordMoved(s, s1, n) && RecordMoved(s1, s2, n);
    }
  }

  /** The reference found is to the effective record; after the call the inode is cached. */
  lemma AcquireFinds(s: Fs, n: InodeId, g: Owners)
    requires Inv(s, g)
    ensures var (s', ref) := Acquire(s, n);
      ref.Some? ==>
        && Load(s', ref.value) == Eff(s, n) && Resident(s', n)
        && (n != 0 ==> Refers(s', ref.value, n))
        && (ref.value.InSlot? <==> Resident(s, n))
        && (ref.value.InRow? ==> NoDirtyCopy(s', n))
  {
    hide Inv, SameFile;
    var k := InodeSlotOf(s.icache, n);
    var s' := Acquire(s, n).0;
    if k < INODE_SLOTS {
      assert InodeNums(s'.icache) == InodeNums(s.icache);
    } else if IsSet(s.inoMap, n) {
      var v := Victim(InodeTimes(s.icache));
      assert s'.icache[v].num == n;
    }
  }
}
