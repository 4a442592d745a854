/**
 What looking at other inodes does to a file that was created and written: its first cached copy, the one in use, is
 pushed out, and the write appears.
 */
module FsPushedOut {
  import opened Bytes
  import opened Bitmap
  import opened Slots
  import opened BlockStore
  import ExactLru
  import opened FsState
  import opened FsFiles
  import opened FsTree
  import opened FsInv
  import opened FsContent
  import opened FsAlloc
  import opened FsSplice
  import opened FsWriting
  import opened FsCoherence
  import opened FsCalls
  import opened FsWriteCalls
  import opened FsMeta
  import opened FsDirs
  import opened FsSearch
  import opened FsNamespace
  import opened FsStart
  import opened FsRuns
  import opened FsCreated
  import opened FsStale
  import opened FsClock

  /** A clock with positive times that never goes back; any number of calls may fall into one second. */
  ghost predicate Steady(time: nat -> int) {
    forall i: nat :: 0 < time(i) <= time(i + 1)
  }

  lemma {:induction false} SteadyOn(time: nat -> int, i: nat, j: nat)
    requires Steady(time) && i <= j
    ensures 0 < time(i) <= time(j)
    decreases j
  {
    if i < j {
      SteadyOn(time, i, j - 1);
      assert time(j - 1) <= time(j - 1 + 1);
    }
  }

  // ------------------------------------------------------------------ creations

  /** One more inode under a name that is not in the directory yet. */
  lemma MakeAnother(s: Fs, dir: InodeId, name: seq<byte>, itype: nat, g: Owners) returns (g': Owners)
    requires Inv(s, g) && dir < |g.par| < INODES && IsDir(s.itab, dir) && GoodName(name)
    requires itype == FS_DIR || itype == FS_FILE
    requires EntryFits(s, dir, |g.own|) && forall m: nat :: (dir, name, m) !in Entries(s)
    ensures var ((s', r), n) := (MakeNode(s, dir, name, itype), |g.par|);
      && r == Ok(n) && Inv(s', g') && |g'.par| == n + 1
      && |g'.own| == |g.own| + (if s.itab[dir].size % BLOCK_SIZE == 0 then 1 else 0)
      && s'.icache == s.icache && s'.time == s.time && s'.NumBlocks() == s.NumBlocks() && s'.itab[n] == NewInode(itype)
      && (forall o: nat :: o < INODES && o != dir && o != n ==> s'.itab[o] == s.itab[o])
      && CoherentAt(s', n)
      && Files(s') == (if itype == FS_FILE then Files(s)[n := []] else Files(s))
      && Entries(s') == Entries(s) + iset{(dir, name, n)}
      && s'.itab[dir].itype == FS_DIR && s'.itab[dir].size == s.itab[dir].size + ENTRY_SIZE
  {
    hide Inv, IsEntry, Quiet, Files, MakeNode, DirSearch, LoadTable, CopiesKept, CoherentAt, GoodName;
    MakeBounds(s, dir, g);
    GoodIsNonempty(name);
    DirSearchSound(s, dir, name, g);
    NotFound(s, dir, name);
    SearchKeepsTables(s, dir, name, g);
    g' := MakeNodeOk(s, dir, name, itype, g);
    MakeLeaves(s, dir, name, itype);
    AddedEntryLinks(s, MakeNode(s, dir, name, itype).0, dir, name, |g.par|);
    EntryInDir(MakeNode(s, dir, name, itype).0, dir, name, |g.par|);
  }

  lemma GoodIsNonempty(name: seq<byte>)
    requires GoodName(name)
    ensures name != [] && IsCString(name)
  {
  }

  lemma NotFound(s: Fs, dir: nat, name: seq<byte>)
    requires forall m: nat :: (dir, name, m) !in Entries(s)
    ensures forall m: nat :: !IsEntry(s.store.disk, s.itab, dir, name, m)
  {
    hide IsEntry;
    forall m: nat ensures !IsEntry(s.store.disk, s.itab, dir, name, m) {
      assert (dir, name, m) !in Entries(s);
    }
  }

  /** Three files in the root of a formatted disk, none of them looked at. */
  ghost predicate ThreeFiles(s: Fs, g: Owners) {
    && Inv(s, g) && |g.own| == META_BLOCKS + 1 && |g.par| == 5 && Files(s) == map[2 := [], 3 := [], 4 := []]
    && forall k :: 0 <= k < INODE_SLOTS ==> s.icache[k] == InodeSlot(0, NewInode(0), false, 0)
  }

  lemma CreateThree(n: nat, time: nat -> int, a: seq<byte>, b: seq<byte>, c: seq<byte>) returns (g: Owners)
    requires META_BLOCKS < n <= 8 * BLOCK_SIZE && GoodName(a) && GoodName(b) && GoodName(c)
    requires a != b && a != c && b != c
    ensures var (s1, r1) := FsCreate(Formatted(n, time), ROOT, a);
      var (s2, r2) := FsCreate(s1, ROOT, b);
      var (s3, r3) := FsCreate(s2, ROOT, c);
      r1 == Ok(2) && r2 == Ok(3) && r3 == Ok(4) && ThreeFiles(s3, g) && s3.time == time && s3.NumBlocks() == n
  {
    hide Formatted, Inv, MakeNode, Files, Entries, CoherentAt, GoodName;
    var s := Formatted(n, time);
    FormattedOk(n, time);
    FormattedFresh(n, time);
    NoEntriesYet(n, time);
    var g1 := MakeAnother(s, ROOT, a, FS_FILE, START);
    var s1 := FsCreate(s, ROOT, a).0;
    var g2 := MakeAnother(s1, ROOT, b, FS_FILE, g1);
    var s2 := FsCreate(s1, ROOT, b).0;
    g := MakeAnother(s2, ROOT, c, FS_FILE, g2);
  }

  // ------------------------------------------------------------------ the write and the two copies

  /** After the write: an empty copy in slot 0, the written one in slot 1, stamped in this order; the rest is unused. */
  ghost predicate TwoCopied(s: Fs, buffer: seq<byte>) {
    && s.icache[0].num == 2 && !s.icache[0].dirty && s.icache[0].inode.size == 0
    && s.icache[1].num == 2 && Content(s.store, s.icache[1].inode) == buffer
    && s.icache[2].num == s.icache[3].num == 0 && !s.icache[2].dirty && !s.icache[3].dirty
    && s.icache[2].last == s.icache[3].last == 0 < s.icache[0].last <= s.icache[1].last
    && exists tick: nat :: tick < s.ticks && s.icache[1].last == s.time(tick)
  }

  /** The stamp of the copy made at the end of a growing write through the table row. */
  lemma GrownStamp(s: Fs, file: InodeId, offset: nat, buffer: seq<byte>, g: Owners)
    requires Inv(s, g) && Refers(s, InRow(file), file) && file < |g.par| && s.itab[file].itype == FS_FILE
    requires offset <= s.itab[file].size < offset + |buffer|
    requires HasRoom(s.itab[file].size, offset, |buffer|, |g.own|, s.NumBlocks())
    ensures var s' := WriteThrough(s, file, InRow(file), offset, buffer).0;
      s.ticks < s'.ticks && s'.icache[Victim(InodeTimes(s.icache))].last == s.time(s'.ticks - 1)
  {
    hide Inv, WriteThrough, HasRoom, BlocksNeeded, BlocksFor, PlacedIn;
    WriteThroughPages(s, file, InRow(file), offset, buffer);
    var s3 := WriteReaches(s, file, InRow(file), offset, buffer, BlocksNeeded(s.itab[file].size, offset, |buffer|), g);
  }

  lemma WriteTwo(s: Fs, buffer: seq<byte>, g: Owners) returns (g': Owners)
    requires ThreeFiles(s, g) && Steady(s.time) && buffer != [] && HasRoom(0, 0, |buffer|, |g.own|, s.NumBlocks())
    ensures var (s', r) := FsWrite(s, 2, 0, buffer);
      && r == Ok(()) && TwoCopied(s', buffer) && Inv(s', g') && g'.par == g.par && s'.time == s.time
      && IsFile(s', 2)
  {
    hide Inv, Content, FsWrite, HasRoom, Files, WriteThrough, IsFile, Quiet, WriteCall, Eff, OthersKept, UsesOwned,
          RecordsKept, RecordsMoved;
    SteadyOn(s.time, s.ticks, s.ticks);
    FileIn(s, 2);
    UsedFile(s, 2);
    NoSlot(s.icache, 2);
    VictimsOfFreshCache(s, 2);
    AcquireQuiet(s, 2, g);
    AcquireFinds(s, 2, g);
    var (s1, ref) := Acquire(s, 2);
    AcquiredFile(s, s1, ref.value, 2, g);
    TwoCopies(s, s1, 2, ref.value, 0, buffer, g);
    assert Eff(s, 2).size == |Content(s.store, Eff(s, 2))|;
    WriteSucceeds(s1, 2, ref.value, 0, buffer, g);
    FirstSpliceIsBuffer(buffer);
    GrownStamp(s1, 2, 0, buffer, g);
    var s' := FsWrite(s, 2, 0, buffer).0;
    assert FsWrite(s, 2, 0, buffer) == WriteThrough(s1, 2, ref.value, 0, buffer) by { WriteStarts(s, 2, buffer); }
    SteadyOn(s.time, s.ticks, s'.ticks - 1);
    g' := WriteOk(s, 2, 0, buffer, g);
    StillFileAfter(s, s', 2, buffer, g, g');
  }

  lemma WriteStarts(s: Fs, n: InodeId, buffer: seq<byte>)
    requires var (s1, ref) := Acquire(s, n); ref.Some? && Load(s1, ref.value).itype == FS_FILE
    ensures var (s1, ref) := Acquire(s, n); FsWrite(s, n, 0, buffer) == WriteThrough(s1, n, ref.value, 0, buffer)
  {
    hide WriteThrough, Acquire;
  }

  lemma StillFileAfter(s: Fs, s': Fs, n: nat, buffer: seq<byte>, g: Owners, g': Owners)
    requires IsFile(s, n) && WriteCall(s, s', Ok(()), n, 0, buffer, g, g')
    ensures IsFile(s', n) && Inv(s', g') && g'.par == g.par && s'.time == s.time
  {
    hide Inv, SameEntries, MetaKept, HasRoom, Content;
  }

  // ------------------------------------------------------------------ looking at the others

  /** The attributes of an inode that is not cached, when the slot it takes holds nothing dirty. */
  lemma BringsIn(s: Fs, n: InodeId, v: nat)
    requires !Resident(s, n) && IsSet(s.inoMap, n) && v == Victim(InodeTimes(s.icache)) && !s.icache[v].dirty
    ensures FsGetAttrs(s, n).0
         == s.(icache := s.icache[v := InodeSlot(n, s.itab[n], false, s.Now())], ticks := s.ticks + 1)
  {
  }

  /** With both copies cached and the other slots unused, looking at three more inodes pushes the first copy out. */
  lemma ThirdPushesOut(s: Fs, buffer: seq<byte>, g: Owners)
    requires Inv(s, g) && |g.par| == 5 && IsFile(s, 2) && TwoCopied(s, buffer) && Steady(s.time)
    ensures var s2 := FsGetAttrs(s, ROOT).0;
      var s3 := FsGetAttrs(s2, 3).0;
      ContentOf(s3, 2) == Some([]) && ContentOf(FsGetAttrs(s3, 4).0, 2) == Some(buffer)
  {
    hide Inv, IsSet, Content, FsGetAttrs;
    var tick: nat :| tick < s.ticks && s.icache[1].last == s.time(tick);
    SteadyOn(s.time, tick, s.ticks);
    SteadyOn(s.time, s.ticks, s.ticks + 1);
    ThreeInUse(s, g);
    EmptyRecord(s.store, s.icache[0].inode);
    NoSlot(s.icache, ROOT);
    VictimIs(s, 2);
    BringsIn(s, ROOT, 2);
    var s2 := FsGetAttrs(s, ROOT).0;
    NoSlot(s2.icache, 3);
    VictimIs(s2, 3);
    BringsIn(s2, 3, 3);
    var s3 := FsGetAttrs(s2, 3).0;
    NoSlot(s3.icache, 4);
    VictimIs(s3, 0);
    BringsIn(s3, 4, 0);
    SlotInUse(s3, 2, 0);
    SlotInUse(FsGetAttrs(s3, 4).0, 2, 1);
  }

  lemma VictimIs(s: Fs, v: nat)
    requires Oldest(InodeTimes(s.icache), v, INODE_SLOTS)
    ensures Victim(InodeTimes(s.icache)) == v
  {
    var w := Victim(InodeTimes(s.icache));
  }

  lemma SlotInUse(s: Fs, n: nat, k: nat)
    requires n < INODES && k < INODE_SLOTS && s.icache[k].num == n && forall j :: 0 <= j < k ==> s.icache[j].num != n
    ensures Eff(s, n) == s.icache[k].inode
  {
  }

  lemma EmptyRecord(st: Store, ino: Inode)
    requires ino.size == 0
    ensures Content(st, ino) == []
  {
    assert |Content(st, ino)| == ino.size;
  }

  lemma ThreeInUse(s: Fs, g: Owners)
    requires Inv(s, g) && |g.par| == 5
    ensures IsSet(s.inoMap, ROOT) && IsSet(s.inoMap, 3) && IsSet(s.inoMap, 4)
  {
    UsedIffBelow(s, g, ROOT);
    UsedIffBelow(s, g, 3);
    UsedIffBelow(s, g, 4);
  }

  lemma SixSteps(s: Fs, c: seq<Call>)
    requires |c| == 6
    ensures var s3 := Step(Step(Step(s, c[0]).0, c[1]).0, c[2]).0;
      Run(s, c).0 == Step(Step(Step(s3, c[3]).0, c[4]).0, c[5]).0
  {
    hide Step;
    var s1 := Step(s, c[0]).0;
    var s2 := Step(s1, c[1]).0;
    var s3 := Step(s2, c[2]).0;
    var s4 := Step(s3, c[3]).0;
    var s5 := Step(s4, c[4]).0;
    var (c1, c2, c3, c4, c5) := (c[1..], c[2..], c[3..], c[4..], c[5..]);
    assert c1[1..] == c2 && c2[1..] == c3 && c3[1..] == c4 && c4[1..] == c5;
    assert Run(s, c).0 == Run(s1, c1).0;
    assert Run(s1, c1).0 == Run(s2, c2).0;
    assert Run(s2, c2).0 == Run(s3, c3).0;
    assert Run(s3, c3).0 == Run(s4, c4).0;
    assert Run(s4, c4).0 == Run(s5, c5).0;
    assert Run(s5, c5).0 == Step(s5, c[5]).0;
  }

  /**
   Three files are created, the first is written, and then only attributes are asked for: of the root, of the second and
   of the third file. Up to the last of these the first file reads empty; after it, which looks at another file, it
   reads as it was written. So it goes under any clock with positive times that never goes back.
   */
  lemma AttributesOfAnotherShowTheWrite(n: nat, time: nat -> int, a: seq<byte>, b: seq<byte>, c: seq<byte>,
        buffer: seq<byte>)
    requires META_BLOCKS < n <= 8 * BLOCK_SIZE && Steady(time) && GoodName(a) && GoodName(b) && GoodName(c)
    requires a != b && a != c && b != c && buffer != [] && HasRoom(0, 0, |buffer|, META_BLOCKS + 1, n)
    ensures var s := Run(Formatted(n, time), [CreateIn(ROOT, a), CreateIn(ROOT, b), CreateIn(ROOT, c),
          WriteAt(2, 0, buffer), AttrsOf(ROOT), AttrsOf(3)]).0;
      ContentOf(s, 2) == Some([]) && ContentOf(Step(s, AttrsOf(4)).0, 2) == Some(buffer)
  {
    hide Formatted, Inv, FsWrite, FsGetAttrs, MakeNode, HasRoom, Files, GoodName, TwoCopied, Steady, ContentOf, Run,
          IsFile;
    var g := CreateThree(n, time, a, b, c);
    var s := FsCreate(FsCreate(FsCreate(Formatted(n, time), ROOT, a).0, ROOT, b).0, ROOT, c).0;
    var g' := WriteTwo(s, buffer, g);
    ThirdPushesOut(FsWrite(s, 2, 0, buffer).0, buffer, g');
    SixSteps(Formatted(n, time), [CreateIn(ROOT, a), CreateIn(ROOT, b), CreateIn(ROOT, c), WriteAt(2, 0, buffer),
          AttrsOf(ROOT), AttrsOf(3)]);
  }

  // ------------------------------------------------------------------ a read in between

  /** A clock that strictly increases is one that never goes back. */
  lemma TickingIsSteady(time: nat -> int)
    requires ExactLru.Ticking(time)
    ensures Steady(time)
  {
    forall i: nat ensures 0 < time(i) <= time(i + 1) { ExactLru.TickingPositive(time, i); }
  }

  /** A read through an empty record takes the record's slot out of turn and changes nothing else. */
  lemma EmptyRead(s: Fs, offset: nat, count: nat, g: Owners)
    requires Inv(s, g) && IsFile(s, 2) && s.icache[0].num == 2 && s.icache[0].inode.size == 0
    ensures FsRead(s, 2, offset, count)
         == (s.(icache := s.icache[0 := s.icache[0].(last := s.time(s.ticks))], ticks := s.ticks + 1), Ok([]))
  {
    hide Inv;
    SlotInUse(s, 2, 0);
    FileFacts(s, 2, g);
  }

  /** The attributes of an uncached inode leave all slots but the one replaced as they are. */
  lemma BringsInElsewhere(s: Fs, n: InodeId, v: nat)
    requires !Resident(s, n) && IsSet(s.inoMap, n) && v == Victim(InodeTimes(s.icache))
    ensures var s' := FsGetAttrs(s, n).0;
      s'.icache == s.icache[v := s'.icache[v]] && s'.icache[v].num == n && s'.inoMap == s.inoMap
  {
  }

  lemma ReadKeepsFirst(s: Fs, buffer: seq<byte>, offset: nat, count: nat, g: Owners)
    requires Inv(s, g) && |g.par| == 5 && IsFile(s, 2) && TwoCopied(s, buffer) && ExactLru.Ticking(s.time)
    ensures var s1 := FsRead(s, 2, offset, count).0;
      var s2 := FsGetAttrs(s1, ROOT).0;
      var s3 := FsGetAttrs(s2, 3).0;
      var s4 := FsGetAttrs(s3, 4).0;
      s4.icache[0].num == 2 && s4.icache[0].inode.size == 0
  {
    hide Inv, IsSet, Content, FsGetAttrs, FsRead, ExactLru.Ticking, Steady;
    var tick: nat :| tick < s.ticks && s.icache[1].last == s.time(tick);
    TicksOn(s.time, tick + 1, s.ticks);
    ExactLru.TickingPositive(s.time, tick);
    ExactLru.TickingPositive(s.time, s.ticks);
    ExactLru.TickingPositive(s.time, s.ticks + 1);
    ThreeInUse(s, g);
    EmptyRead(s, offset, count, g);
    var s1 := FsRead(s, 2, offset, count).0;
    NoSlot(s1.icache, ROOT);
    VictimIs(s1, 2);
    BringsIn(s1, ROOT, 2);
    var s2 := FsGetAttrs(s1, ROOT).0;
    NoSlot(s2.icache, 3);
    VictimIs(s2, 3);
    BringsIn(s2, 3, 3);
    var s3 := FsGetAttrs(s2, 3).0;
    NoSlot(s3.icache, 4);
    VictimIs(s3, 1);
    BringsInElsewhere(s3, 4, 1);
  }

  /**
   The same calls with one read of the first file before the others are looked at, under a clock that strictly
   increases: the read renews the empty copy, so the third look pushes out the written one instead, and the file still
   reads empty.
   */
  lemma ReadDelaysTheWrite(n: nat, time: nat -> int, a: seq<byte>, b: seq<byte>, c: seq<byte>, buffer: seq<byte>,
        offset: nat, count: nat)
    requires META_BLOCKS < n <= 8 * BLOCK_SIZE && ExactLru.Ticking(time) && GoodName(a) && GoodName(b) && GoodName(c)
    requires a != b && a != c && b != c && buffer != [] && HasRoom(0, 0, |buffer|, META_BLOCKS + 1, n)
    ensures var s := Run(Formatted(n, time), [CreateIn(ROOT, a), CreateIn(ROOT, b), CreateIn(ROOT, c),
          WriteAt(2, 0, buffer), ReadAt(2, 0, 1), AttrsOf(ROOT)]).0;
      var s4 := Step(Step(s, AttrsOf(3)).0, AttrsOf(4)).0;
      Step(s4, ReadAt(2, offset, count)).1 == ReadReply(Ok([]))
  {
    hide Formatted, Inv, FsWrite, FsGetAttrs, FsRead, MakeNode, HasRoom, Files, GoodName, TwoCopied, Steady,
          ExactLru.Ticking, Run, IsFile;
    TickingIsSteady(time);
    var g := CreateThree(n, time, a, b, c);
    var s := FsCreate(FsCreate(FsCreate(Formatted(n, time), ROOT, a).0, ROOT, b).0, ROOT, c).0;
    var g' := WriteTwo(s, buffer, g);
    var t := FsWrite(s, 2, 0, buffer).0;
    ReadKeepsFirst(t, buffer, 0, 1, g');
    SixSteps(Formatted(n, time), [CreateIn(ROOT, a), CreateIn(ROOT, b), CreateIn(ROOT, c), WriteAt(2, 0, buffer),
          ReadAt(2, 0, 1), AttrsOf(ROOT)]);
    var s1 := FsRead(t, 2, 0, 1).0;
    StillInv(t, s1, 0, 1, g');
    var s2 := FsGetAttrs(s1, ROOT).0;
    AttrsKeep(s1, ROOT, g');
    var s3 := FsGetAttrs(s2, 3).0;
    AttrsKeep(s2, 3, g');
    AttrsKeep(s3, 4, g');
    EmptyRead(FsGetAttrs(s3, 4).0, offset, count, g');
  }

  lemma AttrsKeep(s: Fs, n: nat, g: Owners)
    requires Inv(s, g) && IsFile(s, 2)
    ensures Inv(FsGetAttrs(s, n).0, g) && IsFile(FsGetAttrs(s, n).0, 2)
  {
    GetAttrsOk(s, n, g);
    QuietInv(s, FsGetAttrs(s, n).0, g);
    hide Inv;
  }

  lemma StillInv(s: Fs, s1: Fs, offset: nat, count: nat, g: Owners)
    requires Inv(s, g) && IsFile(s, 2) && s1 == FsRead(s, 2, offset, count).0
    ensures Inv(s1, g) && IsFile(s1, 2)
  {
    ReadOk(s, 2, offset, count, g);
    QuietInv(s, s1, g);
    hide Inv;
  }
}
