/**
 The block cache over whole runs of fs_* calls: under a strictly increasing clock it holds exactly the ten blocks the
 calls looked at or changed most recently.
 */
module FsRecency {
  import opened Bytes
  import opened Bitmap
  import opened BlockStore
  import opened FsState
  import opened FsFiles
  import opened FsTree
  import opened FsInv
  import opened FsContent
  import opened FsAlloc
  import opened FsWriting
  import opened FsCoherence
  import opened FsCalls
  import opened FsMeta
  import opened FsDirs
  import opened FsSearch
  import opened FsMake
  import opened FsNamespace
  import opened FsListing
  import opened FsCopying
  import opened FsStart
  import opened FsRuns
  import opened FsClock
  import L = ExactLru

  // ------------------------------------------------------------------ accesses of one step

  /** The cache holds the most recent blocks of the history. */
  ghost predicate Recent(s: Fs, past: seq<nat>) {
    exists order: seq<nat> :: L.TracksHistory(s.store.slots, order, past, s.Now())
  }

  /** From s to s' the blocks h were accessed, in this order. */
  ghost predicate Accessed(s: Fs, s': Fs, h: seq<nat>) {
    s'.time == s.time && forall past: seq<nat> :: L.Ticking(s.time) && Recent(s, past) ==> Recent(s', past + h)
  }

  lemma AccessedThen(s: Fs, s1: Fs, s2: Fs, h: seq<nat>, k: seq<nat>)
    requires Accessed(s, s1, h) && Accessed(s1, s2, k)
    ensures Accessed(s, s2, h + k)
  {
    hide L.Ticking, Recent;
    forall past: seq<nat> | L.Ticking(s.time) && Recent(s, past) ensures Recent(s2, past + (h + k)) {
      assert past + h + k == past + (h + k);
      assert Recent(s1, past + h);
    }
  }

  /** Steps that leave the slots alone access no block. */
  ghost predicate SlotsStay(s: Fs, s': Fs) {
    s'.time == s.time && s.ticks <= s'.ticks && s'.store.slots == s.store.slots
  }

  lemma NoAccess(s: Fs, s': Fs)
    requires SlotsStay(s, s')
    ensures Accessed(s, s', [])
  {
    hide L.Ticking;
    forall past: seq<nat> | L.Ticking(s.time) && Recent(s, past) ensures Recent(s', past + []) {
      assert past + [] == past;
      TicksOn(s.time, s.ticks, s'.ticks);
      var order: seq<nat> :| L.TracksHistory(s.store.slots, order, past, s.Now());
      LaterTracks(s.store.slots, order, past, s.Now(), s'.Now());
    }
  }

  lemma LaterTracks(t: SlotTable, order: seq<nat>, past: seq<nat>, now: int, next: int)
    requires L.TracksHistory(t, order, past, now) && now <= next
    ensures L.TracksHistory(t, order, past, next)
  {
    hide L.Recency, L.Orders, L.Falling;
    var nums, times := Nums(t), Times(t);
    forall k | 0 <= k < CACHE_SLOTS ensures L.Stamped(nums[k], times[k], next) {
      assert L.Stamped(nums[k], times[k], now);
    }
  }

  /** One access, stamped at one of the times that passed. */
  lemma OneAccess(s: Fs, s': Fs, b: nat, j: nat)
    requires s'.time == s.time && s.ticks <= j < s'.ticks && 0 < b
    requires (Nums(s'.store.slots), Times(s'.store.slots))
          == L.AccessKeys(Nums(s.store.slots), Times(s.store.slots), b, s.time(j))
    ensures Accessed(s, s', [b])
  {
    hide L.Ticking, L.AccessKeys, L.TracksHistory, L.Recency;
    forall past: seq<nat> | L.Ticking(s.time) && Recent(s, past) ensures Recent(s', past + [b]) {
      TicksOn(s.time, s.ticks, j);
      TicksOn(s.time, j + 1, s'.ticks);
      L.TickingPositive(s.time, j);
      var order: seq<nat> :| L.TracksHistory(s.store.slots, order, past, s.Now());
      LaterTracks(s.store.slots, order, past, s.Now(), s.time(j));
      var order' := KeysTrack(s.store.slots, s'.store.slots, order, past, b, s.time(j), s'.Now());
    }
  }

  lemma KeysTrack(t: SlotTable, t': SlotTable, order: seq<nat>, past: seq<nat>, b: nat, now: int, next: int)
    returns (order': seq<nat>)
    requires L.TracksHistory(t, order, past, now) && 0 < b && 0 < now < next
    requires (Nums(t'), Times(t')) == L.AccessKeys(Nums(t), Times(t), b, now)
    ensures L.TracksHistory(t', order', past + [b], next)
  {
    hide L.Tracks;
    order' := L.AccessTracks(Nums(t), Times(t), order, b, now, next);
    L.RecencyDistinct(past);
    L.HeadOfMoveToFront(L.Recency(past), b);
    assert (past + [b])[..|past|] == past;
  }

  // ------------------------------------------------------------------ the accesses of the fs_* functions

  lemma FetchAccess(s: Fs, b: nat)
    requires 0 < b < s.NumBlocks()
    ensures Accessed(s, FetchBlock(s, b).0, [b]) && FetchBlock(s, b).1.Some?
    ensures FetchBlock(s, b).0 == s.(store := FetchBlock(s, b).0.store, ticks := FetchBlock(s, b).0.ticks)
    ensures FetchBlock(s, b).0.NumBlocks() == s.NumBlocks()
  {
    var s' := FetchBlock(s, b).0;
    var j := s'.ticks - 1;
    var keys := L.AccessKeys(Nums(s.store.slots), Times(s.store.slots), b, s.time(j));
    assert Nums(s'.store.slots) == keys.0 && Times(s'.store.slots) == keys.1;
    OneAccess(s, s', b, j);
  }

  lemma UpdateAccess(s: Fs, b: nat, start: nat, chunk: seq<byte>)
    requires 0 < b < s.NumBlocks() && start + |chunk| <= BLOCK_SIZE
    ensures Accessed(s, UpdateBlock(s, b, start, chunk).0, [b]) && UpdateBlock(s, b, start, chunk).1
    ensures UpdateBlock(s, b, start, chunk).0.NumBlocks() == s.NumBlocks()
  {
    hide Overlay;
    var s' := UpdateBlock(s, b, start, chunk).0;
    var j := s'.ticks - 1;
    var keys := L.AccessKeys(Nums(s.store.slots), Times(s.store.slots), b, s.time(j));
    assert Nums(s'.store.slots) == keys.0 && Times(s'.store.slots) == keys.1;
    OneAccess(s, s', b, j);
  }

  /** Putting a block into the cache that is not there. */
  lemma PutAccess(s: Fs, s': Fs, b: nat, data: Block)
    requires 0 < b && Slotted(s.store, b) == CACHE_SLOTS
    requires s' == s.(store := Add(s.store, b, data, true, s.Now()), ticks := s.ticks + 1)
    ensures Accessed(s, s', [b])
  {
    var keys := L.AccessKeys(Nums(s.store.slots), Times(s.store.slots), b, s.time(s.ticks));
    assert Nums(s'.store.slots) == keys.0 && Times(s'.store.slots) == keys.1;
    OneAccess(s, s', b, s.ticks);
  }

  // ------------------------------------------------------------------ loops

  /** The blocks that bytes offset .. offset+count-1 of a record lie in. */
  function Span(ino: Inode, offset: nat, count: nat): (h: seq<nat>) {
    if count == 0 || offset / BLOCK_SIZE > INODE_BLOCKS || BlocksFor(offset + count) > INODE_BLOCKS then []
    else ino.blocks[offset / BLOCK_SIZE..Max(offset / BLOCK_SIZE, BlocksFor(offset + count))]
  }

  lemma SpanStep(ino: Inode, offset: nat, count: nat)
    requires 0 < count && offset + count <= MAX_FILE
    ensures var (i, n) := (offset / BLOCK_SIZE, Min(BLOCK_SIZE - offset % BLOCK_SIZE, count));
      && i < INODE_BLOCKS && i < BlocksFor(offset + count)
      && Span(ino, offset, count) == [ino.blocks[i]] + Span(ino, offset + n, count - n)
      && (n < count ==> (offset + n) % BLOCK_SIZE == 0 && (offset + n) / BLOCK_SIZE == i + 1)
  {
  }

  /** The first nb blocks of a record are blocks of the device, and not block 0. */
  predicate OnDevice(ino: Inode, nb: nat, numBlocks: nat) {
    forall i :: 0 <= i < INODE_BLOCKS && i < nb ==> 0 < ino.blocks[i] < numBlocks
  }

  /** A loop has done `done` of count bytes from offset on and is at the block of the next one. */
  predicate InStep(offset: nat, count: nat, done: nat, iblock: nat) {
    && done <= count && (done == count || iblock == (offset + done) / BLOCK_SIZE)
    && (done == 0 || done == count || (offset + done) % BLOCK_SIZE == 0)
  }

  lemma StepBound(offset: nat, count: nat, done: nat, iblock: nat)
    requires InStep(offset, count, done, iblock)
    ensures done <= count
  {
  }

  lemma NextInStep(offset: nat, count: nat, done: nat, iblock: nat)
    requires InStep(offset, count, done, iblock) && done < count
    ensures var n := Min(BLOCK_SIZE - (offset + done) % BLOCK_SIZE, count - done);
      && InStep(offset, count, done + n, iblock + 1) && 0 < n && iblock == (offset + done) / BLOCK_SIZE
      && (offset + done) % BLOCK_SIZE == if done == 0 then offset % BLOCK_SIZE else 0
  {
  }

  lemma {:induction false} ReadLoopAccess(s: Fs, ino: Inode, offset: nat, max: nat, iblock: nat, acc: seq<byte>)
    requires OnDevice(ino, BlocksFor(ino.size), s.NumBlocks()) && offset + max <= ino.size <= MAX_FILE
    requires InStep(offset, max, |acc|, iblock)
    ensures Accessed(s, ReadLoop(s, ino, offset, max, iblock, acc).0, Span(ino, offset + |acc|, max - |acc|))
    decreases max - |acc|
  {
    hide FetchBlock, Accessed, BlocksFor, Span, InStep;
    assert |acc| <= max by { StepBound(offset, max, |acc|, iblock); }
    if |acc| < max {
      NextInStep(offset, max, |acc|, iblock);
      SpanStep(ino, offset + |acc|, max - |acc|);
      assert BlocksFor(offset + max) <= BlocksFor(ino.size) by { MoreBytesMoreBlocks(offset + max, ino.size); }
      FetchAccess(s, ino.blocks[iblock]);
      var (s1, data) := FetchBlock(s, ino.blocks[iblock]);
      var start := if |acc| == 0 then offset % BLOCK_SIZE else 0;
      var num := Min(BLOCK_SIZE - start, max - |acc|);
      var acc1 := acc + data.value[start..start + num];
      ReadLoopAccess(s1, ino, offset, max, iblock + 1, acc1);
      AccessedThen(s, s1, ReadLoop(s1, ino, offset, max, iblock + 1, acc1).0, [ino.blocks[iblock]],
                   Span(ino, offset + |acc1|, max - |acc1|));
    } else {
      NoAccess(s, s);
      NoSpan(ino, offset + |acc|);
    }
  }

  lemma MoreBytesMoreBlocks(a: nat, b: nat)
    requires a <= b
    ensures BlocksFor(a) <= BlocksFor(b)
  {
  }

  lemma NoSpan(ino: Inode, offset: nat)
    ensures Span(ino, offset, 0) == []
  {
  }

  lemma {:induction false} WriteLoopAccess(s: Fs, ino: Inode, offset: nat, buffer: seq<byte>, num: nat, iblock: nat)
    requires OnDevice(ino, BlocksFor(offset + |buffer|), s.NumBlocks()) && offset + |buffer| <= MAX_FILE
    requires InStep(offset, |buffer|, num, iblock)
    ensures Accessed(s, WriteLoop(s, ino, offset, buffer, num, iblock).0, Span(ino, offset + num, |buffer| - num))
    decreases |buffer| - num
  {
    hide UpdateBlock, Accessed, BlocksFor, Span, InStep;
    assert num <= |buffer| by { StepBound(offset, |buffer|, num, iblock); }
    if num < |buffer| {
      NextInStep(offset, |buffer|, num, iblock);
      SpanStep(ino, offset + num, |buffer| - num);
      var start := if num == 0 then offset % BLOCK_SIZE else 0;
      var n := Min(BLOCK_SIZE - start, |buffer| - num);
      UpdateAccess(s, ino.blocks[iblock], start, buffer[num..num + n]);
      var s1 := UpdateBlock(s, ino.blocks[iblock], start, buffer[num..num + n]).0;
      WriteLoopAccess(s1, ino, offset, buffer, num + n, iblock + 1);
      AccessedThen(s, s1, WriteLoop(s1, ino, offset, buffer, num + n, iblock + 1).0, [ino.blocks[iblock]],
                   Span(ino, offset + (num + n), |buffer| - (num + n)));
    } else {
      NoAccess(s, s);
      NoSpan(ino, offset + num);
    }
  }

  /** The next num free blocks, or as many as the disk has left. */
  function FreshBlocks(s: Fs, num: nat): seq<nat> {
    var b := FindFree(s.blkMap, 0, s.NumBlocks());
    if b.None? then [] else Upwards(b.value, Min(num, s.NumBlocks() - b.value))
  }

  function Upwards(b: nat, num: nat): (h: seq<nat>)
    decreases num
  {
    if num == 0 then [] else [b] + Upwards(b + 1, num - 1)
  }

  lemma UpwardsStep(b: nat, num: nat)
    ensures Upwards(b, num) == if num == 0 then [] else [b] + Upwards(b + 1, num - 1)
  {
  }

  lemma FreshAre(s: Fs, num: nat, g: Owners)
    requires Inv(s, g)
    ensures |g.own| <= s.NumBlocks() && FreshBlocks(s, num) == Upwards(|g.own|, Min(num, s.NumBlocks() - |g.own|))
  {
    hide Inv;
    NextFreeBlock(s, g);
  }

  lemma AllocAccess(s: Fs, ref: Ref, i: nat, g: Owners)
    requires Inv(s, g) && ValidRef(ref) && i < INODE_BLOCKS && |g.own| < s.NumBlocks()
    ensures Accessed(s, AllocOne(s, ref, i, |g.own|), [|g.own|])
  {
    InvLimits(s, g);
    NotCachedYet(s, g);
    hide Inv, Add, Set, Accessed;
    var b, ino := |g.own|, Load(s, ref);
    var s1 := Save(s.(blkMap := Set(s.blkMap, b)), ref, ino.(blocks := ino.blocks[i := b]));
    NoAccess(s, s1);
    PutAccess(s1, AllocOne(s, ref, i, b), b, Zeros(BLOCK_SIZE));
    AccessedThen(s, s1, AllocOne(s, ref, i, b), [], [b]);
    assert [] + [b] == [b];
  }

  lemma {:induction false} AllocLoopAccess(s: Fs, ref: Ref, n: nat, i: nat, end: nat, g: Owners)
    requires Inv(s, g) && Refers(s, ref, n) && n < |g.par| && s.itab[n].itype == FS_FILE
    requires BlocksFor(Load(s, ref).size) <= i <= end <= INODE_BLOCKS && |g.own| <= s.NumBlocks()
    ensures Accessed(s, AllocLoop(s, ref, i, end).0, Upwards(|g.own|, Min(end - i, s.NumBlocks() - |g.own|)))
    decreases end - i
  {
    hide Inv, AllocOne, Accessed, View, Rewritten, SameViewsBut, FindFree, Upwards;
    NextFreeBlock(s, g);
    UpwardsStep(|g.own|, Min(end - i, s.NumBlocks() - |g.own|));
    if i == end || |g.own| == s.NumBlocks() {
      NoAccess(s, s);
    } else {
      AllocAccess(s, ref, i, g);
      AllocOneOk(s, ref, n, i, g);
      var s1 := AllocOne(s, ref, i, |g.own|);
      TypeAfterAlloc(s, s1, ref, n);
      AllocLoopAccess(s1, ref, n, i + 1, end, g.(own := g.own + [(n, i)]));
      AccessedThen(s, s1, AllocLoop(s1, ref, i + 1, end).0, [|g.own|],
                   Upwards(|g.own| + 1, Min(end - (i + 1), s.NumBlocks() - (|g.own| + 1))));
    }
  }

  lemma TypeAfterAlloc(s: Fs, s1: Fs, ref: Ref, n: nat)
    requires Refers(s, ref, n) && Rewritten(s, s1, ref) && s.itab[n].itype == FS_FILE
    requires Load(s1, ref).itype == Load(s, ref).itype
    ensures s1.itab[n].itype == FS_FILE
  {
  }

  /** A source block, then the block that takes its copy, for places i .. m-1. */
  function CopyPairs(ino: Inode, i: nat, m: nat, b: nat): (h: seq<nat>)
    decreases m - i
  {
    if i >= m || i >= INODE_BLOCKS then [] else [ino.blocks[i], b] + CopyPairs(ino, i + 1, m, b + 1)
  }

  lemma CopyAccess(s: Fs, k: nat, from: nat, n: nat, i: nat, used: nat, g: Owners)
    requires Copying(s, k, from, n, i, used, g) && i < used && i < INODE_BLOCKS && |g.own| < s.NumBlocks()
    ensures Accessed(s, CopyOne(s, InSlot(k), InRow(n), i, |g.own|).0, [s.icache[k].inode.blocks[i], |g.own|])
  {
    SourceBelow(s, k, from, n, i, used, g);
    InvLimits(s, g);
    NotCachedYet(s, g);
    hide Inv, Add, Set, Accessed, FetchBlock;
    var b, x, row := |g.own|, s.icache[k].inode.blocks[i], s.itab[n];
    var s1 := Save(s.(blkMap := Set(s.blkMap, b)), InRow(n), row.(blocks := row.blocks[i := b]));
    NoAccess(s, s1);
    FetchAccess(s1, x);
    var (s2, data) := FetchBlock(s1, x);
    StillNotCached(s1, x, b);
    var s3 := CopyOne(s, InSlot(k), InRow(n), i, b).0;
    PutAccess(s2, s3, b, data.value);
    AccessedThen(s, s1, s2, [], [x]);
    AccessedThen(s, s2, s3, [] + [x], [b]);
    assert [] + [x] + [b] == [x, b];
  }

  lemma {:induction false} CopyLoopAccess(s: Fs, k: nat, from: nat, n: nat, i: nat, used: nat, g: Owners)
    requires Copying(s, k, from, n, i, used, g) && |g.own| <= s.NumBlocks()
    ensures k < INODE_SLOTS && n < INODES
    ensures Accessed(s, CopyLoop(s, InSlot(k), InRow(n), i, used).0,
                     CopyPairs(s.icache[k].inode, i, Min(used, i + (s.NumBlocks() - |g.own|)), |g.own|))
    decreases used - i
  {
    hide Inv, CopyOne, Accessed, View;
    SourceBelow(s, k, from, n, i, used, g);
    NextFreeBlock(s, g);
    var ino := s.icache[k].inode;
    if i == used || |g.own| == s.NumBlocks() {
      NoAccess(s, s);
    } else {
      CopyAccess(s, k, from, n, i, used, g);
      CopyOneOk(s, k, from, n, i, used, g);
      var s1 := CopyOne(s, InSlot(k), InRow(n), i, |g.own|).0;
      var g1 := g.(own := g.own + [(n, i)]);
      assert Copying(s1, k, from, n, i + 1, used, g1);
      CopyLoopAccess(s1, k, from, n, i + 1, used, g1);
      AccessedThen(s, s1, CopyLoop(s1, InSlot(k), InRow(n), i + 1, used).0, [ino.blocks[i], |g.own|],
                   CopyPairs(ino, i + 1, Min(used, i + 1 + (s1.NumBlocks() - |g1.own|)), |g.own| + 1));
    }
  }

  // ------------------------------------------------------------------ calls

  lemma OwnedOnDevice(s: Fs, ino: Inode, n: nat, nb: nat, own: seq<(nat, nat)>)
    requires |own| <= s.NumBlocks()
    requires forall i: nat :: i < INODE_BLOCKS && i < nb ==> Owns(own, ino.blocks[i], n, i)
    ensures OnDevice(ino, nb, s.NumBlocks())
  {
    forall i: nat | i < INODE_BLOCKS && i < nb ensures 0 < ino.blocks[i] < s.NumBlocks() {
      assert Owns(own, ino.blocks[i], n, i);
    }
  }

  /** The blocks a read of count bytes from offset on looks at. */
  function ReadBlocks(s: Fs, file: nat, offset: nat, count: nat): seq<nat> {
    if !IsFile(s, file) || offset >= Eff(s, file).size then []
    else Span(Eff(s, file), offset, Min(count, Eff(s, file).size - offset))
  }

  lemma ReadAccess(s: Fs, file: nat, offset: nat, count: nat, g: Owners)
    requires Inv(s, g)
    ensures Accessed(s, FsRead(s, file, offset, count).0, ReadBlocks(s, file, offset, count))
  {
    hide Inv, ReadLoop, Accessed, Span, UsesOwned, Fits, Refers, NoDirtyCopy, Resident;
    if file < INODES {
      AcquireKeepsInv(s, file, g);
      AcquireFinds(s, file, g);
      AcquirePages(s, file);
      AcquireSlots(s, file);
      FileFacts(s, file, g);
      TypesOf(s, file, g);
      var (s1, ref) := Acquire(s, file);
      NoAccess(s, s1);
      var ino := Eff(s, file);
      if ref.Some? && ino.itype == FS_FILE && offset < ino.size {
        var max := Min(count, ino.size - offset);
        RecordOnDevice(s, ino, file, g);
        ReadLoopAccess(s1, ino, offset, max, offset / BLOCK_SIZE, []);
        AccessedThen(s, s1, FsRead(s, file, offset, count).0, [], Span(ino, offset, max));
        assert [] + Span(ino, offset, max) == Span(ino, offset, max);
      }
    } else {
      NoAccess(s, s);
    }
  }

  lemma RecordOnDevice(s: Fs, ino: Inode, n: nat, g: Owners)
    requires Inv(s, g) && UsesOwned(ino, n, g.own)
    ensures ino.size <= MAX_FILE && OnDevice(ino, BlocksFor(ino.size), s.NumBlocks())
  {
    InvBounds(s, g);
    hide Inv;
    OwnedOnDevice(s, ino, n, BlocksFor(ino.size), g.own);
  }

  lemma AcquireSlots(s: Fs, n: InodeId)
    ensures Acquire(s, n).0.store == s.store && Acquire(s, n).0.blkMap == s.blkMap
  {
  }

  /** A record with the blocks h from place i on. */
  function WithBlocks(ino: Inode, i: nat, h: seq<nat>): Inode
    requires i + |h| <= INODE_BLOCKS
  {
    ino.(blocks := ino.blocks[..i] + h + ino.blocks[i + |h|..])
  }

  /** The blocks a write of count bytes at o puts into the cache and then changes. */
  function WriteBlocks(s: Fs, ino: Inode, o: nat, count: nat): seq<nat> {
    var used, req := BlocksFor(ino.size), BlocksNeeded(ino.size, o, count);
    var taken := FreshBlocks(s, req);
    if req > 0 && used + req > INODE_BLOCKS then []
    else if |taken| != req || used + req > INODE_BLOCKS then taken
    else taken + Span(WithBlocks(ino, used, taken), o, count)
  }

  lemma {:induction false} UpwardsAre(b: nat, num: nat)
    ensures |Upwards(b, num)| == num && forall j :: 0 <= j < num ==> Upwards(b, num)[j] == b + j
    decreases num
  {
    if num > 0 { UpwardsAre(b + 1, num - 1); }
  }

  /** Reserving blocks accesses the fresh ones, all it asks for or as many as there are. */
  lemma ReserveAccess(s: Fs, ref: Ref, n: nat, used: nat, req: nat, g: Owners)
    requires Inv(s, g) && Refers(s, ref, n) && n < |g.par| && s.itab[n].itype == FS_FILE
    requires used == BlocksFor(Load(s, ref).size) && used + req <= INODE_BLOCKS
    ensures var (s2, ok) := Reserve(s, ref, used, req);
      && Accessed(s, s2, FreshBlocks(s, req)) && (ok <==> |FreshBlocks(s, req)| == req)
      && (ok ==> req == 0 || |g.own| + req <= s.NumBlocks())
  {
    hide Inv, AllocLoop, Accessed, Upwards, AllocEffect, FreshBlocks;
    FreshAre(s, req, g);
    UpwardsAre(|g.own|, Min(req, s.NumBlocks() - |g.own|));
    var taken := FreshBlocks(s, req);
    if req == 0 {
      assert taken == [];
      NoAccess(s, s);
    } else {
      AllocLoopAccess(s, ref, n, used, used + req, g);
      var k := AllocLoopOk(s, ref, n, used, used + req, g);
      var s1 := AllocLoop(s, ref, used, used + req).0;
      NoAccess(s1, MarkDirty(s1, ref));
      AccessedThen(s, s1, MarkDirty(s1, ref), taken, []);
      assert taken + [] == taken;
    }
  }

  /** The record after a reservation holds the fresh blocks, and all blocks the write needs are on the device. */
  lemma ReservedRecord(s: Fs, ref: Ref, n: nat, used: nat, req: nat, o: nat, count: nat, g: Owners)
    requires Inv(s, g) && Refers(s, ref, n) && n < |g.par| && s.itab[n].itype == FS_FILE
    requires used == BlocksFor(Load(s, ref).size) && req == BlocksNeeded(Load(s, ref).size, o, count)
    requires used + req <= INODE_BLOCKS && (req == 0 || |g.own| + req <= s.NumBlocks())
    ensures var (s2, taken) := (Reserve(s, ref, used, req).0, FreshBlocks(s, req));
      && |taken| == req && Load(s2, ref) == WithBlocks(Load(s, ref), used, taken) && o + count <= MAX_FILE
      && OnDevice(Load(s2, ref), BlocksFor(o + count), s2.NumBlocks())
  {
    hide Inv, Reserve, ZeroedFrom, Recorded, Upwards, FreshBlocks;
    ReserveOk(s, ref, n, used, req, g);
    FreshAre(s, req, g);
    UpwardsAre(|g.own|, Min(req, s.NumBlocks() - |g.own|));
    LoadedOk(s, ref, n, g);
    InvBounds(s, g);
    var ino, ino2 := Load(s, ref), Load(Reserve(s, ref, used, req).0, ref);
    assert ino2.blocks == WithBlocks(ino, used, FreshBlocks(s, req)).blocks;
    AllocatedOwns(ino, ino2, n, used, used + req, g.own);
    OwnedOnDevice(s, ino2, n, BlocksFor(o + count), g.own + Places(n, used, used + req));
  }

  lemma LastStep(s: Fs, s3: Fs, file: InodeId, ref: Ref, size: nat)
    requires ValidRef(ref)
    ensures SlotsStay(s3, Grow(s3, file, ref, size))
  {
    hide WriteBack;
  }

  lemma WriteThroughAccess(s: Fs, file: InodeId, ref: Ref, o: nat, buffer: seq<byte>, g: Owners)
    requires Inv(s, g) && Refers(s, ref, file) && file < |g.par| && s.itab[file].itype == FS_FILE
    ensures Accessed(s, WriteThrough(s, file, ref, o, buffer).0, WriteBlocks(s, Load(s, ref), o, |buffer|))
  {
    hide Inv, Accessed, Reserve, WriteLoop, BlocksFor, BlocksNeeded, FreshBlocks, Grow, Span, WithBlocks, OnDevice;
    var ino := Load(s, ref);
    var used, req := BlocksFor(ino.size), BlocksNeeded(ino.size, o, |buffer|);
    assert used <= INODE_BLOCKS by { UsedBound(s, ref, file, g); }
    if req > 0 && used + req > INODE_BLOCKS {
      NoAccess(s, s);
    } else {
      ReserveAccess(s, ref, file, used, req, g);
      var (s2, ok) := Reserve(s, ref, used, req);
      var taken := FreshBlocks(s, req);
      if ok {
        ReservedRecord(s, ref, file, used, req, o, |buffer|, g);
        var ino2 := Load(s2, ref);
        WriteLoopAccess(s2, ino2, o, buffer, 0, o / BLOCK_SIZE);
        var s3 := WriteLoop(s2, ino2, o, buffer, 0, o / BLOCK_SIZE).0;
        var s' := WriteThrough(s, file, ref, o, buffer).0;
        LastStep(s, s3, file, ref, o + |buffer|);
        NoAccess(s3, s');
        AccessedThen(s, s2, s3, taken, Span(ino2, o, |buffer|));
        AccessedThen(s, s3, s', taken + Span(ino2, o, |buffer|), []);
        assert taken + Span(ino2, o, |buffer|) + [] == taken + Span(ino2, o, |buffer|);
      }
    }
  }

  lemma UsedBound(s: Fs, ref: Ref, n: nat, g: Owners)
    requires Inv(s, g) && Refers(s, ref, n) && n < |g.par|
    ensures BlocksFor(Load(s, ref).size) <= INODE_BLOCKS
  {
    LoadedOk(s, ref, n, g);
  }

  /** The blocks a call of fs_write accesses. */
  function WrittenBlocks(s: Fs, file: nat, offset: nat, count: nat): seq<nat> {
    if !IsFile(s, file) then [] else WriteBlocks(s, Eff(s, file), Min(offset, Eff(s, file).size), count)
  }

  lemma WriteAccess(s: Fs, file: nat, offset: nat, buffer: seq<byte>, g: Owners)
    requires Inv(s, g)
    ensures Accessed(s, FsWrite(s, file, offset, buffer).0, WrittenBlocks(s, file, offset, |buffer|))
  {
    hide Inv, Accessed, WriteThrough, WriteBlocks, UsesOwned, Fits, NoDirtyCopy, Resident;
    if file < INODES {
      AcquireKeepsInv(s, file, g);
      AcquireFinds(s, file, g);
      AcquirePages(s, file);
      AcquireSlots(s, file);
      AcquireQuiet(s, file, g);
      FileFacts(s, file, g);
      TypesOf(s, file, g);
      var (s1, ref) := Acquire(s, file);
      NoAccess(s, s1);
      if ref.Some? && Eff(s, file).itype == FS_FILE {
        QuietType(s, s1, file, g);
        var o := Min(offset, Eff(s, file).size);
        WriteThroughAccess(s1, file, ref.value, o, buffer, g);
        SameMapSameBlocks(s, s1, Eff(s, file), o, |buffer|);
        var h := WriteBlocks(s, Eff(s, file), o, |buffer|);
        AccessedThen(s, s1, FsWrite(s, file, offset, buffer).0, [], h);
        assert [] + h == h;
      }
    } else {
      NoAccess(s, s);
    }
  }

  lemma SameMapSameBlocks(s: Fs, s1: Fs, ino: Inode, o: nat, count: nat)
    requires s1.blkMap == s.blkMap && s1.NumBlocks() == s.NumBlocks()
    ensures WriteBlocks(s1, ino, o, count) == WriteBlocks(s, ino, o, count)
  {
    hide Span, WithBlocks, FindFree, Upwards, BlocksFor, BlocksNeeded;
  }

  // ------------------------------------------------------------------ fs_copy

  /** The blocks the data half of fs_copy accesses: none if the new inode took the source's cache slot. */
  function CopiedBlocks(s: Fs, from: InodeId): seq<nat> {
    var b := FindFree(s.blkMap, 0, s.NumBlocks());
    if CopyVictim(s, from) == InodeSlotOf(s.icache, from) || b.None? then []
    else CopyPairs(Eff(s, from), 0, Min(BlocksFor(Eff(s, from).size), s.NumBlocks() - b.value), b.value)
  }

  lemma HoldSlots(s: Fs, n: InodeId, dirty: bool)
    ensures SlotsStay(s, Hold(s, n, dirty).0) && Hold(s, n, dirty).0.blkMap == s.blkMap
    ensures Hold(s, n, dirty).0.NumBlocks() == s.NumBlocks()
  {
    hide WriteBack;
  }

  lemma CopyDataAccess(s: Fs, from: InodeId, n: InodeId, g: Owners)
    requires Inv(s, g) && IsFile(s, from) && Resident(s, from) && NewFile(s, n) && n < |g.par| && from != n
    ensures Accessed(s, CopyData(s, from, n).0, CopiedBlocks(s, from))
  {
    hide Inv, Accessed, Hold, CopyLoop, IsFile, NewFile, Resident, Unseen, CopyPairs;
    var s2, k, v := HoldBoth(s, from, n, g);
    assert k < INODE_SLOTS && n != 0 by { HeldBounds(s, s2, from, n, k, v, g); }
    HoldSlots(s, from, false);
    HoldSlots(Hold(s, from, false).0, n, true);
    NoAccess(s, s2);
    NextFreeBlock(s, g);
    var used := BlocksFor(Load(s2, InSlot(k)).size);
    var s3 := CopyLoop(s2, InSlot(k), InRow(n), 0, used).0;
    var s' := CopyData(s, from, n).0;
    NoAccess(s3, s');
    if k == v {
      assert used == 0 && s3 == s2 by { NothingToCopy(s2, k, n); }
      AccessedThen(s, s2, s', [], []);
      assert [] + CopiedBlocks(s, from) == [];
    } else {
      HeldCopying(s, s2, from, n, k, v, g);
      CopyLoopAccess(s2, k, from, n, 0, used, g);
      var h := CopyPairs(Eff(s, from), 0, Min(used, s.NumBlocks() - |g.own|), |g.own|);
      AccessedThen(s, s2, s3, [], h);
      AccessedThen(s, s3, s', [] + h, []);
      assert [] + h + [] == h;
      if |g.own| == s.NumBlocks() { NoPairs(Eff(s, from), |g.own|); }
    }
  }

  lemma NoPairs(ino: Inode, b: nat)
    ensures CopyPairs(ino, 0, 0, b) == []
  {
  }

  lemma NothingToCopy(s2: Fs, k: nat, n: InodeId)
    requires k < INODE_SLOTS && s2.icache[k].inode == NewInode(FS_FILE)
    ensures BlocksFor(s2.icache[k].inode.size) == 0
    ensures CopyLoop(s2, InSlot(k), InRow(n), 0, 0) == (s2, Ok(()))
  {
  }

  /** The blocks a call of fs_copy accesses. */
  function CopyBlocks(s: Fs, srcPath: seq<byte>, tgtPath: seq<byte>): seq<nat> {
    var (s1, l) := FsLookup(s, srcPath);
    if !l.Found? then []
    else
      var (s2, a) := FsGetAttrs(s1, l.id);
      if !a.Ok? || a.value.itype != FS_FILE || l.id >= INODES || LastSlash(tgtPath).None? then []
      else
        var (s3, made) := MakeTarget(s2, DirPart(tgtPath), FileName(tgtPath));
        if !made.Ok? then [] else CopiedBlocks(s3, l.id)
  }

  lemma MakeSlots(s: Fs, dir: nat, name: seq<byte>, itype: nat, g: Owners)
    requires Inv(s, g)
    ensures MakeNode(s, dir, name, itype).0.store.slots == s.store.slots
  {
    hide Inv, DirSearch, MakeNode, IsEntry;
    MakeBounds(s, dir, g);
    MakeKeepsSlots(s, dir, name, itype);
    if dir < |g.par| && IsDir(s.itab, dir) && name != [] { DirSearchSound(s, dir, name, g); }
  }

  lemma MakeKeepsSlots(s: Fs, dir: nat, name: seq<byte>, itype: nat)
    ensures var s' := MakeNode(s, dir, name, itype).0;
      s' == s || (dir < INODES && IsSet(s.inoMap, dir) && IsDir(s.itab, dir) && name != []
                  && s'.store.slots == DirSearch(s, dir, name).0.store.slots)
  {
    hide DirSearch, FindFree, Set, RoomForEntry, AppendEntry, TableBlock;
    if dir < INODES && |name| < NAME_SIZE {
      var s1 := DirSearch(s, dir, name).0;
      var n := FindFree(s1.inoMap, 0, INODES);
      if n.Some? { EntrySlots(s1, dir, name, n.value); }
    }
  }

  lemma EntrySlots(s: Fs, dir: InodeId, name: seq<byte>, n: nat)
    requires |name| < NAME_SIZE
    ensures var s2 := RoomForEntry(s, dir).0;
      s2.store.slots == s.store.slots && AppendEntry(s2, dir, name, n).0.store.slots == s.store.slots
  {
    hide FindFree, Set, PutEntry, NewEntry, PageEntry;
  }

  lemma MakeTargetSlots(s: Fs, dirPart: seq<byte>, name: seq<byte>, g: Owners)
    requires Inv(s, g)
    ensures SlotsStay(s, MakeTarget(s, dirPart, name).0)
  {
    hide Inv, FsLookup, MakeNode, Resolves, L.Ticking;
    LookupSound(s, dirPart, g);
    LookupLater(s, dirPart);
    var (s1, l) := FsLookup(s, dirPart);
    if l.Found? {
      MakeSlots(s1, l.id, name, FS_FILE, g);
      MakeLater(s1, l.id, name, FS_FILE);
    }
  }

  lemma CopyCallAccess(s: Fs, srcPath: seq<byte>, tgtPath: seq<byte>, g: Owners)
    requires Inv(s, g) && IsCString(tgtPath) && !CopyFaults(s, srcPath, tgtPath)
    ensures Accessed(s, FsCopy(s, srcPath, tgtPath).0, CopyBlocks(s, srcPath, tgtPath))
  {
    hide Inv, Accessed, FsLookup, FsGetAttrs, MakeTarget, CopyData, CopiedBlocks, Quiet, Resolves, IsFile, Resident,
          TargetFits, OnlySlashes, LastSlash, L.Ticking;
    LookupSound(s, srcPath, g);
    LookupLater(s, srcPath);
    var (s1, l) := FsLookup(s, srcPath);
    NoAccess(s, s1);
    if l.Found? {
      CopySource(s1, l.id, g);
      SourceType(s1, l.id, g);
      AttrsPages(s1, l.id);
      AttrsSlots(s1, l.id);
      var (s2, a) := FsGetAttrs(s1, l.id);
      NoAccess(s, s2);
      if a.value.itype == FS_FILE && LastSlash(tgtPath).Some? {
        QuietInv(s1, s2, g);
        CopyIntoAccess(s2, l.id, DirPart(tgtPath), FileName(tgtPath), g);
        var h := CopyBlocks(s, srcPath, tgtPath);
        AccessedThen(s, s2, FsCopy(s, srcPath, tgtPath).0, [], h);
        assert [] + h == h;
      }
    }
  }

  lemma AttrsSlots(s: Fs, file: nat)
    ensures FsGetAttrs(s, file).0.store == s.store
  {
    hide AddInode, TouchInode;
    if file < INODES { AcquireSlots(s, file); }
  }

  lemma CopyIntoAccess(s: Fs, from: InodeId, dirPart: seq<byte>, name: seq<byte>, g: Owners)
    requires Inv(s, g) && IsCString(name) && !OnlySlashes(dirPart) && IsFile(s, from) && Resident(s, from)
    ensures var (s2, made) := MakeTarget(s, dirPart, name);
      Accessed(s, CopyInto(s, from, dirPart, name).0, if made.Ok? then CopiedBlocks(s2, from) else [])
  {
    hide Inv, Accessed, MakeTarget, CopyData, CopiedBlocks, Files, CoherentAt, Eff, Content, Resident, NewFile, IsFile,
          EntryMade, SameEntries;
    var g2 := MakeTargetOk(s, dirPart, name, g);
    var (s2, made) := MakeTarget(s, dirPart, name);
    MakeTargetSlots(s, dirPart, name, g);
    NoAccess(s, s2);
    if made.Ok? {
      var n: nat := made.value;
      assert n < INODES by { NewFileBound(s2, n); }
      FileFacts(s, from, g);
      FileInMap(s, from);
      FileInMap(s2, from);
      assert Resident(s2, from) by { SameCacheSameResidents(s, s2, from); }
      CopyDataAccess(s2, from, n, g2);
      var h := CopiedBlocks(s2, from);
      AccessedThen(s, s2, CopyData(s2, from, n).0, [], h);
      assert [] + h == h;
    }
  }

  // ------------------------------------------------------------------ runs

  /** The blocks one call accesses, in order. */
  function BlocksOf(s: Fs, c: Call): seq<nat> {
    match c
    case ReadAt(file, offset, count) => ReadBlocks(s, file, offset, count)
    case WriteAt(file, offset, buffer) => WrittenBlocks(s, file, offset, |buffer|)
    case CopyTo(src, tgt) => CopyBlocks(s, src, tgt)
    case _ => []
  }

  function BlocksOfRun(s: Fs, calls: seq<Call>): seq<nat>
    decreases |calls|
  {
    if calls == [] then [] else BlocksOf(s, calls[0]) + BlocksOfRun(Step(s, calls[0]).0, calls[1..])
  }

  lemma StepAccess(s: Fs, c: Call, g: Owners)
    requires Inv(s, g) && Proper(c)
    ensures Accessed(s, Step(s, c).0, BlocksOf(s, c))
  {
    hide Inv, Accessed, FsGetAttrs, FsLookup, FsRead, FsWrite, MakeNode, FsReaddir, FsCopy, ReadBlocks, WrittenBlocks,
          CopyBlocks, L.Ticking, Quiet, Resolves, LinesSound, TargetFits, OnlySlashes, LastSlash;
    StepLater(s, c);
    match c
    case AttrsOf(file) => AttrsSlots(s, file); NoAccess(s, Step(s, c).0);
    case LookUp(path) => LookupSound(s, path, g); NoAccess(s, Step(s, c).0);
    case ReadAt(file, offset, count) => ReadAccess(s, file, offset, count, g);
    case WriteAt(file, offset, buffer) => WriteAccess(s, file, offset, buffer, g);
    case CreateIn(dir, name) => MakeSlots(s, dir, name, FS_FILE, g); NoAccess(s, Step(s, c).0);
    case MkdirIn(dir, name) => MakeSlots(s, dir, name, FS_DIR, g); NoAccess(s, Step(s, c).0);
    case ListOf(dir, max) => ReaddirSlots(s, dir, max, g); NoAccess(s, Step(s, c).0);
    case CopyTo(src, tgt) => CopyCallAccess(s, src, tgt, g);
  }

  lemma ReaddirSlots(s: Fs, dir: nat, max: int, g: Owners)
    requires Inv(s, g)
    ensures FsReaddir(s, dir, max).0.store == s.store
  {
    hide Inv, ListBlocks, Quiet, Eff, DirPrefix, Refers, NoDirtyCopy, Resident;
    if dir < INODES && 0 <= max {
      MakeBounds(s, dir, g);
      AcquireSlots(s, dir);
      AcquireQuiet(s, dir, g);
      AcquireKeepsInv(s, dir, g);
      AcquireFinds(s, dir, g);
      FileFacts(s, dir, g);
      var s1 := Acquire(s, dir).0;
      if dir < |g.par| && IsDir(s.itab, dir) {
        CachedDirFacts(s, dir, g);
        QuietInv(s, s1, g);
        AcquiredDir(s, dir, g);
        var none: seq<Listed> := [];
        ListBlocksOk(s1, dir, Eff(s, dir), 0, Min(Count(Eff(s, dir)), max), none, g);
      }
    }
  }

  lemma {:induction false} RunAccess(s: Fs, calls: seq<Call>, g: Owners)
    requires Inv(s, g) && forall i :: 0 <= i < |calls| ==> Proper(calls[i])
    ensures Accessed(s, Run(s, calls).0, BlocksOfRun(s, calls))
    decreases |calls|
  {
    hide Inv, Step, Proper, Accessed, BlocksOf, Faulty, Acts;
    if calls == [] {
      NoAccess(s, s);
    } else {
      var s1 := Step(s, calls[0]).0;
      StepAccess(s, calls[0], g);
      var g1 := StepOk(s, calls[0], g);
      RunAccess(s1, calls[1..], g1);
      AccessedThen(s, s1, Run(s1, calls[1..]).0, BlocksOf(s, calls[0]), BlocksOfRun(s1, calls[1..]));
    }
  }

  /**
   After any run from the formatted disk, with times that strictly increase, the cached blocks are exactly the ten the
   calls accessed most recently.
   */
  lemma RunsCacheTheMostRecent(n: nat, time: nat -> int, calls: seq<Call>, b: nat)
    requires META_BLOCKS < n <= 8 * BLOCK_SIZE && L.Ticking(time) && 0 < b
    requires forall i :: 0 <= i < |calls| ==> Proper(calls[i])
    ensures var s := Formatted(n, time);
      b in Nums(Run(s, calls).0.store.slots) <==> b in L.Head(L.Recency(BlocksOfRun(s, calls)))
  {
    hide Formatted, Run, BlocksOfRun, Inv, Proper, L.Ticking, L.Recency, L.Head, Recent;
    FormattedOk(n, time);
    FormattedStore(n, time);
    var s := Formatted(n, time);
    var s', h := Run(s, calls).0, BlocksOfRun(s, calls);
    RunAccess(s, calls, START);
    L.TickingPositive(time, 0);
    NothingRecent(s);
    assert [] + h == h;
    RecentIsCached(s', h, b);
  }

  lemma NothingRecent(s: Fs)
    requires s.store.slots == EmptyCache() && s.Now() > 0
    ensures Recent(s, [])
  {
    L.NothingCached(s.Now());
  }

  lemma RecentIsCached(s: Fs, h: seq<nat>, b: nat)
    requires Recent(s, h) && 0 < b
    ensures b in Nums(s.store.slots) <==> b in L.Head(L.Recency(h))
  {
    hide L.TracksHistory, L.Recency, L.Head;
    var order: seq<nat> :| L.TracksHistory(s.store.slots, order, h, s.Now());
    L.InOrder(s.store.slots, order, h, s.Now(), b);
  }
}
