/** The write loop of fs_write lays the caller's bytes over the file and touches no other inode's blocks. */
module FsSplice {
  import opened Bytes
  import opened BlockStore
  import opened FsState
  import opened FsFiles
  import opened FsInv
  import opened FsContent

  /** The first nb block entries of the record are owned at their places. */
  ghost predicate OwnsUpTo(ino: Inode, n: nat, own: seq<(nat, nat)>, nb: nat) {
    forall i: nat :: i < INODE_BLOCKS && i < nb ==> Owns(own, ino.blocks[i], n, i)
  }

  /** Views of blocks that inode n does not own are unchanged. */
  ghost predicate OthersKept(st: Store, st': Store, n: nat, own: seq<(nat, nat)>) {
    && SameBlockZero(st, st')
    && forall c: nat :: 0 < c < |st.disk| && !(c < |own| && own[c].0 == n) ==> View(st', c) == View(st, c)
  }

  /** Byte p of the record is the buffer's inside [from, to), and what it was elsewhere. */
  ghost predicate Spliced(st: Store, st': Store, ino: Inode, nb: nat, offset: nat, buffer: seq<byte>, from: nat,
        to: nat)
    requires from <= to <= |buffer|
  {
    forall p: nat :: p < BLOCK_SIZE * nb ==>
      ByteAt(st', ino, p) == if offset + from <= p < offset + to then buffer[p - offset] else ByteAt(st, ino, p)
  }

  lemma InvStore(s: Fs, g: Owners)
    requires Inv(s, g)
    ensures StoreOk(s.store, s.itab, g.own) && |g.own| <= s.NumBlocks()
  {
  }

  lemma UpdateBlockOk(s: Fs, b: nat, start: nat, chunk: seq<byte>, g: Owners)
    requires Inv(s, g) && IsFileBlock(g.own, s.itab, b) && start + |chunk| <= BLOCK_SIZE
    ensures var (s', ok) := UpdateBlock(s, b, start, chunk);
      && ok && Inv(s', g) && s' == s.(store := s'.store, ticks := s'.ticks)
      && View(s'.store, b) == Overlay(View(s.store, b), start, chunk)
      && SameViewsBut(s.store, s'.store, b)
  {
    hide Inv, StoreOk, Overlay, SameViewsBut;
    assert StoreOk(s.store, s.itab, g.own) && |g.own| <= s.NumBlocks() by { InvStore(s, g); }
    var k := Slotted(s.store, b);
    var s' := UpdateBlock(s, b, start, chunk).0;
    var data := Overlay(View(s.store, b), start, chunk);
    if k < CACHE_SLOTS {
      StorePut(s.store, k, data, s.time(s.ticks + 1), s.itab, g.own);
    } else {
      StoreAdd(s.store, b, data, true, s.Now(), s.itab, g.own);
    }
    StoreStepKeepsInv(s, s', g);
  }

  /** Overlaying one block of the record splices that block's share of the buffer into the record. */
  lemma OverlaySplices(st: Store, st': Store, ino: Inode, n: nat, nb: nat, offset: nat, buffer: seq<byte>, num: nat,
        w: nat, own: seq<(nat, nat)>)
    requires OwnsUpTo(ino, n, own, nb) && nb <= INODE_BLOCKS && |own| <= |st.disk|
    requires num + w <= |buffer| && (offset + num) % BLOCK_SIZE + w <= BLOCK_SIZE && (offset + num) / BLOCK_SIZE < nb
    requires var q := offset + num; var b := ino.blocks[q / BLOCK_SIZE];
      View(st', b) == Overlay(View(st, b), q % BLOCK_SIZE, buffer[num..num + w]) && SameViewsBut(st, st', b)
    ensures Spliced(st, st', ino, nb, offset, buffer, num, num + w)
  {
    var q := offset + num;
    var i := q / BLOCK_SIZE;
    hide View;
    forall p: nat | p < BLOCK_SIZE * nb
      ensures ByteAt(st', ino, p) == if offset + num <= p < offset + num + w then buffer[p - offset] else ByteAt(st,
            ino, p)
    {
      assert Owns(own, ino.blocks[i], n, i);
      assert Owns(own, ino.blocks[p / BLOCK_SIZE], n, p / BLOCK_SIZE);
      OneByteSplices(st, st', ino, p, i, offset, buffer, num, w);
    }
  }

  lemma OneByteSplices(st: Store, st': Store, ino: Inode, p: nat, i: nat, offset: nat, buffer: seq<byte>, num: nat,
        w: nat)
    requires i == (offset + num) / BLOCK_SIZE && i < INODE_BLOCKS && p / BLOCK_SIZE < INODE_BLOCKS
    requires num + w <= |buffer| && (offset + num) % BLOCK_SIZE + w <= BLOCK_SIZE
    requires View(st', ino.blocks[i]) == Overlay(View(st, ino.blocks[i]), (offset + num) % BLOCK_SIZE,
          buffer[num..num + w])
    requires p / BLOCK_SIZE != i ==> View(st', ino.blocks[p / BLOCK_SIZE]) == View(st, ino.blocks[p / BLOCK_SIZE])
    ensures ByteAt(st', ino, p) == if offset + num <= p < offset + num + w then buffer[p - offset] else ByteAt(st, ino,
          p)
  {
    hide View;
    var start := (offset + num) % BLOCK_SIZE;
    if p / BLOCK_SIZE == i {
      assert p == BLOCK_SIZE * i + p % BLOCK_SIZE;
      assert offset + num == BLOCK_SIZE * i + start;
      var q := p % BLOCK_SIZE;
      if start <= q < start + w {
        assert buffer[num..num + w][q - start] == buffer[p - offset];
      }
    }
  }

  /** The write loop has put num bytes in place and is about to look at the block of the next. */
  ghost predicate Writing(s: Fs, ino: Inode, n: nat, nb: nat, offset: nat, buffer: seq<byte>, num: nat, iblock: nat,
        g: Owners) {
    && Inv(s, g) && n < INODES && s.itab[n].itype == FS_FILE && OwnsUpTo(ino, n, g.own, nb) && nb <= INODE_BLOCKS
    && offset + |buffer| <= BLOCK_SIZE * nb && num <= |buffer|
    && (num == |buffer| || iblock == (offset + num) / BLOCK_SIZE)
    && (num == 0 || num == |buffer| || (offset + num) % BLOCK_SIZE == 0)
  }

  lemma WriteTurn(s: Fs, ino: Inode, n: nat, nb: nat, offset: nat, buffer: seq<byte>, num: nat, iblock: nat, g: Owners)
    returns (s1: Fs, num1: nat)
    requires Writing(s, ino, n, nb, offset, buffer, num, iblock, g) && num < |buffer|
    ensures Writing(s1, ino, n, nb, offset, buffer, num1, iblock + 1, g) && num < num1 <= |buffer|
    ensures WriteLoop(s, ino, offset, buffer, num, iblock) == WriteLoop(s1, ino, offset, buffer, num1, iblock + 1)
    ensures s1 == s.(store := s1.store, ticks := s1.ticks) && OthersKept(s.store, s1.store, n, g.own)
    ensures Spliced(s.store, s1.store, ino, nb, offset, buffer, num, num1)
  {
    hide Inv, View, UpdateBlock, Overlay, Spliced;
    InvBounds(s, g);
    var q := offset + num;
    assert Owns(g.own, ino.blocks[iblock], n, iblock);
    var w := Min(BLOCK_SIZE - q % BLOCK_SIZE, |buffer| - num);
    UpdateBlockOk(s, ino.blocks[iblock], q % BLOCK_SIZE, buffer[num..num + w], g);
    s1, num1 := UpdateBlock(s, ino.blocks[iblock], q % BLOCK_SIZE, buffer[num..num + w]).0, num + w;
    OverlaySplices(s.store, s1.store, ino, n, nb, offset, buffer, num, w, g.own);
  }

  lemma SplicesCompose(st: Store, st1: Store, st2: Store, ino: Inode, nb: nat, offset: nat, buffer: seq<byte>, a: nat,
        b: nat, c: nat)
    requires a <= b <= c <= |buffer|
    requires Spliced(st, st1, ino, nb, offset, buffer, a, b) && Spliced(st1, st2, ino, nb, offset, buffer, b, c)
    ensures Spliced(st, st2, ino, nb, offset, buffer, a, c)
  {
    hide ByteAt;
  }

  lemma OthersKeptTwice(st: Store, st1: Store, st2: Store, n: nat, own: seq<(nat, nat)>)
    requires OthersKept(st, st1, n, own) && OthersKept(st1, st2, n, own)
    ensures OthersKept(st, st2, n, own)
  {
    hide View;
  }

  lemma WritingBound(s: Fs, ino: Inode, n: nat, nb: nat, offset: nat, buffer: seq<byte>, num: nat, iblock: nat,
        g: Owners)
    requires Writing(s, ino, n, nb, offset, buffer, num, iblock, g)
    ensures num <= |buffer|
  {
  }

  lemma WriteDone(s: Fs, ino: Inode, n: nat, nb: nat, offset: nat, buffer: seq<byte>, iblock: nat, g: Owners)
    requires Writing(s, ino, n, nb, offset, buffer, |buffer|, iblock, g)
    ensures WriteLoop(s, ino, offset, buffer, |buffer|, iblock) == (s, Ok(())) && Inv(s, g)
    ensures OthersKept(s.store, s.store, n, g.own) && Spliced(s.store, s.store, ino, nb, offset, buffer, |buffer|,
          |buffer|)
  {
    hide Inv, View, ByteAt;
  }

  /** The loop puts the whole rest of the buffer in place and never fails. */
  lemma {:induction false} WriteLoopOk(s: Fs, ino: Inode, n: nat, nb: nat, offset: nat, buffer: seq<byte>, num: nat,
        iblock: nat, g: Owners)
    requires Writing(s, ino, n, nb, offset, buffer, num, iblock, g)
    ensures num <= |buffer|
    ensures var (s', r) := WriteLoop(s, ino, offset, buffer, num, iblock);
      && r == Ok(()) && Inv(s', g) && s' == s.(store := s'.store, ticks := s'.ticks)
      && OthersKept(s.store, s'.store, n, g.own) && Spliced(s.store, s'.store, ino, nb, offset, buffer, num, |buffer|)
    decreases |buffer| - num
  {
    hide Inv, Writing, View, Spliced, WriteLoop, OthersKept;
    WritingBound(s, ino, n, nb, offset, buffer, num, iblock, g);
    if num == |buffer| {
      WriteDone(s, ino, n, nb, offset, buffer, iblock, g);
    } else {
      var s1, num1 := WriteTurn(s, ino, n, nb, offset, buffer, num, iblock, g);
      WriteLoopOk(s1, ino, n, nb, offset, buffer, num1, iblock + 1, g);
      var s2 := WriteLoop(s1, ino, offset, buffer, num1, iblock + 1).0;
      SplicesCompose(s.store, s1.store, s2.store, ino, nb, offset, buffer, num, num1, |buffer|);
      OthersKeptTwice(s.store, s1.store, s2.store, n, g.own);
    }
  }
}
