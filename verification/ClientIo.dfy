/**
 my_read and my_write of snfs_lib/myfs.c: one large transfer made of requests of at most 1024 bytes, against a server
 on which other clients may change the file between requests and a write may not show up (ClientOnServer says when).
 */
module ClientIo {
  import opened Bytes
  import opened FsWriting
  import opened FsCalls

  const MAX_DATA: nat := 1024

  /** The write requests of one large write: pieces of at most 1024 bytes, each where the one before ended. */
  function Chunks(offset: nat, data: seq<byte>): (r: seq<(nat, seq<byte>)>)
    decreases |data|
  {
    if data == [] then []
    else
      var n := Min(|data|, MAX_DATA);
      [(offset, data[..n])] + Chunks(offset + n, data[n..])
  }

  /** What one served write makes of a file. */
  function Written(c: seq<byte>, offset: nat, data: seq<byte>, shown: bool): (r: seq<byte>)
    ensures |r| >= |c|
  {
    var spliced := Splice(c, Min(offset, |c|), data);
    if shown then spliced else spliced[..|c|]
  }

  /** What the requests of one large write make of it, the first of them being the call with this number. */
  function InPieces(c: seq<byte>, offset: nat, data: seq<byte>, shows: nat -> bool, call: nat): seq<byte>
    decreases |data|
  {
    if data == [] then c
    else
      var n := Min(|data|, MAX_DATA);
      InPieces(Written(c, offset, data[..n], shows(call)), offset + n, data[n..], shows, call + 1)
  }

  /** Whole pieces and one more. */
  lemma {:induction false} InPiecesAppend(c: seq<byte>, offset: nat, a: seq<byte>, b: seq<byte>, shows: nat -> bool,
        call: nat, k: nat)
    requires |a| == k * MAX_DATA && 0 < |b| <= MAX_DATA
    ensures InPieces(c, offset, a + b, shows, call)
         == Written(InPieces(c, offset, a, shows, call), offset + |a|, b, shows(call + k))
    decreases k
  {
    hide Written;
    if k == 0 {
      assert a + b == b && b[..|b|] == b && b[|b|..] == [];
    } else {
      var first, rest := a[..MAX_DATA], a[MAX_DATA..];
      assert (a + b)[..MAX_DATA] == first && (a + b)[MAX_DATA..] == rest + b;
      InPiecesAppend(Written(c, offset, first, shows(call)), offset + MAX_DATA, rest, b, shows, call + 1, k - 1);
    }
  }

  /** When every piece shows up they are one splice. */
  lemma {:induction false} ShownPiecesAreOneSplice(c: seq<byte>, offset: nat, data: seq<byte>, shows: nat -> bool,
        call: nat)
    requires forall i: nat :: call <= i ==> shows(i)
    ensures InPieces(c, offset, data, shows, call) == Splice(c, Min(offset, |c|), data)
    decreases |data|
  {
    hide Splice;
    if data == [] {
      SpliceNothing(c, Min(offset, |c|));
    } else {
      var n := Min(|data|, MAX_DATA);
      var c1 := Splice(c, Min(offset, |c|), data[..n]);
      PiecesJoin(c, offset, data, n);
      ShownPiecesAreOneSplice(c1, offset + n, data[n..], shows, call + 1);
    }
  }

  /** A splice and then the rest where it ended, both clipped to the file's end, are one clipped splice. */
  lemma PiecesJoin(c: seq<byte>, offset: nat, data: seq<byte>, n: nat)
    requires n <= |data|
    ensures var c1 := Splice(c, Min(offset, |c|), data[..n]);
      Splice(c1, Min(offset + n, |c1|), data[n..]) == Splice(c, Min(offset, |c|), data)
  {
    hide Splice;
    SpliceTwice(c, Min(offset, |c|), data[..n], data[n..]);
    assert data[..n] + data[n..] == data;
  }

  /** One file of the server, and the world around it. */
  class Remote {
    var content: seq<byte>
    var calls: nat
    /** All write requests so far, served or not. */
    ghost var requests: seq<(nat, seq<byte>)>
    /** The sizes reported to the client, one for each write served. */
    ghost var sizes: seq<nat>
    /** Requests not answered with STAT_OK, and what others do to the file before each request is served. */
    const fails: nat -> bool
    const others: nat -> (seq<byte> -> seq<byte>)
    /** Writes that show up as a whole; of the others only what lies within the old size is seen. */
    const shows: nat -> bool

    constructor (c: seq<byte>, f: nat -> bool, o: nat -> (seq<byte> -> seq<byte>), w: nat -> bool)
      ensures content == c && calls == 0 && requests == [] && sizes == [] && fails == f && others == o && shows == w
    {
      content, calls, requests, sizes, fails, others, shows := c, 0, [], [], f, o, w;
    }

    /** Files never shrink. */
    ghost predicate Growing() {
      forall i: nat, c: seq<byte> :: |others(i)(c)| >= |c|
    }

    /** Nobody else changes the file. */
    ghost predicate Quiet() {
      forall i: nat, c: seq<byte> :: others(i)(c) == c
    }

    /** Every write shows up. */
    ghost predicate Showing() {
      forall i: nat :: shows(i)
    }

    method Read(offset: nat, count: nat) returns (ok: bool, data: seq<byte>)
      modifies this`content, this`calls
      ensures calls == old(calls) + 1 && content == others(old(calls))(old(content))
      ensures ok <==> count <= MAX_DATA && !fails(old(calls))
      ensures ok ==> data == Slice(content, offset, count)
    {
      content := others(calls)(content);
      ok := count <= MAX_DATA && !fails(calls);
      data := if ok then Slice(content, offset, count) else [];
      calls := calls + 1;
    }

    method Write(offset: nat, data: seq<byte>) returns (ok: bool, size: nat)
      modifies this
      ensures calls == old(calls) + 1 && requests == old(requests) + [(offset, data)]
      ensures ok <==> |data| <= MAX_DATA && !fails(old(calls))
      ensures var c := others(old(calls))(old(content));
        content == if ok then Written(c, offset, data, shows(old(calls))) else c
      ensures ok ==> size == |content|
      ensures sizes == old(sizes) + if ok then [size] else []
    {
      content := others(calls)(content);
      ok := |data| <= MAX_DATA && !fails(calls);
      if ok {
        content := Written(content, offset, data, shows(calls));
      }
      size := |content|;
      if ok {
        sizes := sizes + [size];
      }
      requests := requests + [(offset, data)];
      calls := calls + 1;
    }
  }

  /** An open file: the size last heard of, and the two offsets. */
  class Descriptor {
    var size: nat
    var readOffset: nat
    var writeOffset: nat

    constructor (s: nat)
      ensures size == s && readOffset == 0 && writeOffset == 0
    {
      size, readOffset, writeOffset := s, 0, 0;
    }

    /** The descriptor never claims more than the server has; its offsets lie within that while writes show up. */
    ghost predicate Fits(remote: Remote)
      reads this, remote
    {
      readOffset <= size <= |remote.content| && (remote.Showing() ==> writeOffset <= |remote.content|)
    }
  }

  /** The size last reported of those in a log, or the one known before. */
  function LastSize(before: nat, log: seq<nat>): nat {
    if log == [] then before else log[|log| - 1]
  }

  /** The requests from one call on: a transfer fails exactly if the last of them was refused, and none was before. */
  ghost predicate EndsWith(remote: Remote, from: nat, failed: bool)
    reads remote
  {
    && from <= remote.calls && (forall i: nat :: from <= i < remote.calls - 1 ==> !remote.fails(i))
    && (failed <==> from < remote.calls && remote.fails(remote.calls - 1))
  }

  /** The clipping step of my_read, with the sum computed in 32 bits. */
  function Clip(size: nat, offset: nat, count: nat): nat
    requires offset <= size
  {
    if size < (offset + count) % U32 then size - offset else count
  }

  /** For any file the step clips to the file's end exactly when the sum does not wrap. */
  lemma ClipIff(size: nat, offset: nat, count: nat)
    requires offset <= size < U32 && count < U32
    ensures Clip(size, offset, count) == Min(count, size - offset) <==> offset + count < U32
  {
  }

  /** Bytes still to come after k turns of the loop of my_read on a file nobody changes. */
  function LeftAfter(content: seq<byte>, offset: nat, want: nat, k: nat): nat
    decreases k
  {
    if k == 0 then want
    else
      var got := |Slice(content, offset, Min(want, MAX_DATA))|;
      LeftAfter(content, offset + got, want - got, k - 1)
  }

  lemma {:induction false} NeverMoreThanThereIs(content: seq<byte>, offset: nat, want: nat, k: nat)
    requires offset <= |content| && want > |content| - offset
    ensures LeftAfter(content, offset, want, k) > 0
    decreases k
  {
    if k > 0 {
      var got := |Slice(content, offset, Min(want, MAX_DATA))|;
      NeverMoreThanThereIs(content, offset + got, want - got, k - 1);
    }
  }

  lemma {:induction false} AllThereIs(content: seq<byte>, offset: nat, want: nat) returns (k: nat)
    requires offset <= |content| && want <= |content| - offset
    ensures LeftAfter(content, offset, want, k) == 0
    decreases want
  {
    if want == 0 {
      k := 0;
    } else {
      var got := Min(want, MAX_DATA);
      var rest := AllThereIs(content, offset + got, want - got);
      k := rest + 1;
    }
  }

  /** On a file nobody changes the loop of my_read ends exactly when the sum of offset and count does not wrap. */
  lemma ReadEndsIff(content: seq<byte>, offset: nat, count: nat)
    requires offset < |content| < U32 && count < U32
    ensures (exists k: nat :: LeftAfter(content, offset, Clip(|content|, offset, count), k) == 0)
      <==> offset + count < U32
  {
    var want := Clip(|content|, offset, count);
    if offset + count < U32 {
      var k := AllThereIs(content, offset, want);
    } else {
      forall k: nat ensures LeftAfter(content, offset, want, k) > 0 { NeverMoreThanThereIs(content, offset, want, k); }
    }
  }

  // ------------------------------------------------------------------ pieces

  /** Two splices, the second where the first ended, are one. */
  lemma SpliceTwice(c: seq<byte>, offset: nat, a: seq<byte>, b: seq<byte>)
    requires offset <= |c|
    ensures Splice(Splice(c, offset, a), offset + |a|, b) == Splice(c, offset, a + b)
  {
    hide Splice;
    var once, twice := Splice(c, offset, a + b), Splice(Splice(c, offset, a), offset + |a|, b);
    assert |once| == |twice|;
    forall p | 0 <= p < |once| ensures once[p] == twice[p] {}
  }

  lemma SpliceNothing(c: seq<byte>, offset: nat)
    requires offset <= |c|
    ensures Splice(c, offset, []) == c
  {
  }

  // ------------------------------------------------------------------ my_read

  /** One turn of the loop of my_read. */
  method ReadChunk(fd: Descriptor, remote: Remote, buffer: array<byte>, counter: nat, chunk: nat) returns (ok: bool)
    requires remote.Growing() && fd.Fits(remote) && 0 < chunk <= MAX_DATA
    requires fd.readOffset + chunk <= fd.size && counter + chunk <= buffer.Length
    modifies fd`readOffset, remote`content, remote`calls, buffer
    ensures fd.Fits(remote) && fd.readOffset == old(fd.readOffset) + if ok then chunk else 0
    ensures remote.calls == old(remote.calls) + 1 && (ok <==> !remote.fails(old(remote.calls)))
    ensures buffer[..counter] == old(buffer[..counter]) && buffer[counter + chunk..] == old(buffer[counter + chunk..])
    ensures !ok ==> buffer[..] == old(buffer[..])
    ensures remote.Quiet() ==> remote.content == old(remote.content)
    ensures remote.Quiet() && ok ==>
          buffer[counter..counter + chunk] == remote.content[old(fd.readOffset)..fd.readOffset]
  {
    ghost var before, call := remote.content, remote.calls;
    assert |remote.others(call)(before)| >= |before|;
    var data;
    ok, data := remote.Read(fd.readOffset, chunk);
    if ok {
      assert |data| == chunk;
      forall i | 0 <= i < chunk {
        buffer[counter + i] := data[i];
      }
      assert buffer[counter..counter + chunk] == data;
      fd.readOffset := fd.readOffset + chunk;
    }
  }

  /** What a read of the next want bytes leaves when it got as far as done bytes. */
  twostate predicate Delivered(fd: Descriptor, remote: Remote, buffer: array<byte>, want: nat, done: nat)
    requires fd.Fits(remote) && done <= want <= buffer.Length
    reads fd, remote, buffer
  {
    && fd.readOffset == old(fd.readOffset) + done && fd.size == old(fd.size) && fd.writeOffset == old(fd.writeOffset)
    && buffer[done..] == old(buffer[done..])
    && (remote.Quiet() ==> remote.content == old(remote.content)
                           && buffer[..done] == remote.content[old(fd.readOffset)..fd.readOffset])
  }

  /** The loop of my_read. */
  method ReadAll(fd: Descriptor, remote: Remote, buffer: array<byte>, want: nat) returns (r: int, ghost done: nat)
    requires remote.Growing() && fd.Fits(remote) && want <= buffer.Length && fd.readOffset + want <= fd.size
    modifies fd`readOffset, remote`content, remote`calls, buffer
    ensures fd.Fits(remote) && done <= want && Delivered(fd, remote, buffer, want, done)
          && r == (if done == want then want else -1)
    ensures EndsWith(remote, old(remote.calls), r == -1)
  {
    hide Slice, Remote.Quiet, Remote.Growing;
    var left: nat := want;
    var chunk: nat := Min(left, MAX_DATA);
    var counter: nat := 0;
    ghost var start, c := fd.readOffset, remote.content;
    while left > 0
      invariant counter + left == want && fd.readOffset == start + counter && fd.Fits(remote)
      invariant chunk <= MAX_DATA && (left > 0 ==> 0 < chunk)
      invariant EndsWith(remote, old(remote.calls), false)
      invariant buffer[counter..] == old(buffer[counter..])
      invariant remote.Quiet() ==> remote.content == c && buffer[..counter] == c[start..start + counter]
    {
      if chunk > left {
        chunk := left;
      }
      var ok := ReadChunk(fd, remote, buffer, counter, chunk);
      if !ok {
        return -1, counter;
      }
      RangeGrows(buffer[..], c, start, counter, chunk);
      left := left - chunk;
      counter := counter + chunk;
    }
    r, done := counter, counter;
  }

  /**
   my_read terminates and delivers exactly the requested range clipped to the size the descriptor knows, or -1 exactly
   if a request failed, which is then the last one sent; a proper prefix of the range was delivered and the offset
   stands behind that.
   */
  method MyRead(fd: Descriptor?, remote: Remote, buffer: array<byte>, numBytes: nat) returns (r: int)
    requires remote.Growing() && numBytes <= buffer.Length
    requires fd != null ==> fd.Fits(remote) && fd.readOffset + numBytes < U32
    modifies fd, remote`content, remote`calls, buffer
    ensures fd == null ==> r == -1 && buffer[..] == old(buffer[..])
    ensures fd != null ==>
      var want := Min(numBytes, fd.size - old(fd.readOffset));
      var done := fd.readOffset - old(fd.readOffset);
      && fd.Fits(remote) && fd.size == old(fd.size)
      && 0 <= done <= want && r == (if done == want then want else -1) && Delivered(fd, remote, buffer, want, done)
      && EndsWith(remote, old(remote.calls), r == -1)
  {
    if fd == null {
      return -1;
    }
    if fd.readOffset == fd.size {
      return 0;
    }
    ghost var done;
    r, done := ReadAll(fd, remote, buffer, Clip(fd.size, fd.readOffset, numBytes));
  }

  /** A range delivered so far and the next piece of it. */
  lemma RangeGrows(b: seq<byte>, c: seq<byte>, start: nat, done: nat, more: nat)
    requires done + more <= |b| && start + done + more <= |c|
    ensures b[..done] == c[start..start + done] && b[done..done + more] == c[start + done..start + done + more]
        ==> b[..done + more] == c[start..start + done + more]
  {
    assert b[..done + more] == b[..done] + b[done..done + more];
  }

  // ------------------------------------------------------------------ my_write

  /** The pieces were sent, all of them or, after a failure, a beginning. */
  ghost predicate Sent(before: seq<(nat, seq<byte>)>, now: seq<(nat, seq<byte>)>, pieces: seq<(nat, seq<byte>)>,
        all: bool)
  {
    if all then now == before + pieces else now <= before + pieces
  }

  lemma NextChunk(start: nat, data: seq<byte>, done: nat, more: nat)
    requires done < |data| && more == Min(|data| - done, MAX_DATA)
    ensures Chunks(start + done, data[done..])
         == [(start + done, data[done..done + more])] + Chunks(start + (done + more), data[done + more..])
  {
    assert data[done..][..more] == data[done..done + more];
    assert data[done..][more..] == data[done + more..];
  }

  lemma NextPiece(c: seq<byte>, start: nat, data: seq<byte>, done: nat, more: nat, shows: nat -> bool, call: nat,
        k: nat)
    requires done == k * MAX_DATA && done < |data| && more == Min(|data| - done, MAX_DATA)
    ensures InPieces(c, start, data[..done + more], shows, call)
         == Written(InPieces(c, start, data[..done], shows, call), start + done, data[done..done + more],
                    shows(call + k))
    ensures done + more < |data| ==> done + more == (k + 1) * MAX_DATA
  {
    hide InPieces, Written;
    InPiecesAppend(c, start, data[..done], data[done..done + more], shows, call, k);
    assert data[..done] + data[done..done + more] == data[..done + more];
  }

  lemma NoPieces(c: seq<byte>, offset: nat, shows: nat -> bool, call: nat)
    ensures InPieces(c, offset, [], shows, call) == c
  {
  }

  /** One turn of the loop of my_write. */
  method WriteChunk(fd: Descriptor, remote: Remote, data: seq<byte>) returns (ok: bool)
    requires remote.Growing() && fd.Fits(remote) && |data| <= MAX_DATA
    modifies fd`size, fd`writeOffset, remote
    ensures fd.Fits(remote) && fd.writeOffset == old(fd.writeOffset) + if ok then |data| else 0
    ensures remote.requests == old(remote.requests) + [(old(fd.writeOffset), data)]
    ensures remote.calls == old(remote.calls) + 1 && (ok <==> !remote.fails(old(remote.calls)))
    ensures remote.sizes == old(remote.sizes) + (if ok then [fd.size] else []) && (!ok ==> fd.size == old(fd.size))
    ensures ok ==> fd.size == |remote.content|
    ensures remote.Quiet() ==>
      remote.content == if ok then Written(old(remote.content), old(fd.writeOffset), data,
                                           remote.shows(old(remote.calls))) else old(remote.content)
  {
    ghost var before, call := remote.content, remote.calls;
    assert |remote.others(call)(before)| >= |before|;
    var size;
    ok, size := remote.Write(fd.writeOffset, data);
    if ok {
      fd.size := size;
      fd.writeOffset := fd.writeOffset + |data|;
    }
  }

  /** The descriptor has the size reported last, which is the file's as long as nobody else changes it. */
  twostate predicate Heard(fd: Descriptor, remote: Remote)
    reads fd, remote
  {
    && old(remote.sizes) <= remote.sizes
    && fd.size == LastSize(old(fd.size), remote.sizes[|old(remote.sizes)|..])
    && (fd.writeOffset > old(fd.writeOffset) <==> |remote.sizes| > |old(remote.sizes)|)
    && (remote.Quiet() && fd.writeOffset > old(fd.writeOffset) ==> fd.size == |remote.content|)
  }

  /** The loop of my_write; data is the part of the caller's buffer to be written. */
  method WriteAll(fd: Descriptor, remote: Remote, data: seq<byte>) returns (r: int)
    requires remote.Growing() && fd.Fits(remote)
    modifies fd`size, fd`writeOffset, remote
    ensures fd.Fits(remote) && old(fd.writeOffset) <= fd.writeOffset <= old(fd.writeOffset) + |data|
    ensures Sent(old(remote.requests), remote.requests, Chunks(old(fd.writeOffset), data), r != -1)
    ensures EndsWith(remote, old(remote.calls), r == -1)
    ensures Heard(fd, remote)
    ensures var done := fd.writeOffset - old(fd.writeOffset);
      && r == (if done == |data| then |data| else -1)
      && (remote.Quiet() ==> remote.content == InPieces(old(remote.content), old(fd.writeOffset), data[..done],
                                                        remote.shows, old(remote.calls)))
  {
    hide Splice, Remote.Quiet, Remote.Growing, Remote.Showing, Chunks, Written, InPieces;
    var left: nat := |data|;
    var chunk: nat := Min(left, MAX_DATA);
    var counter: nat := 0;
    ghost var start, c, call := fd.writeOffset, remote.content, remote.calls;
    ghost var turns := 0;
    NoPieces(c, start, remote.shows, call);
    assert data[..0] == [] && data[0..] == data;
    while left > 0
      invariant counter + left == |data| && fd.writeOffset == start + counter && fd.Fits(remote)
      invariant Min(left, MAX_DATA) <= chunk <= MAX_DATA
      invariant remote.requests + Chunks(start + counter, data[counter..])
             == old(remote.requests) + Chunks(start, data)
      invariant EndsWith(remote, call, false) && Heard(fd, remote)
      invariant remote.calls == call + turns && (left > 0 ==> counter == turns * MAX_DATA)
      invariant remote.Quiet() ==> remote.content == InPieces(c, start, data[..counter], remote.shows, call)
    {
      if chunk > left {
        chunk := left;
      }
      NextPiece(c, start, data, counter, chunk, remote.shows, call, turns);
      NextChunk(start, data, counter, chunk);
      var ok := WriteChunk(fd, remote, data[counter..counter + chunk]);
      if !ok {
        return -1;
      }
      left := left - chunk;
      counter := counter + chunk;
      turns := turns + 1;
    }
    assert Chunks(start + counter, data[counter..]) == [] by { NoChunks(start + counter, data[counter..]); }
    r := counter;
  }

  lemma NoChunks(offset: nat, data: seq<byte>)
    requires data == []
    ensures Chunks(offset, data) == []
  {
  }

  /**
   my_write terminates. A call that succeeds has sent the pieces of the buffer, in order, and nothing else, and one that
   returns -1 a beginning of them. Undisturbed, the file is then what these pieces make of it, whichever of them show
   up: of the whole buffer on success, of a proper prefix for -1. If all show up that is one splice at the write offset,
   for any length. Which of them show up on the file system is ClientOnServer.ChunksAreOneSpliceIff. The descriptor ends
   with the size reported last, the file's own unless others change it.
   */
  method MyWrite(fd: Descriptor?, remote: Remote, buffer: array<byte>, numBytes: nat) returns (r: int)
    requires remote.Growing() && numBytes <= buffer.Length
    requires fd != null ==> fd.Fits(remote)
    modifies fd, remote
    ensures fd == null ==> r == -1 && remote.content == old(remote.content)
    ensures fd != null ==>
      var done := fd.writeOffset - old(fd.writeOffset);
      && fd.Fits(remote) && fd.readOffset == old(fd.readOffset)
      && 0 <= done <= numBytes && r == (if done == numBytes then numBytes else -1)
      && Sent(old(remote.requests), remote.requests, Chunks(old(fd.writeOffset), buffer[..numBytes]), r != -1)
      && EndsWith(remote, old(remote.calls), r == -1) && Heard(fd, remote)
      && (remote.Quiet() ==> remote.content == InPieces(old(remote.content), old(fd.writeOffset), buffer[..done],
                                                        remote.shows, old(remote.calls)))
      && (remote.Quiet() && remote.Showing() ==>
            remote.content == Splice(old(remote.content), old(fd.writeOffset), buffer[..done]))
  {
    if fd == null {
      return -1;
    }
    hide Splice;
    ghost var c, start, call := remote.content, fd.writeOffset, remote.calls;
    r := WriteAll(fd, remote, buffer[..numBytes]);
    assert buffer[..numBytes][..fd.writeOffset - old(fd.writeOffset)] == buffer[..fd.writeOffset - old(fd.writeOffset)];
    if remote.Showing() { ShownPiecesAreOneSplice(c, start, buffer[..fd.writeOffset - start], remote.shows, call); }
  }

  /**
   Undisturbed, with every request answered and every write showing up: what my_write wrote where the next read begins,
   the next my_read of that length delivers, also behind the old end of the file.
   */
  method WriteThenRead(fd: Descriptor, remote: Remote, data: array<byte>, buffer: array<byte>)
    requires remote.Growing() && remote.Quiet() && remote.Showing() && forall i: nat :: !remote.fails(i)
    requires fd.Fits(remote) && fd.readOffset == fd.writeOffset && fd.readOffset + data.Length < U32
    requires data != buffer && 0 < data.Length <= buffer.Length
    modifies fd, remote, buffer
    ensures buffer[..data.Length] == data[..] && fd.readOffset == fd.writeOffset == old(fd.readOffset) + data.Length
    ensures remote.content == Splice(old(remote.content), old(fd.writeOffset), data[..])
  {
    ghost var c, o := remote.content, fd.writeOffset;
    var w := MyWrite(fd, remote, data, data.Length);
    assert data[..data.Length] == data[..];
    SpliceHolds(c, o, data[..]);
    var r := MyRead(fd, remote, buffer, data.Length);
  }

  lemma SpliceHolds(c: seq<byte>, offset: nat, data: seq<byte>)
    requires offset <= |c|
    ensures offset + |data| <= |Splice(c, offset, data)| && Splice(c, offset, data)[offset..offset + |data|] == data
  {
  }
}
