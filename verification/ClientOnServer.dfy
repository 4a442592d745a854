/**
 The write requests of my_write against the file system itself: exactly when the pieces of one large write come out as
 one splice of the file, and what comes out otherwise.
 */
module ClientOnServer {
  import opened Bytes
  import opened FsState
  import opened FsFiles
  import opened FsInv
  import opened BlockStore
  import opened FsTree
  import opened FsDirs
  import opened FsNamespace
  import opened FsStart
  import opened FsContent
  import opened FsWriting
  import opened FsCoherence
  import opened FsCalls
  import opened FsWriteCalls
  import opened FsRuns
  import opened FsStale
  import opened ClientIo

  // ------------------------------------------------------------------ one request

  /** snfs_write: the write, then the size the attributes report; None for an answer that is not STAT_OK. */
  function ServeWrite(s: Fs, file: nat, offset: nat, data: seq<byte>): (r: (Fs, Option<nat>)) {
    if |data| > MAX_DATA then (s, None)
    else
      var (s1, done) := FsWrite(s, file, offset, data);
      if !done.Ok? then (s1, None)
      else
        var (s2, attrs) := FsGetAttrs(s1, file);
        (s2, if attrs.Ok? then Some(attrs.value.size) else None)
  }

  /**
   A write is read back: the inode is cached on entry, or the file does not grow, or the second copy of the inode lands
   in the slot of the first or before it.
   */
  predicate ShowsUp(s: Fs, file: InodeId, offset: nat, count: nat) {
    Visible(s, file, offset, count) || SecondVictim(s, file) <= FirstVictim(s)
  }

  /** What one served request leaves. */
  ghost predicate Served(s: Fs, s': Fs, file: nat, after: seq<byte>, g': Owners) {
    && Inv(s', g') && file < INODES && IsFile(s', file) && Resident(s', file)
    && Content(s'.store, Eff(s', file)) == after && forall n: nat :: n != file ==> FileSame(s, s', n)
  }

  /**
   A request answered with STAT_OK does to the file what ClientIo.Remote assumes of it: a splice exactly when the write
   shows up, else the splice cut off at the old size; the size reported is that of the result. Other files contain what
   the insertions of this one's inode make of them; none is changed while it is coherent. Afterwards the inode is
   cached, and as long as it stays cached writes to it show up.
   */
  lemma ServedWrite(s: Fs, file: InodeId, offset: nat, data: seq<byte>, g: Owners) returns (g': Owners)
    requires Inv(s, g) && IsFile(s, file) && ServeWrite(s, file, offset, data).1.Some?
    ensures var (s', size) := ServeWrite(s, file, offset, data);
      var c := Content(s.store, Eff(s, file));
      var c' := Written(c, offset, data, ShowsUp(s, file, offset, |data|));
      && Served(s, s', file, c', g') && size == Some(|c'|)
      && (c' == Splice(c, Min(offset, |c|), data) <==> ShowsUp(s, file, offset, |data|))
      && |g'.own| == |g.own| + BlocksNeeded(|c|, Min(offset, |c|), |data|) && s'.NumBlocks() == s.NumBlocks()
      && forall n: nat :: n != file ==> ContentOf(s', n) == SeenAfterWrite(s, file, offset, |data|, true, n)
  {
    hide Inv, FsWrite, FsGetAttrs, Content, Splice, HasRoom, FirstVictim, SecondVictim, FileSame, IsFile, Resident,
          SameEntries, MetaKept, SeenAfterWrite, CopiesKept;
    var (s1, done) := FsWrite(s, file, offset, data);
    var g1 := WriteOk(s, file, offset, data, g);
    if !Visible(s, file, offset, |data|) { GrownWrite(s, file, offset, data, g); }
    assert ContentOf(s1, file) == Some(Content(s1.store, Eff(s1, file))) by { StillFile(s, s1, file, g1); }
    StillFile(s, s1, file, g1);
    AttrsOfCached(s1, file, g1);
    AttrsKeepFiles(s1, file, g1);
    var s' := FsGetAttrs(s1, file).0;
    FilesSameTwice(s, s1, s', file);
    g' := g1;
  }

  lemma AttrsKeepFiles(s: Fs, file: InodeId, g: Owners)
    requires Inv(s, g) && IsFile(s, file) && Resident(s, file)
    ensures forall n: nat :: FileSame(s, FsGetAttrs(s, file).0, n)
    ensures forall n: nat :: ContentOf(FsGetAttrs(s, file).0, n) == ContentOf(s, n)
    ensures Resident(FsGetAttrs(s, file).0, file)
  {
    hide Content, Eff;
    GetAttrsOk(s, file, g);
    QuietFiles(s, FsGetAttrs(s, file).0, g);
    FileFacts(s, file, g);
  }

  // ------------------------------------------------------------------ all requests of one my_write

  /** The requests served one after the other until one is refused. */
  function ServeEach(s: Fs, file: nat, requests: seq<(nat, seq<byte>)>): (r: (Fs, bool))
    decreases |requests|
  {
    if requests == [] then (s, true)
    else
      var (s1, size) := ServeWrite(s, file, requests[0].0, requests[0].1);
      if size.None? then (s1, false) else ServeEach(s1, file, requests[1..])
  }

  /** The calls behind them. */
  function CallsOf(file: nat, requests: seq<(nat, seq<byte>)>): seq<Call>
    decreases |requests|
  {
    if requests == [] then []
    else [WriteAt(file, requests[0].0, requests[0].1), AttrsOf(file)] + CallsOf(file, requests[1..])
  }

  /** Served requests are a run of calls. */
  lemma {:induction false} ServedIsRun(s: Fs, file: nat, requests: seq<(nat, seq<byte>)>)
    requires ServeEach(s, file, requests).1
    ensures ServeEach(s, file, requests).0 == Run(s, CallsOf(file, requests)).0
    decreases |requests|
  {
    hide FsWrite, FsGetAttrs;
    if requests != [] {
      var s1 := ServeWrite(s, file, requests[0].0, requests[0].1).0;
      ServedIsRun(s1, file, requests[1..]);
      var rest := CallsOf(file, requests[1..]);
      var calls := CallsOf(file, requests);
      assert calls[1..] == [AttrsOf(file)] + rest && calls[1..][1..] == rest;
      var s0 := Step(s, calls[0]).0;
      assert Run(s, calls).0 == Run(s0, calls[1..]).0;
      assert Run(s0, calls[1..]).0 == Run(s1, rest).0;
    }
  }

  /** If the first splice was cut off at the old end, the rest is appended there and the file is too short. */
  lemma PiecesTorn(c: seq<byte>, offset: nat, data: seq<byte>, n: nat)
    requires n <= |data| && offset <= |c| < offset + n
    ensures var c1 := Splice(c, offset, data[..n])[..|c|];
      && Splice(c1, Min(offset + n, |c1|), data[n..]) == c1 + data[n..]
      && c1 + data[n..] != Splice(c, offset, data)
  {
    hide Splice;
    var c1 := Splice(c, offset, data[..n])[..|c|];
    SpliceAtEnd(c1, data[n..]);
    assert |c1 + data[n..]| < |Splice(c, offset, data)|;
  }

  /** A served request for a cached inode brings nothing in, so it changes no other file. */
  lemma ResidentChangesNoOther(s: Fs, file: InodeId, offset: nat, count: nat, n: nat)
    requires Resident(s, file)
    ensures SeenAfterWrite(s, file, offset, count, true, n) == ContentOf(s, n)
  {
    hide Content, Eff;
  }

  /**
   Once the inode is cached, the pieces come out as one splice, wherever the first of them begins, and no other file
   changes, coherent or not.
   */
  lemma {:induction false} ResidentChunks(s: Fs, file: InodeId, offset: nat, data: seq<byte>, g: Owners)
    returns (g': Owners)
    requires Inv(s, g) && IsFile(s, file) && Resident(s, file) && ServeEach(s, file, Chunks(offset, data)).1
    ensures var (s', c) := (ServeEach(s, file, Chunks(offset, data)).0, Content(s.store, Eff(s, file)));
      && Served(s, s', file, Splice(c, Min(offset, |c|), data), g')
      && forall n: nat :: n != file ==> ContentOf(s', n) == ContentOf(s, n)
    decreases |data|
  {
    hide Inv, ServeWrite, Content, Splice, FileSame, IsFile, Resident, Eff, SeenAfterWrite, ContentOf;
    var c := Content(s.store, Eff(s, file));
    if data == [] {
      g' := g;
      SpliceNothing(c, Min(offset, |c|));
      NoFileChanged(s);
    } else {
      var n := Min(|data|, MAX_DATA);
      var first, rest := data[..n], data[n..];
      assert Chunks(offset, data)[1..] == Chunks(offset + n, rest);
      assert ShowsUp(s, file, offset, n) by { assert Visible(s, file, offset, n); }
      var g1 := ServedWrite(s, file, offset, first, g);
      var s1 := ServeWrite(s, file, offset, first).0;
      g' := ResidentChunks(s1, file, offset + n, rest, g1);
      PiecesJoin(c, offset, data, n);
      forall m: nat | m != file ensures ContentOf(s1, m) == ContentOf(s, m) {
        ResidentChangesNoOther(s, file, offset, n, m);
      }
      FilesSameTwice(s, s1, ServeEach(s1, file, Chunks(offset + n, rest)).0, file);
    }
  }

  lemma NoFileChanged(s: Fs)
    ensures forall n: nat :: FileSame(s, s, n)
  {
  }

  /** The first piece of a write. */
  function FirstPiece(data: seq<byte>): seq<byte> {
    data[..Min(|data|, MAX_DATA)]
  }

  /**
   What all the served pieces of one my_write make of the file: one splice if the first piece shows up. Otherwise that
   piece is cut off at the old end of the file and the others are appended there.
   */
  function Outcome(s: Fs, file: InodeId, offset: nat, data: seq<byte>): seq<byte>
    requires offset <= |Content(s.store, Eff(s, file))|
  {
    var c := Content(s.store, Eff(s, file));
    var first := FirstPiece(data);
    if data == [] || ShowsUp(s, file, offset, |first|) then Splice(c, offset, data)
    else Splice(c, offset, first)[..|c|] + data[|first|..]
  }

  /** What they make of another file n. */
  function OtherOutcome(s: Fs, file: InodeId, offset: nat, data: seq<byte>, n: nat): Option<seq<byte>> {
    if data == [] then ContentOf(s, n) else SeenAfterWrite(s, file, offset, |FirstPiece(data)|, true, n)
  }

  /**
   The pieces of one my_write, all served, are one splice of the file at the write offset exactly when the first piece
   shows up: the inode was cached, or that piece does not make the file longer, or the cache slots fall right. Other
   files contain what the first piece alone makes of them. All of it is one run of fs_write and fs_get_attrs calls.
   */
  lemma ChunksAreOneSpliceIff(s: Fs, file: InodeId, offset: nat, data: seq<byte>, g: Owners) returns (g': Owners)
    requires Inv(s, g) && IsFile(s, file) && ServeEach(s, file, Chunks(offset, data)).1
    requires offset <= |Content(s.store, Eff(s, file))|
    ensures var (s', c) := (ServeEach(s, file, Chunks(offset, data)).0, Content(s.store, Eff(s, file)));
      && Inv(s', g') && IsFile(s', file) && Content(s'.store, Eff(s', file)) == Outcome(s, file, offset, data)
      && (forall n: nat :: n != file ==> FileSame(s, s', n))
      && (forall n: nat :: n != file ==> ContentOf(s', n) == OtherOutcome(s, file, offset, data, n))
      && (Content(s'.store, Eff(s', file)) == Splice(c, offset, data) <==>
            data == [] || ShowsUp(s, file, offset, |FirstPiece(data)|))
      && s' == Run(s, CallsOf(file, Chunks(offset, data))).0
  {
    hide Inv, ServeWrite, Content, Splice, FileSame, IsFile, Resident, Eff, ShowsUp, Run, SeenAfterWrite, ContentOf;
    ServedIsRun(s, file, Chunks(offset, data));
    var c := Content(s.store, Eff(s, file));
    if data == [] {
      g' := g;
      SpliceNothing(c, offset);
      NoFileChanged(s);
    } else {
      var n := Min(|data|, MAX_DATA);
      var first, rest := data[..n], data[n..];
      assert Chunks(offset, data)[1..] == Chunks(offset + n, rest);
      var g1 := ServedWrite(s, file, offset, first, g);
      var s1 := ServeWrite(s, file, offset, first).0;
      g' := ResidentChunks(s1, file, offset + n, rest, g1);
      FilesSameTwice(s, s1, ServeEach(s1, file, Chunks(offset + n, rest)).0, file);
      if ShowsUp(s, file, offset, n) {
        PiecesJoin(c, offset, data, n);
      } else {
        GrowsIfUnseen(s, file, offset, n);
        PiecesTorn(c, offset, data, n);
      }
    }
  }

  /** A server on which every write but perhaps the first shows up. */
  function FirstInDoubt(shown: bool): nat -> bool {
    i => i > 0 || shown
  }

  /** So the file system is a server as MyWrite of ClientIo assumes it, with only the first piece in doubt. */
  lemma OutcomeIsInPieces(s: Fs, file: InodeId, offset: nat, data: seq<byte>)
    requires offset <= |Content(s.store, Eff(s, file))|
    ensures Outcome(s, file, offset, data)
         == InPieces(Content(s.store, Eff(s, file)), offset, data,
                     FirstInDoubt(ShowsUp(s, file, offset, |FirstPiece(data)|)), 0)
  {
    hide Content, Splice, ShowsUp, Eff;
    var c, n := Content(s.store, Eff(s, file)), Min(|data|, MAX_DATA);
    var shown := ShowsUp(s, file, offset, n);
    if data == [] {
      SpliceNothing(c, offset);
    } else {
      ShownPiecesAreOneSplice(Written(c, offset, data[..n], shown), offset + n, data[n..], FirstInDoubt(shown), 1);
      if shown {
        PiecesJoin(c, offset, data, n);
      } else {
        GrowsIfUnseen(s, file, offset, n);
        PiecesTorn(c, offset, data, n);
      }
    }
  }

  /** Only a write that makes the file longer can fail to show up. */
  lemma GrowsIfUnseen(s: Fs, file: InodeId, offset: nat, n: nat)
    requires !ShowsUp(s, file, offset, n) && offset <= |Content(s.store, Eff(s, file))|
    ensures |Content(s.store, Eff(s, file))| < offset + n
  {
  }

  lemma SpliceAtEnd(c: seq<byte>, data: seq<byte>)
    ensures Splice(c, |c|, data) == c + data
  {
  }

  // ------------------------------------------------------------------ a file just created

  /** A request for which there is room is answered with STAT_OK. */
  lemma ServedIfRoom(s: Fs, file: InodeId, offset: nat, data: seq<byte>, g: Owners)
    requires Inv(s, g) && IsFile(s, file) && |data| <= MAX_DATA
    requires var size := |Content(s.store, Eff(s, file))|;
      HasRoom(size, Min(offset, size), |data|, |g.own|, s.NumBlocks())
    ensures ServeWrite(s, file, offset, data).1.Some?
  {
    hide Inv, FsWrite, FsGetAttrs, Content, Splice, HasRoom, FileSame, IsFile, Resident, SameEntries, MetaKept;
    var g1 := WriteOk(s, file, offset, data, g);
    var s1 := FsWrite(s, file, offset, data).0;
    StillFile(s, s1, file, g1);
    AttrsOfCached(s1, file, g1);
  }

  /** The first piece written to a file that nobody has looked at, with the inode cache still zeroed. */
  lemma FirstPieceLost(s: Fs, first: seq<byte>, g: Owners) returns (g': Owners)
    requires Inv(s, g) && NewRecord(s, 2, FS_FILE) && 2 in Files(s) && Files(s)[2] == [] && s.Now() > 0 && Fresh(s)
    requires first != [] && |first| <= MAX_DATA && |g.own| + 2 <= s.NumBlocks()
    ensures var (s', size) := ServeWrite(s, 2, 0, first);
      && size == Some(0) && Served(s, s', 2, [], g') && |g'.own| <= |g.own| + 2 && s'.NumBlocks() == s.NumBlocks()
  {
    hide Inv, CoherentAt, Content, ServeWrite, FirstVictim, SecondVictim, Eff, Files, IsFile, Resident, Served;
    FileIn(s, 2);
    UsedFile(s, 2);
    NewIsNotCached(s, 2);
    VictimsOfFreshCache(s, 2);
    ServedIfRoom(s, 2, 0, first, g);
    assert Eff(s, 2).size == |Content(s.store, Eff(s, 2))|;
    g' := ServedWrite(s, 2, 0, first, g);
    FirstSpliceIsBuffer(first);
  }

  /**
   A file created on a formatted disk and then written with one my_write of 1025 to 2048 bytes: both pieces are
   answered with STAT_OK, the first with size 0, and what can be read back afterwards is the second piece alone.
   */
  lemma CreatedWriteLosesFirstPiece(n: nat, time: nat -> int, name: seq<byte>, data: seq<byte>)
    requires META_BLOCKS + 5 <= n <= 8 * BLOCK_SIZE && forall i: nat :: time(i) > 0
    requires GoodName(name) && MAX_DATA < |data| <= 2 * MAX_DATA
    ensures var s := FsCreate(Formatted(n, time), ROOT, name).0;
      var (s', done) := ServeEach(s, 2, Chunks(0, data));
      && done && ServeWrite(s, 2, 0, FirstPiece(data)).1 == Some(0)
      && FsRead(s', 2, 0, MAX_DATA).1 == Ok(data[MAX_DATA..])
  {
    hide Formatted, Inv, CoherentAt, IsEntry, FsRead, ServeWrite, MakeNode, Files, Fresh, NewRecord, GoodName, Content,
          Eff, IsFile, Resident;
    var first, rest := data[..MAX_DATA], data[MAX_DATA..];
    var g := FirstCreate(n, time, name);
    var s := FsCreate(Formatted(n, time), ROOT, name).0;
    var g1 := FirstPieceLost(s, first, g);
    var s1 := ServeWrite(s, 2, 0, first).0;
    ServedIfRoom(s1, 2, MAX_DATA, rest, g1);
    assert ShowsUp(s1, 2, MAX_DATA, |rest|) by { assert Visible(s1, 2, MAX_DATA, |rest|); }
    var g2 := ServedWrite(s1, 2, MAX_DATA, rest, g1);
    SpliceAtEnd([], rest);
    TwoChunks(s, 2, data);
    var s2 := ServeWrite(s1, 2, MAX_DATA, rest).0;
    ReadOk(s2, 2, 0, MAX_DATA, g2);
  }

  lemma TwoChunks(s: Fs, file: nat, data: seq<byte>)
    requires MAX_DATA < |data| <= 2 * MAX_DATA
    ensures var (s1, a) := ServeWrite(s, file, 0, data[..MAX_DATA]);
      var (s2, b) := ServeWrite(s1, file, MAX_DATA, data[MAX_DATA..]);
      ServeEach(s, file, Chunks(0, data)) == if a.None? then (s1, false) else (s2, b.Some?)
  {
    hide ServeWrite;
    var first, rest := data[..MAX_DATA], data[MAX_DATA..];
    assert rest[..|rest|] == rest && rest[|rest|..] == [];
    assert Chunks(MAX_DATA, rest) == [(MAX_DATA, rest)] + Chunks(MAX_DATA + |rest|, []);
    assert Chunks(0, data) == [(0, first)] + Chunks(MAX_DATA, rest);
    var tail: seq<(nat, seq<byte>)> := [(MAX_DATA, rest)];
    var none: seq<(nat, seq<byte>)> := [];
    assert Chunks(0, data)[1..] == tail && tail[1..] == none;
    var (s1, a) := ServeWrite(s, file, 0, first);
    var (s2, b) := ServeWrite(s1, file, MAX_DATA, rest);
    assert ServeEach(s2, file, none) == (s2, true);
    assert ServeEach(s1, file, tail) == (s2, b.Some?);
  }
}
