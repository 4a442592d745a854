/**
 Every sequence of fs_* calls from the formatted disk: the invariant holds throughout, no call leaves its arrays, and
 the whole machine behaves like a map from inode numbers to byte sequences.
 */
module FsRuns {
  import opened Bytes
  import opened BlockStore
  import opened FsState
  import opened FsFiles
  import opened FsTree
  import opened FsInv
  import opened FsContent
  import opened FsWriting
  import opened FsCoherence
  import opened FsCalls
  import opened FsWriteCalls
  import opened FsMeta
  import opened FsDirs
  import opened FsSearch
  import opened FsMake
  import opened FsNamespace
  import opened FsCopying
  import opened FsStart

  datatype Call =
    | AttrsOf(file: nat)
    | LookUp(path: seq<byte>)
    | ReadAt(file: nat, offset: nat, count: nat)
    | WriteAt(file: nat, offset: nat, buffer: seq<byte>)
    | CreateIn(dir: nat, name: seq<byte>)
    | MkdirIn(dir: nat, name: seq<byte>)
    | ListOf(dir: nat, max: int)
    | CopyTo(src: seq<byte>, tgt: seq<byte>)

  datatype Reply =
    | AttrsReply(attrs: Res<Attrs>)
    | LookupReply(found: Lookup)
    | ReadReply(bytes: Res<seq<byte>>)
    | DoneReply(done: Res<()>)
    | MadeReply(made: Res<nat>)
    | ListReply(lines: Res<seq<Listed>>)

  function Step(s: Fs, c: Call): (Fs, Reply) {
    match c
    case AttrsOf(file) => var (s', r) := FsGetAttrs(s, file); (s', AttrsReply(r))
    case LookUp(path) => var (s', r) := FsLookup(s, path); (s', LookupReply(r))
    case ReadAt(file, offset, count) => var (s', r) := FsRead(s, file, offset, count); (s', ReadReply(r))
    case WriteAt(file, offset, buffer) => var (s', r) := FsWrite(s, file, offset, buffer); (s', DoneReply(r))
    case CreateIn(dir, name) => var (s', r) := FsCreate(s, dir, name); (s', MadeReply(r))
    case MkdirIn(dir, name) => var (s', r) := FsMkdir(s, dir, name); (s', MadeReply(r))
    case ListOf(dir, max) => var (s', r) := FsReaddir(s, dir, max); (s', ListReply(r))
    case CopyTo(src, tgt) => var (s', r) := FsCopy(s, src, tgt); (s', DoneReply(r))
  }

  function Run(s: Fs, calls: seq<Call>): (r: (Fs, seq<Reply>))
    ensures |r.1| == |calls|
    decreases |calls|
  {
    if calls == [] then (s, [])
    else
      var (s1, reply) := Step(s, calls[0]);
      var (s2, replies) := Run(s1, calls[1..]);
      (s2, [reply] + replies)
  }

  /** The call left the defined behaviour of the program. */
  predicate Faulty(r: Reply) {
    match r
    case AttrsReply(a) => a.Abort?
    case LookupReply(l) => l.Fault?
    case ReadReply(b) => b.Abort?
    case DoneReply(d) => d.Abort?
    case MadeReply(m) => m.Abort?
    case ListReply(l) => l.Abort?
  }

  /**
   What the calls ask of their callers: names are C strings, inode 0 is not asked for its attributes, and the paths
   of a copy name something and fit its two buffers.
   */
  predicate Proper(c: Call) {
    match c
    case AttrsOf(file) => file != 0
    case CreateIn(_, name) => IsCString(name)
    case MkdirIn(_, name) => IsCString(name)
    case CopyTo(src, tgt) =>
      var p := LastSlash(tgt);
      IsCString(tgt) && TargetFits(tgt) && !OnlySlashes(src) && (p.Some? ==> !OnlySlashes(tgt[..p.value]))
    case _ => true
  }

  // ------------------------------------------------------------------ the map of files

  type FileMap = map<nat, seq<byte>>

  /** What one call may do to a map from inode numbers to byte sequences, and what it then replies. */
  ghost predicate Allowed(m: FileMap, c: Call, r: Reply, m': FileMap) {
    match c
    case AttrsOf(file) =>
      && r.AttrsReply? && m' == m
      && (file in m ==> r.attrs == Ok(Attrs(file, FS_FILE, |m[file]|, -1)))
      && (r.attrs.Ok? && r.attrs.value.itype == FS_FILE ==> file in m)
    case ReadAt(file, offset, count) =>
      r == ReadReply(if file in m then Ok(Slice(m[file], offset, count)) else Err) && m' == m
    case WriteAt(file, offset, buffer) =>
      if r == DoneReply(Ok(())) then file in m && m' == m[file := Splice(m[file], Min(offset, |m[file]|), buffer)]
      else r == DoneReply(Err) && m' == m
    case CreateIn(_, name) =>
      r.MadeReply? && if r.made.Ok? then r.made.value !in m && GoodName(name)
            && m' == m[r.made.value := []] else r.made.Err? && m' == m
    case MkdirIn(_, name) =>
      r.MadeReply? && (if r.made.Ok? then r.made.value !in m && GoodName(name) else r.made.Err?) && m' == m
    case LookUp(_) => r.LookupReply? && m' == m
    case ListOf(_, max) => r.ListReply? && (r.lines.Ok? ==> |r.lines.value| <= Min(62, max)) && m' == m
    case CopyTo(_, _) =>
      && (r == DoneReply(Ok(())) || (r == DoneReply(Err)))
      && ((r.done.Err? && m' == m) || exists n: nat :: n !in m && m' == m[n := []])
  }

  ghost predicate AllowedRun(m: FileMap, calls: seq<Call>, replies: seq<Reply>, m': FileMap)
    requires |replies| == |calls|
    decreases |calls|
  {
    if calls == [] then m' == m
    else exists m1: FileMap :: Allowed(m, calls[0], replies[0], m1) && AllowedRun(m1, calls[1..], replies[1..], m')
  }

  // ------------------------------------------------------------------ the tree of names

  /** Directory, name and inode of every on-disk entry. */
  type NameTree = iset<(nat, seq<byte>, nat)>

  ghost function Entries(s: Fs): NameTree {
    iset e: (nat, seq<byte>, nat) | IsEntry(s.store.disk, s.itab, e.0, e.1, e.2)
  }

  /** The names lead from directory d to inode m. */
  ghost predicate NamesLead(e: NameTree, d: nat, names: seq<seq<byte>>, m: nat)
    decreases |names|
  {
    if names == [] then m == d else exists x: nat :: (d, names[0], x) in e && NamesLead(e, x, names[1..], m)
  }

  /** What one call may do to the entries, and what it may reply about them. */
  ghost predicate TreeAllowed(e: NameTree, c: Call, r: Reply, e': NameTree) {
    match c
    case LookUp(path) => e' == e && r.LookupReply? && (r.found.Found? ==> NamesLead(e, ROOT, Tokens(path), r.found.id))
    case CreateIn(dir, name) => MakesEntry(e, dir, name, r, e')
    case MkdirIn(dir, name) => MakesEntry(e, dir, name, r, e')
    case ListOf(dir, _) =>
      && e' == e && r.ListReply?
      && (r.lines.Ok? ==> forall i :: 0 <= i < |r.lines.value| && r.lines.value[i].name != [] ==>
            exists x: nat :: (dir, r.lines.value[i].name, x) in e)
    case CopyTo(_, tgt) =>
      && (r == DoneReply(Ok(())) || r == DoneReply(Err))
      && ((r.done.Err? && e' == e)
          || exists dir: nat, n: nat :: NamesLead(e, ROOT, Tokens(DirPart(tgt)), dir)
                && e' == e + iset{(dir, FileName(tgt), n)})
    case _ => e' == e
  }

  ghost predicate MakesEntry(e: NameTree, dir: nat, name: seq<byte>, r: Reply, e': NameTree) {
    && r.MadeReply?
    && if r.made.Ok? then e' == e + iset{(dir, name, r.made.value)}
          && forall d: nat, x: seq<byte> :: (d, x, r.made.value) !in e
       else e' == e
  }

  ghost predicate TreeRun(e: NameTree, calls: seq<Call>, replies: seq<Reply>, e': NameTree)
    requires |replies| == |calls|
    decreases |calls|
  {
    if calls == [] then e' == e
    else exists e1: NameTree :: TreeAllowed(e, calls[0], replies[0], e1) && TreeRun(e1, calls[1..], replies[1..], e')
  }

  lemma SameEntriesSameLinks(s: Fs, s': Fs)
    requires SameEntries(s, s')
    ensures Entries(s') == Entries(s)
  {
    hide IsEntry;
  }

  lemma AddedEntryLinks(s: Fs, s': Fs, dir: nat, name: seq<byte>, n: nat)
    requires EntryAdded(s, s', dir, name, n)
    ensures Entries(s') == Entries(s) + iset{(dir, name, n)}
  {
    hide IsEntry;
  }

  lemma {:induction false} ResolvesByLinks(s: Fs, d: nat, names: seq<seq<byte>>, m: nat)
    requires Resolves(s.store.disk, s.itab, d, names, m)
    ensures NamesLead(Entries(s), d, names, m)
    decreases |names|
  {
    hide IsEntry;
    if names != [] {
      var x: nat :| IsEntry(s.store.disk, s.itab, d, names[0], x) && Resolves(s.store.disk, s.itab, x, names[1..], m);
      ResolvesByLinks(s, x, names[1..], m);
      assert (d, names[0], x) in Entries(s);
    }
  }

  lemma FreshIsNotLinked(s: Fs, g: Owners)
    requires Inv(s, g)
    ensures forall d: nat, x: seq<byte> :: (d, x, |g.par|) !in Entries(s)
  {
    forall d: nat, x: seq<byte> ensures !IsEntry(s.store.disk, s.itab, d, x, |g.par|) {
      if IsEntry(s.store.disk, s.itab, d, x, |g.par|) {
        assert RowOk(s.itab[d], d, g);
        EntryUsed(s.store.disk, s.itab, g.par, d, x, |g.par|);
      }
    }
  }

  // ------------------------------------------------------------------ one file

  /** What one call may do to file f alone, None as long as it is no file, and what it then replies. */
  ghost predicate AllowedAt(f: nat, m: Option<seq<byte>>, c: Call, r: Reply, m': Option<seq<byte>>) {
    match c
    case AttrsOf(file) =>
      && r.AttrsReply? && m' == m
      && (file == f && m.Some? ==> r.attrs == Ok(Attrs(file, FS_FILE, |m.value|, -1)))
      && (file == f && r.attrs.Ok? && r.attrs.value.itype == FS_FILE ==> m.Some?)
    case ReadAt(file, offset, count) =>
      m' == m && (file == f ==> r == ReadReply(if m.Some? then Ok(Slice(m.value, offset, count)) else Err))
    case WriteAt(file, offset, buffer) =>
      && (r == DoneReply(Ok(())) || r == DoneReply(Err))
      && if file == f && r.done.Ok? then m.Some? && m' == Some(Splice(m.value, Min(offset, |m.value|), buffer))
         else m' == m
    case CreateIn(_, name) =>
      r.MadeReply? && if r.made == Ok(f) then m.None? && GoodName(name) && m' == Some([]) else m' == m
    case MkdirIn(_, name) => r.MadeReply? && m' == m && (r.made == Ok(f) ==> m.None? && GoodName(name))
    case CopyTo(_, _) => r.DoneReply? && (m' == m || (m.None? && m' == Some([])))
    case _ => m' == m
  }

  ghost predicate AllowedRunAt(f: nat, m: Option<seq<byte>>, calls: seq<Call>, replies: seq<Reply>,
        m': Option<seq<byte>>)
    requires |replies| == |calls|
    decreases |calls|
  {
    if calls == [] then m' == m
    else exists m1: Option<seq<byte>> ::
      AllowedAt(f, m, calls[0], replies[0], m1) && AllowedRunAt(f, m1, calls[1..], replies[1..], m')
  }

  /** A write is shown by later reads: its inode was cached when it began, or the file did not grow. */
  predicate Shown(s: Fs, c: Call) {
    c.WriteAt? && c.file < INODES ==> Visible(s, c.file, c.offset, |c.buffer|)
  }

  predicate AllShown(s: Fs, calls: seq<Call>)
    decreases |calls|
  {
    calls == [] || (Shown(s, calls[0]) && AllShown(Step(s, calls[0]).0, calls[1..]))
  }

  /** All writes to file f are. */
  predicate AllShownAt(s: Fs, calls: seq<Call>, f: nat)
    decreases |calls|
  {
    calls == [] || ((calls[0].WriteAt? && calls[0].file == f ==> Shown(s, calls[0]))
                    && AllShownAt(Step(s, calls[0]).0, calls[1..], f))
  }

  // ------------------------------------------------------------------ one call

  /** What every call keeps. */
  ghost predicate Kept(s: Fs, s': Fs, g: Owners, g': Owners) {
    Inv(s', g') && g.own <= g'.own && g.par <= g'.par && s'.time == s.time && s'.NumBlocks() == s.NumBlocks()
  }

  ghost predicate Acts(s: Fs, c: Call, s': Fs, r: Reply) {
    && TreeAllowed(Entries(s), c, r, Entries(s'))
    && (Coherent(s) && Shown(s, c) ==> Coherent(s') && Allowed(Files(s), c, r, Files(s')))
    && forall f: nat :: ActsAt(s, c, s', r, f)
  }

  /** On an inode that is coherent, whatever may be wrong with others. */
  ghost predicate ActsAt(s: Fs, c: Call, s': Fs, r: Reply, f: nat) {
    1 <= f < INODES && CoherentAt(s, f) && (c.WriteAt? && c.file == f ==> Shown(s, c)) ==>
      CoherentAt(s', f) && AllowedAt(f, ContentOf(s, f), c, r, ContentOf(s', f))
  }

  lemma QuietLinks(s: Fs, s': Fs, g: Owners)
    requires Inv(s, g) && Quiet(s, s', g)
    ensures Entries(s') == Entries(s)
  {
    hide Inv, Quiet, SameEntries;
    QuietKeepsEntries(s, s', g);
    SameEntriesSameLinks(s, s');
  }

  /** A call that keeps every file and may reply what it did acts on each as allowed. */
  lemma KeepingActsAt(s: Fs, c: Call, s': Fs, r: Reply)
    requires forall f: nat :: FileSame(s, s', f)
    requires forall f: nat :: AllowedAt(f, ContentOf(s, f), c, r, ContentOf(s, f))
    ensures forall f: nat :: ActsAt(s, c, s', r, f)
  {
    hide CoherentAt, ContentOf, AllowedAt;
    forall f: nat ensures ActsAt(s, c, s', r, f) {
      assert FileSame(s, s', f) && AllowedAt(f, ContentOf(s, f), c, r, ContentOf(s, f));
    }
  }

  lemma AttrsStep(s: Fs, file: nat, g: Owners)
    requires Inv(s, g) && Proper(AttrsOf(file))
    ensures var (s', r) := Step(s, AttrsOf(file)); Kept(s, s', g, g) && !Faulty(r) && Acts(s, AttrsOf(file), s', r)
  {
    hide Inv, CoherentAt, FsGetAttrs, Files, RecordsKept, RecordsMoved, SameViewsBelow, Resident, Entries;
    GetAttrsOk(s, file, g);
    QuietFiles(s, FsGetAttrs(s, file).0, g);
    QuietLinks(s, FsGetAttrs(s, file).0, g);
    InvBounds(s, g);
    if file < INODES {
      FileFacts(s, file, g);
      FileInMap(s, file);
    }
    KnownFiles(s);
    KeepingActsAt(s, AttrsOf(file), FsGetAttrs(s, file).0, AttrsReply(FsGetAttrs(s, file).1));
  }

  lemma KnownFiles(s: Fs)
    ensures forall n: nat :: n in Files(s) <==> n < INODES && IsFile(s, n)
  {
  }

  lemma NumberedFile(s: Fs, n: nat)
    ensures IsFile(s, n) ==> n < INODES
  {
  }

  lemma ReadStep(s: Fs, file: nat, offset: nat, count: nat, g: Owners)
    requires Inv(s, g)
    ensures var (s', r) := Step(s, ReadAt(file, offset, count));
      Kept(s, s', g, g) && !Faulty(r) && Acts(s, ReadAt(file, offset, count), s', r)
  {
    hide Inv, CoherentAt, FsRead, Files, RecordsKept, RecordsMoved, SameViewsBelow, Eff, Content, IsFile, Entries;
    ReadOk(s, file, offset, count, g);
    QuietFiles(s, FsRead(s, file, offset, count).0, g);
    QuietLinks(s, FsRead(s, file, offset, count).0, g);
    KnownFiles(s);
    if file < INODES { FileInMap(s, file); }
    assert file >= INODES ==> !IsFile(s, file) by { NumberedFile(s, file); }
    KeepingActsAt(s, ReadAt(file, offset, count), FsRead(s, file, offset, count).0,
                  ReadReply(FsRead(s, file, offset, count).1));
  }

  lemma WriteStep(s: Fs, file: nat, offset: nat, buffer: seq<byte>, g: Owners) returns (g': Owners)
    requires Inv(s, g)
    ensures var (s', r) := Step(s, WriteAt(file, offset, buffer));
      Kept(s, s', g, g') && !Faulty(r) && Acts(s, WriteAt(file, offset, buffer), s', r)
  {
    hide Inv, CoherentAt, FsWrite, Files, SameViewsBelow, Eff, Content, IsFile, HasRoom, MetaKept, Visible, Entries,
          SameEntries, Resident;
    g' := WriteOk(s, file, offset, buffer, g);
    if Coherent(s) {
      WriteCallFiles(s, FsWrite(s, file, offset, buffer).0, FsWrite(s, file, offset, buffer).1, file, offset, buffer,
                     g, g');
    }
    SameEntriesSameLinks(s, FsWrite(s, file, offset, buffer).0);
    KnownFiles(s);
    if file < INODES { FileInMap(s, file); }
    WriteActsAt(s, file, offset, buffer, g, g');
  }

  lemma WriteActsAt(s: Fs, file: nat, offset: nat, buffer: seq<byte>, g: Owners, g': Owners)
    requires var (s', r) := FsWrite(s, file, offset, buffer); WriteCall(s, s', r, file, offset, buffer, g, g')
    ensures var (s', r) := Step(s, WriteAt(file, offset, buffer));
      forall f: nat :: ActsAt(s, WriteAt(file, offset, buffer), s', r, f)
  {
    hide Inv, CoherentAt, FsWrite, Eff, Content, IsFile, HasRoom, MetaKept, Visible, SameEntries, SameElsewhere;
    var (s', r) := FsWrite(s, file, offset, buffer);
    forall f: nat ensures ActsAt(s, WriteAt(file, offset, buffer), s', DoneReply(r), f) {
      assert f != file || r == Err ==> FileSame(s, s', f);
    }
  }

  lemma MakeStep(s: Fs, dir: nat, name: seq<byte>, itype: nat, g: Owners) returns (g': Owners)
    requires Inv(s, g) && IsCString(name) && (itype == FS_DIR || itype == FS_FILE)
    ensures var (s', r) := MakeNode(s, dir, name, itype);
      && Kept(s, s', g, g') && !r.Abort?
      && (r.Ok? ==> r.value !in Files(s) && GoodName(name)
                    && Files(s') == (if itype == FS_FILE then Files(s)[r.value := []] else Files(s)))
      && (r.Err? && Coherent(s) ==> Files(s') == Files(s))
      && (Coherent(s) ==> Coherent(s'))
      && (r.Err? ==> forall f: nat :: FileSame(s, s', f))
      && (r.Ok? ==> forall f: nat :: CoherentAt(s, f) ==> CoherentAt(s', f))
      && MakesEntry(Entries(s), dir, name, MadeReply(r), Entries(s'))
  {
    hide Inv, CoherentAt, MakeNode, Files, SameViewsBelow, IsEntry, DirSearch, IsFile, LoadTable, Entries, Quiet,
          EntryAdded, FileSame;
    g' := MakeNodeOk(s, dir, name, itype, g);
    FreshIsNoFile(s, g);
    FreshIsNotLinked(s, g);
    KnownFiles(s);
    var (s', r) := MakeNode(s, dir, name, itype);
    if r.Err? {
      QuietFiles(s, s', g);
      QuietTimes(s, s', g);
      QuietLinks(s, s', g);
    } else {
      AddedEntryLinks(s, s', dir, name, r.value);
    }
  }

  lemma FreshIsNoFile(s: Fs, g: Owners)
    requires Inv(s, g)
    ensures |g.par| < INODES ==> !IsFile(s, |g.par|)
  {
    if |g.par| < INODES { FileFacts(s, |g.par|, g); }
  }

  lemma LookupStep(s: Fs, path: seq<byte>, g: Owners)
    requires Inv(s, g)
    ensures var (s', r) := Step(s, LookUp(path)); Kept(s, s', g, g) && !Faulty(r) && Acts(s, LookUp(path), s', r)
  {
    hide Inv, CoherentAt, FsLookup, Files, SameViewsBelow, Entries, Resolves, Quiet, ContentOf;
    LookupQuiet(s, path, g);
    LookupSound(s, path, g);
    QuietLinks(s, FsLookup(s, path).0, g);
    QuietFiles(s, FsLookup(s, path).0, g);
    QuietTimes(s, FsLookup(s, path).0, g);
    KeepingActsAt(s, LookUp(path), FsLookup(s, path).0, LookupReply(FsLookup(s, path).1));
    assert FsLookup(s, path).1.Found? ==> NamesLead(Entries(s), ROOT, Tokens(path), FsLookup(s, path).1.id) by {
      if FsLookup(s, path).1.Found? { ResolvesByLinks(s, ROOT, Tokens(path), FsLookup(s, path).1.id); }
    }
  }

  lemma QuietTimes(s: Fs, s1: Fs, g: Owners)
    requires Quiet(s, s1, g)
    ensures s1.time == s.time && s1.NumBlocks() == s.NumBlocks()
  {
  }

  lemma ListStep(s: Fs, dir: nat, max: int, g: Owners)
    requires Inv(s, g)
    ensures var (s', r) := Step(s, ListOf(dir, max));
      Kept(s, s', g, g) && !Faulty(r) && Acts(s, ListOf(dir, max), s', r)
  {
    hide Inv, CoherentAt, FsReaddir, Files, RecordsKept, RecordsMoved, SameViewsBelow, Entries, LinesSound, ContentOf;
    ReaddirOk(s, dir, max, g);
    QuietFiles(s, FsReaddir(s, dir, max).0, g);
    KeepingActsAt(s, ListOf(dir, max), FsReaddir(s, dir, max).0, ListReply(FsReaddir(s, dir, max).1));
    QuietLinks(s, FsReaddir(s, dir, max).0, g);
    if FsReaddir(s, dir, max).1.Ok? { LinesByLinks(s, dir, FsReaddir(s, dir, max).1.value); }
  }

  lemma LinesByLinks(s: Fs, dir: nat, lines: seq<Listed>)
    requires LinesSound(s, dir, lines)
    ensures forall i :: 0 <= i < |lines| && lines[i].name != [] ==>
          exists x: nat :: (dir, lines[i].name, x) in Entries(s)
  {
    hide IsEntry;
    forall i | 0 <= i < |lines| && lines[i].name != [] ensures exists x: nat :: (dir, lines[i].name, x) in Entries(s) {
      var x: nat :| IsEntry(s.store.disk, s.itab, dir, lines[i].name, x);
      assert (dir, lines[i].name, x) in Entries(s);
    }
  }

  lemma CopyStep(s: Fs, src: seq<byte>, tgt: seq<byte>, g: Owners) returns (g': Owners)
    requires Inv(s, g) && Proper(CopyTo(src, tgt))
    ensures var (s', r) := Step(s, CopyTo(src, tgt));
      Kept(s, s', g, g') && !Faulty(r) && Acts(s, CopyTo(src, tgt), s', r)
  {
    hide Inv, CoherentAt, FsCopy, Files, TargetFits, Entries, SameEntries, EntryMade, OnlySlashes, FsLookup, IsFile,
          Content;
    g' := CopyOk(s, src, tgt, g);
    if Coherent(s) {
      CopyCallFiles(s, FsCopy(s, src, tgt).0, FsCopy(s, src, tgt).1, DirPart(tgt), FileName(tgt), g, g');
    }
    FreshIsNoFile(s, g);
    KnownFiles(s);
    CopyBound(FsCopy(s, src, tgt).0, g');
    if |g'.par| > |g.par| {
      EntryMadeLinks(s, FsCopy(s, src, tgt).0, DirPart(tgt), FileName(tgt), |g.par|);
    } else {
      SameEntriesSameLinks(s, FsCopy(s, src, tgt).0);
    }
    CopyActsAt(s, CopyTo(src, tgt), FsCopy(s, src, tgt).0, DoneReply(FsCopy(s, src, tgt).1), |g.par|,
               |g'.par| > |g.par|);
  }

  lemma CopyActsAt(s: Fs, c: Call, s': Fs, r: Reply, n: nat, made: bool)
    requires c.CopyTo? && r.DoneReply? && forall f: nat :: f != n || !made ==> FileSame(s, s', f)
    requires made ==> CoherentAt(s', n) && ContentOf(s', n) == Some([]) && ContentOf(s, n) == None
    ensures forall f: nat :: ActsAt(s, c, s', r, f)
  {
    hide CoherentAt, ContentOf;
    forall f: nat ensures ActsAt(s, c, s', r, f) {
      assert f != n || !made ==> FileSame(s, s', f);
    }
  }

  lemma EntryMadeLinks(s: Fs, s': Fs, dirPart: seq<byte>, name: seq<byte>, n: nat)
    requires EntryMade(s, s', dirPart, name, n)
    ensures exists dir: nat ::
      NamesLead(Entries(s), ROOT, Tokens(dirPart), dir) && Entries(s') == Entries(s) + iset{(dir, name, n)}
  {
    hide EntryAdded, Resolves, NamesLead, Entries;
    var dir: nat :| EntryAdded(s, s', dir, name, n) && Resolves(s.store.disk, s.itab, ROOT, Tokens(dirPart), dir);
    AddedEntryLinks(s, s', dir, name, n);
    ResolvesByLinks(s, ROOT, Tokens(dirPart), dir);
  }

  lemma CopyBound(s: Fs, g: Owners)
    requires Inv(s, g)
    ensures |g.par| <= INODES
  {
  }

  /** One call: the invariant is kept, nothing leaves its arrays, and the map of files acts as allowed. */
  lemma StepOk(s: Fs, c: Call, g: Owners) returns (g': Owners)
    requires Inv(s, g) && Proper(c)
    ensures var (s', r) := Step(s, c); Kept(s, s', g, g') && !Faulty(r) && Acts(s, c, s', r)
  {
    hide Inv, CoherentAt, Files, Allowed, TreeAllowed, Entries, Shown, Kept, FsGetAttrs, FsLookup, FsRead, FsWrite,
          MakeNode, FsReaddir, FsCopy, FileSame, AllowedAt;
    g' := g;
    match c
    case AttrsOf(file) => AttrsStep(s, file, g);
    case LookUp(path) => LookupStep(s, path, g);
    case ReadAt(file, offset, count) => ReadStep(s, file, offset, count, g);
    case WriteAt(file, offset, buffer) => g' := WriteStep(s, file, offset, buffer, g);
    case CreateIn(dir, name) =>
      g' := MakeStep(s, dir, name, FS_FILE, g);
      MadeAllowed(s, c, Step(s, c).0, Step(s, c).1);
    case MkdirIn(dir, name) =>
      g' := MakeStep(s, dir, name, FS_DIR, g);
      MadeAllowed(s, c, Step(s, c).0, Step(s, c).1);
    case ListOf(dir, max) => ListStep(s, dir, max, g);
    case CopyTo(src, tgt) => g' := CopyStep(s, src, tgt, g);
  }

  lemma MadeAllowed(s: Fs, c: Call, s': Fs, r: Reply)
    requires (c.CreateIn? || c.MkdirIn?) && r.MadeReply? && !r.made.Abort?
    requires r.made.Ok? ==> r.made.value !in Files(s) && GoodName(c.name)
                            && Files(s') == (if c.CreateIn? then Files(s)[r.made.value := []] else Files(s))
    requires r.made.Err? && Coherent(s) ==> Files(s') == Files(s)
    requires Coherent(s) ==> Coherent(s')
    requires r.made.Err? ==> forall f: nat :: FileSame(s, s', f)
    requires r.made.Ok? ==> forall f: nat :: CoherentAt(s, f) ==> CoherentAt(s', f)
    requires MakesEntry(Entries(s), c.dir, c.name, r, Entries(s'))
    ensures Acts(s, c, s', r)
  {
    hide CoherentAt, Files, Entries, MakesEntry, IsFile, Content;
    if r.made.Err? {
      KeepingActsAt(s, c, s', r);
    } else {
      forall f: nat | 1 <= f < INODES ensures ActsAt(s, c, s', r, f) {
        FileInMap(s, f);
        FileInMap(s', f);
      }
    }
  }

  // ------------------------------------------------------------------ every run

  lemma {:induction false} RunKeepsInv(s: Fs, calls: seq<Call>, g: Owners) returns (g': Owners)
    requires Inv(s, g) && forall i :: 0 <= i < |calls| ==> Proper(calls[i])
    ensures var (s', replies) := Run(s, calls);
      Kept(s, s', g, g') && forall i :: 0 <= i < |replies| ==> !Faulty(replies[i])
    decreases |calls|
  {
    hide Inv, Step, Faulty, Proper, Acts;
    if calls == [] {
      g' := g;
    } else {
      var g1 := StepOk(s, calls[0], g);
      g' := RunKeepsInv(Step(s, calls[0]).0, calls[1..], g1);
    }
  }

  lemma {:induction false} RunActs(s: Fs, calls: seq<Call>, g: Owners)
    requires Inv(s, g) && Coherent(s) && AllShown(s, calls) && forall i :: 0 <= i < |calls| ==> Proper(calls[i])
    ensures var (s', replies) := Run(s, calls); Coherent(s') && AllowedRun(Files(s), calls, replies, Files(s'))
    decreases |calls|
  {
    hide Inv, Step, Faulty, Proper, Shown, CoherentAt, Files, Allowed, ActsAt, TreeAllowed;
    if calls != [] {
      var (s1, r) := Step(s, calls[0]);
      var g1 := StepOk(s, calls[0], g);
      RunActs(s1, calls[1..], g1);
      var (s', replies) := Run(s, calls);
      assert replies[1..] == Run(s1, calls[1..]).1;
      assert Allowed(Files(s), calls[0], replies[0], Files(s1));
    }
  }

  /** No run of proper calls from the formatted disk ever leaves the arrays of the program, under any clock. */
  lemma NoRunFaults(n: nat, time: nat -> int, calls: seq<Call>)
    requires META_BLOCKS < n <= 8 * BLOCK_SIZE && forall i :: 0 <= i < |calls| ==> Proper(calls[i])
    ensures var replies := Run(Formatted(n, time), calls).1; forall i :: 0 <= i < |replies| ==> !Faulty(replies[i])
  {
    hide Formatted, Run, Proper, Faulty, Inv;
    FormattedOk(n, time);
    var g := RunKeepsInv(Formatted(n, time), calls, START);
  }

  /**
   Disk, inode table, block cache and inode cache together are a map from inode numbers to byte sequences: every
   reply and the final contents of a run are ones the map allows, as long as each write was shown.
   */
  lemma RunsRefineFileMap(n: nat, time: nat -> int, calls: seq<Call>)
    requires META_BLOCKS < n <= 8 * BLOCK_SIZE && forall i :: 0 <= i < |calls| ==> Proper(calls[i])
    requires AllShown(Formatted(n, time), calls)
    ensures var (s', replies) := Run(Formatted(n, time), calls); AllowedRun(map[], calls, replies, Files(s'))
  {
    hide Formatted, Run, Proper, AllowedRun, AllShown, Inv, Files, CoherentAt;
    FormattedOk(n, time);
    RunActs(Formatted(n, time), calls, START);
  }

  lemma {:induction false} RunActsAt(s: Fs, calls: seq<Call>, f: nat, g: Owners)
    requires Inv(s, g) && 1 <= f < INODES && CoherentAt(s, f) && AllShownAt(s, calls, f)
    requires forall i :: 0 <= i < |calls| ==> Proper(calls[i])
    ensures var (s', replies) := Run(s, calls);
      CoherentAt(s', f) && AllowedRunAt(f, ContentOf(s, f), calls, replies, ContentOf(s', f))
    decreases |calls|
  {
    hide Inv, Step, Faulty, Proper, Shown, CoherentAt, Files, Allowed, TreeAllowed, ContentOf, AllowedAt;
    if calls != [] {
      var (s1, r) := Step(s, calls[0]);
      var g1 := StepOk(s, calls[0], g);
      assert ActsAt(s, calls[0], s1, r, f);
      RunActsAt(s1, calls[1..], f, g1);
      var (s', replies) := Run(s, calls);
      assert replies[1..] == Run(s1, calls[1..]).1;
      assert AllowedAt(f, ContentOf(s, f), calls[0], replies[0], ContentOf(s1, f));
    }
  }

  /**
   The same for every single file f, whatever was written to others and not shown: in any run in which the writes to f
   were shown, f is a byte sequence, made empty, spliced by writes to it and read back as it is.
   */
  lemma RunsRefineEachFile(n: nat, time: nat -> int, calls: seq<Call>, f: nat)
    requires META_BLOCKS < n <= 8 * BLOCK_SIZE && forall i :: 0 <= i < |calls| ==> Proper(calls[i])
    requires 1 <= f < INODES && AllShownAt(Formatted(n, time), calls, f)
    ensures var (s', replies) := Run(Formatted(n, time), calls);
      AllowedRunAt(f, None, calls, replies, ContentOf(s', f))
  {
    hide Formatted, Run, Proper, AllowedRunAt, AllShownAt, Inv, Files, CoherentAt, IsFile, Content;
    FormattedOk(n, time);
    FileInMap(Formatted(n, time), f);
    RunActsAt(Formatted(n, time), calls, f, START);
  }

  predicate Writes(c: Call, f: nat) {
    c.WriteAt? && c.file == f
  }

  lemma MakeKeepsCopies(s: Fs, dir: nat, name: seq<byte>, itype: nat, f: nat, g: Owners)
    requires Inv(s, g) && IsCString(name) && (itype == FS_DIR || itype == FS_FILE)
    ensures CopiesKept(s, MakeNode(s, dir, name, itype).0, f)
  {
    hide Inv, MakeNode, Files, CoherentAt, IsEntry, DirSearch, IsFile, LoadTable, Quiet, EntryAdded, CopiesKept;
    var g' := MakeNodeOk(s, dir, name, itype, g);
    if MakeNode(s, dir, name, itype).1.Err? { QuietCopies(s, MakeNode(s, dir, name, itype).0, f, g); }
  }

  lemma CopyingKeepsCopies(s: Fs, src: seq<byte>, tgt: seq<byte>, f: nat, g: Owners)
    requires Inv(s, g) && Proper(CopyTo(src, tgt))
    ensures CopiesKept(s, FsCopy(s, src, tgt).0, f)
  {
    hide Inv, FsCopy, TargetFits, OnlySlashes, FsLookup, CopiesKept, FileSame, EntryMade, SameEntries;
    var g' := CopyOk(s, src, tgt, g);
  }

  /** A call other than a write to f moves f's copies, but changes none. */
  lemma StepKeepsCopies(s: Fs, c: Call, f: nat, g: Owners)
    requires Inv(s, g) && Proper(c) && !Writes(c, f)
    ensures CopiesKept(s, Step(s, c).0, f)
  {
    hide Inv, Quiet, FsGetAttrs, FsLookup, FsRead, FsWrite, MakeNode, FsReaddir, FsCopy, CopiesKept, SeenAs;
    match c
    case AttrsOf(file) =>
      GetAttrsOk(s, file, g);
      QuietCopies(s, FsGetAttrs(s, file).0, f, g);
    case LookUp(path) =>
      LookupQuiet(s, path, g);
      QuietCopies(s, FsLookup(s, path).0, f, g);
    case ReadAt(file, offset, count) =>
      ReadOk(s, file, offset, count, g);
      QuietCopies(s, FsRead(s, file, offset, count).0, f, g);
    case WriteAt(file, offset, buffer) =>
      hide SameElsewhere, MetaKept, SameEntries, FileSame, SeenAfterWrite, HasRoom, Splice;
      var g' := WriteOk(s, file, offset, buffer, g);
    case CreateIn(dir, name) => MakeKeepsCopies(s, dir, name, FS_FILE, f, g);
    case MkdirIn(dir, name) => MakeKeepsCopies(s, dir, name, FS_DIR, f, g);
    case ListOf(dir, max) =>
      ReaddirOk(s, dir, max, g);
      QuietCopies(s, FsReaddir(s, dir, max).0, f, g);
    case CopyTo(src, tgt) => CopyingKeepsCopies(s, src, tgt, f, g);
  }

  /** A reply to a read of f with what one of f's copies, or its row, contained in state s. */
  ghost predicate ReadsACopy(s: Fs, f: nat, c: Call, r: Reply) {
    c.ReadAt? && c.file == f ==>
      exists ino: Inode :: RecordOf(s, f, ino) && r == ReadReply(Ok(Slice(Content(s.store, ino), c.offset, c.count)))
  }

  lemma ReadOfACopy(s: Fs, f: nat, c: Call, g: Owners)
    requires Inv(s, g) && IsFile(s, f)
    ensures ReadsACopy(s, f, c, Step(s, c).1)
  {
    if c.ReadAt? && c.file == f {
      ReadOk(s, f, c.offset, c.count, g);
      EffIsRecord(s, f);
    }
  }

  lemma EarlierCopy(s: Fs, s1: Fs, f: nat, c: Call, r: Reply)
    requires IsFile(s, f) && CopiesKept(s, s1, f) && ReadsACopy(s1, f, c, r)
    ensures ReadsACopy(s, f, c, r)
  {
    hide RecordOf, Content;
    if c.ReadAt? && c.file == f {
      var ino: Inode :| RecordOf(s1, f, ino) && r == ReadReply(Ok(Slice(Content(s1.store, ino), c.offset, c.count)));
      assert RecordHeld(s, s1, f, ino);
    }
  }

  /**
   What becomes of a file, shown or not, until it is written again. Whatever else is called, from any state a run
   reaches, every read of it returns the content of a copy its inode had in that state, or of its row, and that is what
   it contains afterwards. Copies disappear, but none changes and none is new.
   */
  lemma {:induction false} RunsShowACopy(s: Fs, calls: seq<Call>, f: nat, g: Owners)
    requires Inv(s, g) && IsFile(s, f)
    requires forall i :: 0 <= i < |calls| ==> Proper(calls[i]) && !Writes(calls[i], f)
    ensures var (s', replies) := Run(s, calls);
      && CopiesKept(s, s', f)
      && (exists ino: Inode :: RecordOf(s, f, ino) && ContentOf(s', f) == Some(Content(s.store, ino)))
      && (forall i :: 0 <= i < |calls| ==> ReadsACopy(s, f, calls[i], replies[i]))
    decreases |calls|
  {
    hide Inv, Step, Proper, Acts, IsFile, CopiesKept, RecordOf, Content, ReadsACopy, ContentOf;
    if calls != [] {
      var (s1, r) := Step(s, calls[0]);
      var g1 := StepOk(s, calls[0], g);
      StepKeepsCopies(s, calls[0], f, g);
      StillAFile(s, s1, f);
      ReadOfACopy(s, f, calls[0], g);
      RunsShowACopy(s1, calls[1..], f, g1);
      var (s', replies) := Run(s, calls);
      CopiesKeptTwice(s, s1, s', f);
      SeenIsCopy(s, s', f);
      forall i | 0 <= i < |calls| ensures ReadsACopy(s, f, calls[i], replies[i]) {
        if 0 < i {
          assert calls[1..][i - 1] == calls[i] && replies[i] == Run(s1, calls[1..]).1[i - 1];
          EarlierCopy(s, s1, f, calls[i], replies[i]);
        }
      }
    } else {
      NothingMoves(s, f);
      SeenIsCopy(s, s, f);
    }
  }

  lemma StillAFile(s: Fs, s1: Fs, f: nat)
    requires IsFile(s, f) && CopiesKept(s, s1, f)
    ensures IsFile(s1, f)
  {
  }

  lemma NothingMoves(s: Fs, f: nat)
    ensures CopiesKept(s, s, f)
  {
  }

  lemma {:induction false} RunActsOnTree(s: Fs, calls: seq<Call>, g: Owners)
    requires Inv(s, g) && forall i :: 0 <= i < |calls| ==> Proper(calls[i])
    ensures var (s', replies) := Run(s, calls); TreeRun(Entries(s), calls, replies, Entries(s'))
    decreases |calls|
  {
    hide Inv, Step, Faulty, Proper, Shown, CoherentAt, Files, Allowed, ActsAt, TreeAllowed, Entries;
    if calls != [] {
      var (s1, r) := Step(s, calls[0]);
      var g1 := StepOk(s, calls[0], g);
      RunActsOnTree(s1, calls[1..], g1);
      var (s', replies) := Run(s, calls);
      assert replies[1..] == Run(s1, calls[1..]).1;
      assert TreeAllowed(Entries(s), calls[0], replies[0], Entries(s1));
    }
  }

  lemma NoEntriesYet(n: nat, time: nat -> int)
    requires META_BLOCKS < n <= 8 * BLOCK_SIZE
    ensures Entries(Formatted(n, time)) == iset{}
  {
    hide Formatted, DiskEntry;
    FormattedRows(n, time);
  }

  /**
   In any run, shown writes or not: a creation adds exactly its own entry, for an inode no entry named before, no
   other call changes any directory, and lookups and listings answer with names that are there.
   */
  lemma RunsRefineTree(n: nat, time: nat -> int, calls: seq<Call>)
    requires META_BLOCKS < n <= 8 * BLOCK_SIZE && forall i :: 0 <= i < |calls| ==> Proper(calls[i])
    ensures var (s', replies) := Run(Formatted(n, time), calls); TreeRun(iset{}, calls, replies, Entries(s'))
  {
    hide Formatted, Run, Proper, TreeRun, Inv, Entries, Files, CoherentAt;
    FormattedOk(n, time);
    NoEntriesYet(n, time);
    RunActsOnTree(Formatted(n, time), calls, START);
  }
}
