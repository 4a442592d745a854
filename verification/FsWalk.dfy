/** fs_lookup exactly, from a page cache that holds nothing yet: it follows the first entry with each name on the disk.
 */
module FsWalk {
  import opened Bytes
  import opened BlockStore
  import opened FsState
  import opened FsTree
  import opened FsInv
  import opened FsDirs
  import opened FsSearch

  /** The inode of the first entry with the name, from entry k of the directory on. */
  function FirstNamed(disk: seq<Block>, dir: Inode, name: seq<byte>, k: nat): Option<nat>
    decreases Count(dir) - k
  {
    if k >= Count(dir) then None
    else if EntryName(DiskEntry(disk, dir, k)) == name then Some(EntryInode(DiskEntry(disk, dir, k)))
    else FirstNamed(disk, dir, name, k + 1)
  }

  /** Where the names lead from inode d on the disk. */
  function Follow(disk: seq<Block>, itab: InodeTable, d: nat, names: seq<seq<byte>>): Lookup
    decreases |names|
  {
    if names == [] then Found(d)
    else if !IsDir(itab, d) then Refused
    else
      var m := FirstNamed(disk, itab[d], names[0], 0);
      if m.None? then Missing else Follow(disk, itab, m.value, names[1..])
  }

  /** A page scan is a stretch of the scan of the whole directory. */
  lemma {:induction false} PageStretch(s: Fs, d: nat, name: seq<byte>, i: nat, j: nat, n: nat)
    requires d < INODES && i < INODE_BLOCKS && s.itab[d].blocks[i] < s.NumBlocks()
    requires j <= n <= PAGE_ENTRIES && PAGE_ENTRIES * i + n <= Count(s.itab[d])
    ensures var page := s.store.disk[s.itab[d].blocks[i]];
      var r := ScanPage(page, name, j, n);
      FirstNamed(s.store.disk, s.itab[d], name, PAGE_ENTRIES * i + j)
        == if r.Some? then Some(EntryInode(PageEntry(page, r.value)))
           else FirstNamed(s.store.disk, s.itab[d], name, PAGE_ENTRIES * i + n)
    decreases n - j
  {
    hide EntryName, EntryInode, PageEntry;
    if j < n {
      var k := PAGE_ENTRIES * i + j;
      assert k / PAGE_ENTRIES == i && k % PAGE_ENTRIES == j;
      PageStretch(s, d, name, i, j + 1, n);
    }
  }

  /** No slot holds a page of a directory from d on. */
  ghost predicate ColdFrom(s: Fs, d: nat) {
    forall k :: 0 <= k < DIR_SLOTS ==> s.dcache[k].dir < d
  }

  lemma FetchStaysBelow(s: Fs, d: nat, b: nat)
    requires ColdFrom(s, d + 1)
    ensures ColdFrom(FetchPage(s, d, b).0, d + 1)
  {
  }

  lemma {:induction false} ColdSearchFirst(s: Fs, d: InodeId, name: seq<byte>, iblock: nat, num: nat, g: Owners)
    requires Searching(s, d, name, None, iblock, num, g) && (num == 0 || NoPageFrom(s, d, iblock)) && ColdFrom(s, d + 1)
    requires num == 0 ==> PAGE_ENTRIES * iblock >= Count(s.itab[d])
    ensures var (s', r) := SearchBlocks(s, d, name, None, iblock, num);
      var first := FirstNamed(s.store.disk, s.itab[d], name, PAGE_ENTRIES * iblock);
      r == (if first.Some? then Ok(first.value) else Err) && ColdFrom(s', d + 1)
    decreases num
  {
    hide Inv, FetchPage, ScanPage, NoPageFrom, ColdFrom, EntryInode, PageEntry, EntryName, DiskEntry;
    if num > 0 {
      var s1, page := SearchTurn(s, d, name, None, iblock, num, g);
      FetchCold(s, d, iblock, g);
      FetchStaysBelow(s, d, s.itab[d].blocks[iblock]);
      var n := Min(PAGE_ENTRIES, num);
      DirBlock(s, d, iblock, g);
      PageStretch(s, d, name, iblock, 0, n);
      if ScanPage(page, name, 0, n).None? {
        ColdSearchFirst(s1, d, name, iblock + 1, num - n, g);
        AtEnd(s, d, name, iblock, n, num);
      }
    }
  }

  /** Behind the last entry there is nothing to find. */
  lemma AtEnd(s: Fs, d: nat, name: seq<byte>, iblock: nat, n: nat, num: nat)
    requires d < INODES && n == Min(PAGE_ENTRIES, num) && num == Count(s.itab[d]) - PAGE_ENTRIES * iblock
    ensures FirstNamed(s.store.disk, s.itab[d], name, PAGE_ENTRIES * iblock + n)
         == FirstNamed(s.store.disk, s.itab[d], name, PAGE_ENTRIES * (iblock + 1))
  {
  }

  lemma ColdSearch(s: Fs, d: InodeId, name: seq<byte>, g: Owners)
    requires Inv(s, g) && 1 <= d < |g.par| && IsDir(s.itab, d) && name != [] && ColdFrom(s, d)
    ensures var (s', r) := DirSearch(s, d, name);
      var first := FirstNamed(s.store.disk, s.itab[d], name, 0);
      r == (if first.Some? then Ok(first.value) else Err) && ColdFrom(s', d + 1)
  {
    hide Inv, SearchBlocks, FirstNamed;
    assert PageSlotOfDir(s.dcache, d) == DIR_SLOTS;
    ColdSearchFirst(s, d, name, 0, Count(s.itab[d]), g);
  }

  lemma {:induction false} ColdWalk(s: Fs, d: nat, names: seq<seq<byte>>, g: Owners)
    requires Inv(s, g) && 1 <= d < |g.par| && ColdFrom(s, d) && forall i :: 0 <= i < |names| ==> names[i] != []
    ensures LookupFrom(s, d, names).1 == Follow(s.store.disk, s.itab, d, names)
    decreases |names|
  {
    hide RowsOk, SlotsOk, StoreOk, OwnersOk, PagesOk, DirSearch, IsEntry, FirstNamed;
    if names != [] && s.itab[d].itype == FS_DIR {
      ColdSearch(s, d, names[0], g);
      DirSearchSound(s, d, names[0], g);
      var (s1, r) := DirSearch(s, d, names[0]);
      if r.Ok? {
        EntryUsed(s.store.disk, s.itab, g.par, d, names[0], r.value);
        ColdWalk(s1, r.value, names[1..], g);
      }
    }
  }

  /**
   With the page cache still zeroed, fs_lookup of an absolute path with a name in it answers exactly where the names
   lead on the disk: found, missing, or refused because something on the way is no directory.
   */
  lemma ColdLookupExact(s: Fs, path: seq<byte>, g: Owners)
    requires Inv(s, g) && ColdFrom(s, ROOT)
    ensures FsLookup(s, path).1
         == if path == [] || path[0] != SLASH then Refused
            else if Tokens(path) == [] then RootOnly
            else Follow(s.store.disk, s.itab, ROOT, Tokens(path))
  {
    hide Inv, LookupFrom, Follow, Tokens;
    assert 2 <= |g.par| by { RootUsed(s, g); }
    if path != [] && path[0] == SLASH && Tokens(path) != [] {
      ColdWalk(s, ROOT, Tokens(path), g);
    }
  }

  lemma RootUsed(s: Fs, g: Owners)
    requires Inv(s, g)
    ensures 2 <= |g.par|
  {
  }

  // ------------------------------------------------------------------ paths

  /** The path of a list of names. */
  function PathOf(names: seq<seq<byte>>): seq<byte> {
    if names == [] then [] else [SLASH] + names[0] + PathOf(names[1..])
  }

  lemma {:induction false} TokenEnds(name: seq<byte>, rest: seq<byte>)
    requires SLASH !in name && (rest == [] || rest[0] == SLASH)
    ensures TokenLength(name + rest) == |name|
  {
    if name == [] {
      assert name + rest == rest;
    } else {
      assert name[0] in name;
      assert (name + rest)[1..] == name[1..] + rest;
      TokenEnds(name[1..], rest);
    }
  }

  /** Splitting a path at its slashes gives back the names it was made of. */
  lemma {:induction false} PathRoundTrip(names: seq<seq<byte>>)
    requires forall i :: 0 <= i < |names| ==> names[i] != [] && SLASH !in names[i]
    ensures Tokens(PathOf(names)) == names
  {
    if names != [] {
      var name, rest := names[0], PathOf(names[1..]);
      var path := PathOf(names);
      assert path[1..] == name + rest;
      assert name[0] in name;
      TokenEnds(name, rest);
      assert (name + rest)[..|name|] == name && (name + rest)[|name|..] == rest;
      PathRoundTrip(names[1..]);
      assert Tokens(name + rest) == [name] + Tokens(rest);
    }
  }
}
