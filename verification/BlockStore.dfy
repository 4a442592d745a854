/**
 The block layer of the server: the sequence of blocks kept by snfs_server/block.c under the ten-slot
 write-back cache of snfs_server/fs.c. Times are whatever time(NULL) returned; nothing here depends on
 them except where a lemma says so.
 */
module BlockStore {
  import opened Bytes
  import opened Slots

  const BLOCK_SIZE: nat := 512
  const CACHE_SLOTS: nat := 10

  type Block = b: seq<byte> | |b| == BLOCK_SIZE witness Zeros(BLOCK_SIZE)

  datatype Slot = Slot(num: nat, data: Block, dirty: bool, last: int)

  type SlotTable = t: seq<Slot> | |t| == CACHE_SLOTS
    witness seq(CACHE_SLOTS, _ => Slot(0, Zeros(BLOCK_SIZE), false, 0))

  datatype Store = Store(disk: seq<Block>, slots: SlotTable)

  function Nums(t: SlotTable): (r: seq<nat>)
    ensures |r| == |t| && forall k :: 0 <= k < |t| ==> r[k] == t[k].num
  {
    seq(|t|, k requires 0 <= k < |t| => t[k].num)
  }

  function Times(t: SlotTable): (r: seq<int>)
    ensures |r| == |t| && forall k :: 0 <= k < |t| ==> r[k] == t[k].last
  {
    seq(|t|, k requires 0 <= k < |t| => t[k].last)
  }

  /** block_write: a number past the end changes nothing. */
  function DiskWrite(disk: seq<Block>, b: nat, data: Block): (r: seq<Block>)
    ensures |r| == |disk|
  {
    if b < |disk| then disk[b := data] else disk
  }

  /** find_block_in_cache: the slot holding b, or CACHE_SLOTS. */
  function Slotted(st: Store, b: nat): (k: nat)
    ensures k <= CACHE_SLOTS
    ensures k < CACHE_SLOTS ==> st.slots[k].num == b
    ensures k == CACHE_SLOTS ==> forall j :: 0 <= j < CACHE_SLOTS ==> st.slots[j].num != b
  {
    Find(Nums(st.slots), b, 0)
  }

  function Touch(st: Store, k: nat, now: int): Store
    requires k < CACHE_SLOTS
  {
    st.(slots := st.slots[k := st.slots[k].(last := now)])
  }

  /** A write that hits: the slot takes the data and becomes dirty. */
  function Put(st: Store, k: nat, data: Block, now: int): Store
    requires k < CACHE_SLOTS
  {
    st.(slots := st.slots[k := st.slots[k].(data := data, dirty := true, last := now)])
  }

  /** add_block_to_cache: the oldest slot is written back if dirty and then replaced. */
  function Add(st: Store, b: nat, data: Block, dirty: bool, now: int): (r: Store)
    ensures |r.disk| == |st.disk|
  {
    var k := Victim(Times(st.slots));
    var was := st.slots[k];
    Store(if was.dirty then DiskWrite(st.disk, was.num, was.data) else st.disk,
          st.slots[k := Slot(b, data, dirty, now)])
  }

  /** cached_block_read; the buffer keeps its bytes when the disk has no such block. */
  function CachedRead(st: Store, b: nat, buffer: Block, now: int): (r: (Store, Block, bool)) {
    var k := Slotted(st, b);
    if k < CACHE_SLOTS then (Touch(st, k, now), st.slots[k].data, true)
    else if b < |st.disk| then (Add(st, b, st.disk[b], false, now), st.disk[b], true)
    else (Add(st, b, buffer, false, now), buffer, false)
  }

  /** cached_block_write; a hit stamps the slot twice and the second stamp stays. */
  function CachedWrite(st: Store, b: nat, data: Block, now: int): Store {
    var k := Slotted(st, b);
    if k < CACHE_SLOTS then Put(st, k, data, now) else Add(st, b, data, true, now)
  }

  // ------------------------------------------------------------------ what the two layers stand for

  /** The content of block b: the cached copy when there is one, else the disk. */
  function View(st: Store, b: nat): Block {
    var k := Slotted(st, b);
    if k < CACHE_SLOTS then st.slots[k].data
    else if b < |st.disk| then st.disk[b] else Zeros(BLOCK_SIZE)
  }

  /**
   A block is in at most one slot; a clean slot equals the disk; a slot still zeroed is clean.
   The zeroed slots carry block number 0, which is why 0 is treated apart.
   */
  ghost predicate CacheOk(st: Store) {
    && (forall j, k :: 0 <= j < k < CACHE_SLOTS && st.slots[k].num != 0 ==> st.slots[j].num != st.slots[k].num)
    && (forall k :: 0 <= k < CACHE_SLOTS && st.slots[k].num == 0 ==> !st.slots[k].dirty)
    && (forall k :: 0 <= k < CACHE_SLOTS ==> Synced(st.disk, st.slots[k]))
  }

  ghost predicate Synced(disk: seq<Block>, s: Slot) {
    s.num != 0 && !s.dirty && s.num < |disk| ==> s.data == disk[s.num]
  }

  /** Block 0 is never cached, so it is compared on the disk itself. */
  ghost predicate SameBlockZero(st: Store, st': Store) {
    |st'.disk| == |st.disk| && (|st.disk| > 0 ==> st'.disk[0] == st.disk[0])
  }

  /** No view of a real block other than b differs between the two stores. */
  ghost predicate SameViewsBut(st: Store, st': Store, b: nat) {
    && SameBlockZero(st, st')
    && forall c :: 0 < c < |st.disk| && c != b ==> View(st', c) == View(st, c)
  }

  lemma ViewInSlot(st: Store, k: nat)
    requires CacheOk(st) && k < CACHE_SLOTS && st.slots[k].num != 0
    ensures Slotted(st, st.slots[k].num) == k && View(st, st.slots[k].num) == st.slots[k].data
  {
    var nums := Nums(st.slots);
    assert forall j :: 0 <= j < |nums| && j != k ==> nums[j] != nums[k];
    FindUnique(nums, k);
  }

  lemma TouchKeeps(st: Store, k: nat, now: int)
    requires CacheOk(st) && k < CACHE_SLOTS
    ensures CacheOk(Touch(st, k, now)) && SameViewsBut(st, Touch(st, k, now), 0)
  {
    var st' := Touch(st, k, now);
    assert Nums(st'.slots) == Nums(st.slots);
  }

  lemma PutChangesOne(st: Store, k: nat, data: Block, now: int)
    requires CacheOk(st) && k < CACHE_SLOTS && 0 < st.slots[k].num
    ensures CacheOk(Put(st, k, data, now))
    ensures View(Put(st, k, data, now), st.slots[k].num) == data
    ensures SameViewsBut(st, Put(st, k, data, now), st.slots[k].num)
  {
    var st' := Put(st, k, data, now);
    assert Nums(st'.slots) == Nums(st.slots);
    ViewInSlot(st', k);
    forall c | 0 < c < |st.disk| && c != st.slots[k].num
      ensures View(st', c) == View(st, c)
    {
      assert Slotted(st', c) == Slotted(st, c);
    }
  }

  /** The slot a block sits in after an insertion: the victim for b, unchanged for every other survivor. */
  lemma AddCacheOk(st: Store, b: nat, data: Block, dirty: bool, now: int)
    requires CacheOk(st) && 0 < b && Slotted(st, b) == CACHE_SLOTS
    requires dirty || b >= |st.disk| || data == st.disk[b]
    ensures CacheOk(Add(st, b, data, dirty, now))
  {
    var st' := Add(st, b, data, dirty, now);
    var v := Victim(Times(st.slots));
    forall k | 0 <= k < CACHE_SLOTS
      ensures Synced(st'.disk, st'.slots[k])
    {
      if k != v {
        assert Synced(st.disk, st.slots[k]);
        assert st'.slots[k] == st.slots[k];
        if st.slots[k].num != 0 && st.slots[v].num != 0 {
          assert st.slots[k].num != st.slots[v].num;
        }
      }
    }
  }

  /** Eviction loses nothing: an insertion changes the view of the inserted block only. */
  lemma AddChangesOne(st: Store, b: nat, data: Block, dirty: bool, now: int)
    requires CacheOk(st) && 0 < b && Slotted(st, b) == CACHE_SLOTS
    requires dirty || b >= |st.disk| || data == st.disk[b]
    ensures CacheOk(Add(st, b, data, dirty, now))
    ensures View(Add(st, b, data, dirty, now), b) == data
    ensures SameViewsBut(st, Add(st, b, data, dirty, now), b)
  {
    var st' := Add(st, b, data, dirty, now);
    AddCacheOk(st, b, data, dirty, now);
    var v := Victim(Times(st.slots));
    ViewInSlot(st', v);
    forall c | 0 < c < |st.disk| && c != b
      ensures View(st', c) == View(st, c)
    {
      ViewSurvivesAdd(st, b, data, dirty, now, c);
    }
  }

  lemma ViewSurvivesAdd(st: Store, b: nat, data: Block, dirty: bool, now: int, c: nat)
    requires CacheOk(st) && 0 < b && Slotted(st, b) == CACHE_SLOTS
    requires CacheOk(Add(st, b, data, dirty, now))
    requires 0 < c < |st.disk| && c != b
    ensures View(Add(st, b, data, dirty, now), c) == View(st, c)
  {
    var st' := Add(st, b, data, dirty, now);
    var v := Victim(Times(st.slots));
    var k := Slotted(st, c);
    if k == CACHE_SLOTS {
      assert Slotted(st', c) == CACHE_SLOTS;
    } else if k == v {
      ViewInSlot(st, v);
      assert forall j :: 0 <= j < CACHE_SLOTS && j != v ==> st.slots[j].num != c;
      assert Slotted(st', c) == CACHE_SLOTS;
      assert Synced(st.disk, st.slots[v]);
    } else {
      ViewInSlot(st, k);
      assert st'.slots[k] == st.slots[k];
      ViewInSlot(st', k);
    }
  }

  // ------------------------------------------------------------------ refinement of a plain array of blocks

  /** cached_block_read returns the block's content and changes no content. */
  lemma CachedReadRefines(st: Store, b: nat, buffer: Block, now: int)
    requires CacheOk(st) && 0 < b < |st.disk|
    ensures var (st', data, ok) := CachedRead(st, b, buffer, now);
      ok && data == View(st, b) && CacheOk(st') && SameViewsBut(st, st', 0)
  {
    var k := Slotted(st, b);
    if k < CACHE_SLOTS {
      TouchKeeps(st, k, now);
    } else {
      AddChangesOne(st, b, st.disk[b], false, now);
    }
  }

  /** cached_block_write makes the data the block's content and changes no other. */
  lemma CachedWriteRefines(st: Store, b: nat, data: Block, now: int)
    requires CacheOk(st) && 0 < b < |st.disk|
    ensures var st' := CachedWrite(st, b, data, now);
      CacheOk(st') && View(st', b) == data && SameViewsBut(st, st', b)
  {
    var k := Slotted(st, b);
    if k < CACHE_SLOTS {
      PutChangesOne(st, k, data, now);
    } else {
      AddChangesOne(st, b, data, true, now);
    }
  }

  /** The cache as fs_new leaves it. */
  function EmptyCache(): SlotTable {
    seq(CACHE_SLOTS, _ => Slot(0, Zeros(BLOCK_SIZE), false, 0))
  }

  /** What the disk and a just-zeroed cache over it mean, whatever the block number. */
  ghost predicate ReadsTheDisk(n: nat, b: nat) {
    forall disk: seq<Block>, buffer: Block, now: int | |disk| == n ::
      var (_, data, ok) := CachedRead(Store(disk, EmptyCache()), b, buffer, now);
      ok && b < n && data == disk[b]
  }

  /** A first read is faithful for every disk exactly for blocks 1 .. n-1: zeroed slots pose as block 0. */
  lemma ReadsTheDiskIff(n: nat, b: nat)
    ensures ReadsTheDisk(n, b) <==> 0 < b < n
  {
    if b == 0 && 0 < n {
      var ones: Block := seq(BLOCK_SIZE, _ => 1);
      var disk: seq<Block> := seq(n, _ => ones);
      var (_, data, ok) := CachedRead(Store(disk, EmptyCache()), b, ones, 0);
      assert data[0] != disk[b][0];
    } else if b >= n {
      var disk: seq<Block> := seq(n, _ => Zeros(BLOCK_SIZE));
      assert |disk| == n;
      var (_, data, ok) := CachedRead(Store(disk, EmptyCache()), b, Zeros(BLOCK_SIZE), 0);
      assert !ReadsTheDisk(n, b);
    }
  }

  /** A failed read is cached: asked again, the same missing block is reported as read, with the caller's old bytes. */
  lemma FailedReadIsCached(st: Store, b: nat, buffer: Block, other: Block, now: int, later: int)
    requires CacheOk(st) && |st.disk| <= b && 0 < b && Slotted(st, b) == CACHE_SLOTS
    ensures var first := CachedRead(st, b, buffer, now);
      var second := CachedRead(first.0, b, other, later);
      !first.2 && second.2 && second.1 == buffer
  {
    AddCacheOk(st, b, buffer, false, now);
    ViewInSlot(Add(st, b, buffer, false, now), Victim(Times(st.slots)));
  }

  datatype Access = Read(num: nat) | Write(num: nat, data: Block)

  function AccessAll(st: Store, accesses: seq<Access>, clock: nat -> int, start: nat): (r: (Store, seq<Block>))
    decreases |accesses|
  {
    if accesses == [] then (st, [])
    else match accesses[0]
      case Read(b) =>
        var (st1, data, ok) := CachedRead(st, b, Zeros(BLOCK_SIZE), clock(start));
        var rest := AccessAll(st1, accesses[1..], clock, start + 1);
        (rest.0, [data] + rest.1)
      case Write(b, data) =>
        AccessAll(CachedWrite(st, b, data, clock(start)), accesses[1..], clock, start + 1)
  }

  /** The same accesses on a plain array of blocks. */
  function AccessPlain(disk: seq<Block>, accesses: seq<Access>): (r: (seq<Block>, seq<Block>))
    requires forall i :: 0 <= i < |accesses| ==> accesses[i].num < |disk|
    decreases |accesses|
  {
    if accesses == [] then (disk, [])
    else match accesses[0]
      case Read(b) =>
        var rest := AccessPlain(disk, accesses[1..]);
        (rest.0, [disk[b]] + rest.1)
      case Write(b, data) => AccessPlain(disk[b := data], accesses[1..])
  }

  /** The plain array agrees with the views of every block but 0. */
  ghost predicate Represents(st: Store, plain: seq<Block>) {
    |plain| == |st.disk| && forall b :: 0 < b < |plain| ==> View(st, b) == plain[b]
  }

  /** Over any run of accesses, under any clock, the cached disk answers like a plain array of blocks. */
  lemma {:induction false} CacheRefinesPlainDisk(st: Store, plain: seq<Block>, accesses: seq<Access>,
        clock: nat -> int, start: nat)
    requires CacheOk(st) && Represents(st, plain)
    requires forall i :: 0 <= i < |accesses| ==> 0 < accesses[i].num < |plain|
    ensures AccessAll(st, accesses, clock, start).1 == AccessPlain(plain, accesses).1
    ensures CacheOk(AccessAll(st, accesses, clock, start).0)
    ensures Represents(AccessAll(st, accesses, clock, start).0, AccessPlain(plain, accesses).0)
    decreases |accesses|
  {
    if accesses != [] {
      var now := clock(start);
      match accesses[0]
      case Read(b) =>
        CachedReadRefines(st, b, Zeros(BLOCK_SIZE), now);
        var (st1, data, ok) := CachedRead(st, b, Zeros(BLOCK_SIZE), now);
        CacheRefinesPlainDisk(st1, plain, accesses[1..], clock, start + 1);
      case Write(b, data) =>
        CachedWriteRefines(st, b, data, now);
        CacheRefinesPlainDisk(CachedWrite(st, b, data, now), plain[b := data], accesses[1..], clock, start + 1);
    }
  }
}
