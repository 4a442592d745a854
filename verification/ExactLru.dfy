/**
 The access-time stamps of the block cache implement exact least-recently-used replacement, provided the clock
 is positive and strictly increases between accesses.
 */
module ExactLru {
  import opened Bytes
  import opened Slots
  import opened BlockStore

  /** The distinct blocks of a history, most recently accessed first. */
  function Recency(h: seq<nat>): seq<nat> {
    if h == [] then [] else MoveToFront(Recency(h[..|h| - 1]), h[|h| - 1])
  }

  function MoveToFront(l: seq<nat>, b: nat): seq<nat> {
    [b] + Without(l, b)
  }

  function Without(l: seq<nat>, b: nat): (r: seq<nat>)
    ensures forall x :: x in r <==> x in l && x != b
  {
    if l == [] then [] else if l[0] == b then Without(l[1..], b) else [l[0]] + Without(l[1..], b)
  }

  function Head(l: seq<nat>): seq<nat> {
    if |l| <= CACHE_SLOTS then l else l[..CACHE_SLOTS]
  }

  ghost predicate Distinct(l: seq<nat>) {
    forall i, j :: 0 <= i < j < |l| ==> l[i] != l[j]
  }

  /** Removing one element of a duplicate-free list closes the gap. */
  lemma {:induction false} WithoutOne(l: seq<nat>, i: nat)
    requires i < |l| && Distinct(l)
    ensures Without(l, l[i]) == l[..i] + l[i + 1..]
  {
    if i == 0 {
      WithoutAbsent(l[1..], l[0]);
    } else {
      WithoutOne(l[1..], i - 1);
      assert l[..i] + l[i + 1..] == [l[0]] + (l[1..][..i - 1] + l[1..][i..]);
    }
  }

  lemma {:induction false} WithoutAbsent(l: seq<nat>, b: nat)
    requires b !in l
    ensures Without(l, b) == l
  {
    if l != [] {
      WithoutAbsent(l[1..], b);
    }
  }

  lemma MoveToFrontDistinct(l: seq<nat>, b: nat)
    requires Distinct(l)
    ensures Distinct(MoveToFront(l, b))
  {
    if b in l {
      var i :| 0 <= i < |l| && l[i] == b;
      WithoutOne(l, i);
    } else {
      WithoutAbsent(l, b);
    }
  }

  lemma {:induction false} RecencyDistinct(h: seq<nat>)
    ensures Distinct(Recency(h))
  {
    if h != [] {
      RecencyDistinct(h[..|h| - 1]);
      MoveToFrontDistinct(Recency(h[..|h| - 1]), h[|h| - 1]);
    }
  }

  /** Keeping only the ten most recent blocks needs no memory of the others. */
  lemma HeadOfMoveToFront(l: seq<nat>, b: nat)
    requires Distinct(l)
    ensures Head(MoveToFront(l, b)) == Head(MoveToFront(Head(l), b))
  {
    hide Without, Head;
    if b in l {
      var i :| 0 <= i < |l| && l[i] == b;
      WithoutOne(l, i);
      HeadOfRaised(l, i);
    } else {
      WithoutAbsent(l, b);
      HeadOfPushed(l, b);
    }
  }

  lemma HeadOfPushed(l: seq<nat>, b: nat)
    requires b !in l
    ensures Head([b] + l) == Head(MoveToFront(Head(l), b))
  {
    WithoutAbsent(Head(l), b);
  }

  lemma HeadOfRaised(l: seq<nat>, i: nat)
    requires Distinct(l) && i < |l|
    ensures Head([l[i]] + (l[..i] + l[i + 1..])) == Head(MoveToFront(Head(l), l[i]))
  {
    hide Without;
    var raised := [l[i]] + (l[..i] + l[i + 1..]);
    if |l| <= CACHE_SLOTS {
      WithoutOne(l, i);
    } else if i < CACHE_SLOTS {
      WithoutOne(l[..CACHE_SLOTS], i);
      assert raised[..CACHE_SLOTS] == [l[i]] + (l[..CACHE_SLOTS][..i] + l[..CACHE_SLOTS][i + 1..]);
    } else {
      WithoutAbsent(l[..CACHE_SLOTS], l[i]);
      assert raised[..CACHE_SLOTS] == ([l[i]] + l[..CACHE_SLOTS])[..CACHE_SLOTS];
    }
  }

  // ------------------------------------------------------------------ the stamps

  /** Effect of one access on the block numbers and stamps of the slots. */
  function AccessKeys(nums: seq<nat>, times: seq<int>, b: nat, now: int): (r: (seq<nat>, seq<int>))
    requires |nums| == |times| == CACHE_SLOTS
    ensures |r.0| == |r.1| == CACHE_SLOTS
  {
    var k := Find(nums, b, 0);
    if k < CACHE_SLOTS then (nums, times[k := now])
    else var v := Victim(times); (nums[v := b], times[v := now])
  }

  /**
   The used slots, from the most to the least recently stamped. Unused slots carry block 0 and stamp 0,
   and every stamp lies below now.
   */
  ghost predicate Tracks(nums: seq<nat>, times: seq<int>, order: seq<nat>, now: int) {
    && |nums| == |times| == CACHE_SLOTS
    && Orders(nums, order)
    && Falling(times, order)
    && (forall k :: 0 <= k < CACHE_SLOTS ==> Stamped(nums[k], times[k], now))
    && UsedOnce(nums)
  }

  ghost predicate Orders(nums: seq<nat>, order: seq<nat>)
    requires |nums| == CACHE_SLOTS
  {
    && Distinct(order)
    && (forall i :: 0 <= i < |order| ==> order[i] < CACHE_SLOTS && nums[order[i]] != 0)
    && (forall k: nat :: k < CACHE_SLOTS && nums[k] != 0 ==> k in order)
  }

  ghost predicate Falling(times: seq<int>, order: seq<nat>) {
    && (forall i :: 0 <= i < |order| ==> order[i] < |times|)
    && (forall i, j :: 0 <= i < j < |order| ==> times[order[i]] > times[order[j]])
  }

  ghost predicate Stamped(num: nat, time: int, now: int) {
    time < now && if num == 0 then time == 0 else time > 0
  }

  ghost predicate UsedOnce(nums: seq<nat>) {
    forall j, k :: 0 <= j < k < |nums| && nums[j] != 0 ==> nums[j] != nums[k]
  }

  /** The blocks in the slots of an order. */
  function Names(nums: seq<nat>, order: seq<nat>): (l: seq<nat>)
    requires forall i :: 0 <= i < |order| ==> order[i] < |nums|
    ensures |l| == |order| && forall i :: 0 <= i < |l| ==> l[i] == nums[order[i]]
  {
    seq(|order|, i requires 0 <= i < |order| => nums[order[i]])
  }

  function Elements(l: seq<nat>): set<nat> {
    set x | x in l
  }

  lemma {:induction false} DistinctSize(l: seq<nat>)
    requires Distinct(l)
    ensures |Elements(l)| == |l|
  {
    if l != [] {
      DistinctSize(l[1..]);
      assert Elements(l) == {l[0]} + Elements(l[1..]);
      assert l[0] !in Elements(l[1..]);
    }
  }

  function AllSlots(n: nat): (a: set<nat>)
    ensures forall k: nat :: k in a <==> k < n
    ensures |a| == n
  {
    if n == 0 then {} else AllSlots(n - 1) + {n - 1}
  }

  /** Counting: an order of slots is full exactly when it misses no slot. */
  lemma FullIffNoneMissing(order: seq<nat>, n: nat)
    requires Distinct(order) && forall i :: 0 <= i < |order| ==> order[i] < n
    ensures |order| <= n
    ensures |order| == n <==> forall k: nat :: k < n ==> k in order
  {
    DistinctSize(order);
    var all := AllSlots(n);
    var missing := all - Elements(order);
    assert Elements(order) <= all;
    assert all == Elements(order) + missing;
    assert missing == {} <==> forall k: nat :: k < n ==> k in order by {
      forall k: nat | k < n && k !in order ensures missing != {} { assert k in missing; }
    }
  }

  /** The slot replaced is an unused one while there is one, and then the slot at the end of the order. */
  lemma VictimIsLast(nums: seq<nat>, times: seq<int>, order: seq<nat>, now: int)
    requires Tracks(nums, times, order, now)
    ensures |order| <= CACHE_SLOTS
    ensures var v := Victim(times);
      if |order| < CACHE_SLOTS then nums[v] == 0 else v == order[CACHE_SLOTS - 1]
  {
    var v := Victim(times);
    FullIffNoneMissing(order, CACHE_SLOTS);
    if |order| < CACHE_SLOTS {
      var z: nat :| z < CACHE_SLOTS && z !in order;
      assert Stamped(nums[z], times[z], now);
      assert Stamped(nums[v], times[v], now);
      assert times[v] <= times[z];
    } else {
      assert v in order;
      var i :| 0 <= i < |order| && order[i] == v;
      assert times[v] <= times[order[CACHE_SLOTS - 1]];
    }
  }

  function Raised(order: seq<nat>, i: nat): seq<nat>
    requires i < |order|
  {
    [order[i]] + order[..i] + order[i + 1..]
  }

  lemma RaisedCovers(order: seq<nat>, i: nat, j: nat)
    requires i < |order| && j < |order|
    ensures order[j] in Raised(order, i)
  {
    assert Raised(order, i)[if j == i then 0 else if j < i then j + 1 else j] == order[j];
  }

  lemma RaisedDistinct(order: seq<nat>, i: nat)
    requires Distinct(order) && i < |order|
    ensures Distinct(Raised(order, i)) && |Raised(order, i)| == |order|
    ensures forall j :: 0 <= j < |order| ==> Raised(order, i)[j] in order
  {
  }

  lemma RaisedOrders(nums: seq<nat>, order: seq<nat>, i: nat)
    requires |nums| == CACHE_SLOTS && Orders(nums, order) && i < |order|
    ensures Orders(nums, Raised(order, i))
  {
    hide Distinct, Raised;
    RaisedDistinct(order, i);
    forall k: nat | k < CACHE_SLOTS && nums[k] != 0 ensures k in Raised(order, i) {
      var j := PlaceInOrder(nums, order, k);
      RaisedCovers(order, i, j);
    }
  }

  lemma RaisedFalling(times: seq<int>, order: seq<nat>, i: nat, now: int)
    requires Falling(times, order) && Distinct(order) && i < |order|
    requires forall k :: 0 <= k < |times| ==> times[k] < now
    ensures Falling(times[order[i] := now], Raised(order, i))
  {
  }

  lemma RestampedStamps(nums: seq<nat>, times: seq<int>, k: nat, b: nat, now: int, next: int)
    requires |nums| == |times| == CACHE_SLOTS && k < CACHE_SLOTS && 0 < b && 0 < now < next
    requires forall j :: 0 <= j < CACHE_SLOTS ==> Stamped(nums[j], times[j], now)
    ensures var (nums', times') := (nums[k := b], times[k := now]);
      forall j :: 0 <= j < CACHE_SLOTS ==> Stamped(nums'[j], times'[j], next)
    ensures forall j :: 0 <= j < CACHE_SLOTS ==> times[j] < now
  {
    forall j | 0 <= j < CACHE_SLOTS ensures Stamped(nums[k := b][j], times[k := now][j], next) && times[j] < now {
      assert Stamped(nums[j], times[j], now);
    }
  }

  lemma HitTracks(nums: seq<nat>, times: seq<int>, order: seq<nat>, i: nat, now: int, next: int)
    requires Tracks(nums, times, order, now) && 0 < now < next && i < |order|
    ensures Tracks(nums, times[order[i] := now], Raised(order, i), next)
  {
    RestampedStamps(nums, times, order[i], nums[order[i]], now, next);
    assert nums[order[i] := nums[order[i]]] == nums;
    RaisedOrders(nums, order, i);
    RaisedFalling(times, order, i, now);
  }

  lemma KeptOrders(nums: seq<nat>, order: seq<nat>, v: nat, b: nat)
    requires |nums| == CACHE_SLOTS && Orders(nums, order) && v < CACHE_SLOTS && 0 < b && |order| <= CACHE_SLOTS
    requires if |order| < CACHE_SLOTS then nums[v] == 0 else v == order[CACHE_SLOTS - 1]
    ensures Orders(nums[v := b], [v] + Kept(order))
  {
    var order' := [v] + Kept(order);
    forall k: nat | k < CACHE_SLOTS && nums[v := b][k] != 0 ensures k in order' {
      if k == v {
        assert order'[0] == k;
      } else {
        var j :| 0 <= j < |order| && order[j] == k;
        assert order'[j + 1] == k;
      }
    }
  }

  lemma KeptFalling(times: seq<int>, order: seq<nat>, v: nat, now: int)
    requires Falling(times, order) && v < |times| && v !in Kept(order)
    requires forall k :: 0 <= k < |times| ==> times[k] < now
    ensures Falling(times[v := now], [v] + Kept(order))
  {
    var kept := Kept(order);
    assert forall i :: 0 <= i < |kept| ==> kept[i] == order[i] && kept[i] != v;
  }

  lemma MissTracks(nums: seq<nat>, times: seq<int>, order: seq<nat>, b: nat, now: int, next: int)
    requires Tracks(nums, times, order, now) && 0 < now < next
    requires 0 < b && b !in nums
    ensures var v := Victim(times); Tracks(nums[v := b], times[v := now], [v] + Kept(order), next)
  {
    var v := Victim(times);
    VictimIsLast(nums, times, order, now);
    RestampedStamps(nums, times, v, b, now, next);
    KeptOrders(nums, order, v, b);
    KeptFalling(times, order, v, now);
    UsedOnceAfter(nums, v, b);
  }

  lemma UsedOnceAfter(nums: seq<nat>, v: nat, b: nat)
    requires UsedOnce(nums) && v < |nums| && b !in nums
    ensures UsedOnce(nums[v := b])
  {
  }

  /** What an insertion keeps of an order. */
  function Kept(order: seq<nat>): seq<nat> {
    if |order| < CACHE_SLOTS then order else order[..CACHE_SLOTS - 1]
  }

  lemma HitNames(nums: seq<nat>, order: seq<nat>, i: nat)
    requires |nums| == CACHE_SLOTS && Orders(nums, order) && UsedOnce(nums) && i < |order| <= CACHE_SLOTS
    requires Orders(nums, Raised(order, i))
    ensures Names(nums, Raised(order, i)) == Head(MoveToFront(Names(nums, order), nums[order[i]]))
  {
    hide Without;
    var l := Names(nums, order);
    NamesDistinct(nums, order);
    WithoutOne(l, i);
    NamesOfRaised(nums, order, i);
  }

  lemma NamesOfRaised(nums: seq<nat>, order: seq<nat>, i: nat)
    requires i < |order|
    requires forall j :: 0 <= j < |order| ==> order[j] < |nums|
    requires forall j :: 0 <= j < |order| ==> Raised(order, i)[j] < |nums|
    ensures var l := Names(nums, order);
      Names(nums, Raised(order, i)) == [l[i]] + (l[..i] + l[i + 1..])
  {
  }

  lemma PlaceInOrder(nums: seq<nat>, order: seq<nat>, k: nat) returns (i: nat)
    requires |nums| == CACHE_SLOTS && Orders(nums, order) && k < CACHE_SLOTS && nums[k] != 0
    ensures i < |order| && order[i] == k
  {
    assert k in order;
    i :| 0 <= i < |order| && order[i] == k;
  }

  lemma MissNames(nums: seq<nat>, order: seq<nat>, v: nat, b: nat)
    requires |nums| == CACHE_SLOTS && Orders(nums, order) && b !in nums && v < CACHE_SLOTS && |order| <= CACHE_SLOTS
    requires Orders(nums[v := b], [v] + Kept(order))
    ensures Names(nums[v := b], [v] + Kept(order)) == Head(MoveToFront(Names(nums, order), b))
  {
    var l := Names(nums, order);
    WithoutAbsent(l, b);
    var order' := [v] + Kept(order);
    forall i | 1 <= i < |order'| ensures order'[i] == order[i - 1] && order'[i] != v {
      assert order'[0] != order'[i];
    }
    assert Names(nums[v := b], order') == Head([b] + l);
  }

  lemma NamesDistinct(nums: seq<nat>, order: seq<nat>)
    requires |nums| == CACHE_SLOTS && Orders(nums, order) && UsedOnce(nums)
    ensures Distinct(Names(nums, order))
  {
    forall i, j | 0 <= i < j < |order| ensures nums[order[i]] != nums[order[j]] {
      assert order[i] != order[j];
    }
  }

  /** One access moves the block to the front and drops the tenth if there were ten others. */
  lemma AccessTracks(nums: seq<nat>, times: seq<int>, order: seq<nat>, b: nat, now: int, next: int)
    returns (order': seq<nat>)
    requires Tracks(nums, times, order, now) && 0 < b && 0 < now < next
    ensures var (nums', times') := AccessKeys(nums, times, b, now);
      Tracks(nums', times', order', next)
      && Names(nums', order') == Head(MoveToFront(Names(nums, order), b))
  {
    VictimIsLast(nums, times, order, now);
    var k := Find(nums, b, 0);
    if k < CACHE_SLOTS {
      var i := PlaceInOrder(nums, order, k);
      HitTracks(nums, times, order, i, now, next);
      HitNames(nums, order, i);
      order' := Raised(order, i);
    } else {
      MissTracks(nums, times, order, b, now, next);
      MissNames(nums, order, Victim(times), b);
      order' := [Victim(times)] + Kept(order);
    }
  }

  // ------------------------------------------------------------------ the cache

  lemma AccessesAreAccessKeys(st: Store, a: Access, now: int)
    ensures var st' := Step(st, a, now);
      (Nums(st'.slots), Times(st'.slots)) == AccessKeys(Nums(st.slots), Times(st.slots), a.num, now)
  {
    var st' := Step(st, a, now);
    var r := AccessKeys(Nums(st.slots), Times(st.slots), a.num, now);
    assert Nums(st'.slots) == r.0;
    assert Times(st'.slots) == r.1;
  }

  function History(accesses: seq<Access>): (h: seq<nat>)
    ensures |h| == |accesses| && forall i :: 0 <= i < |h| ==> h[i] == accesses[i].num
  {
    seq(|accesses|, i requires 0 <= i < |accesses| => accesses[i].num)
  }

  ghost predicate Ticking(clock: nat -> int) {
    clock(0) > 0 && forall i: nat :: clock(i) < clock(i + 1)
  }

  lemma {:induction false} TickingPositive(clock: nat -> int, i: nat)
    requires Ticking(clock)
    ensures 0 < clock(i) < clock(i + 1)
  {
    if i > 0 {
      TickingPositive(clock, i - 1);
      assert clock(i - 1) < clock(i - 1 + 1);
    }
  }

  /** The order of the slots names the most recent blocks of the history. */
  ghost predicate TracksHistory(t: SlotTable, order: seq<nat>, h: seq<nat>, now: int) {
    Tracks(Nums(t), Times(t), order, now) && Names(Nums(t), order) == Head(Recency(h))
  }

  function Step(st: Store, a: Access, now: int): Store {
    if a.Read? then CachedRead(st, a.num, Zeros(BLOCK_SIZE), now).0 else CachedWrite(st, a.num, a.data, now)
  }

  lemma StepTracks(st: Store, order: seq<nat>, h: seq<nat>, a: Access, now: int, next: int) returns (order': seq<nat>)
    requires TracksHistory(st.slots, order, h, now) && 0 < a.num && 0 < now < next
    ensures TracksHistory(Step(st, a, now).slots, order', h + [a.num], next)
  {
    AccessesAreAccessKeys(st, a, now);
    order' := AccessTracks(Nums(st.slots), Times(st.slots), order, a.num, now, next);
    RecencyDistinct(h);
    HeadOfMoveToFront(Recency(h), a.num);
    assert (h + [a.num])[..|h|] == h;
  }

  lemma {:induction false} RunTracks(st: Store, past: seq<nat>, order: seq<nat>, accesses: seq<Access>,
        clock: nat -> int)
    returns (order': seq<nat>)
    requires Ticking(clock)
    requires forall i :: 0 <= i < |accesses| ==> 0 < accesses[i].num
    requires TracksHistory(st.slots, order, past, clock(|past|))
    ensures TracksHistory(AccessAll(st, accesses, clock, |past|).0.slots, order',
                          past + History(accesses), clock(|past| + |accesses|))
    decreases |accesses|
  {
    hide TracksHistory, Recency, CachedRead, CachedWrite, Ticking;
    if accesses == [] {
      assert past + History(accesses) == past;
      order' := order;
    } else {
      var a := accesses[0];
      TickingPositive(clock, |past|);
      var order1 := StepTracks(st, order, past, a, clock(|past|), clock(|past| + 1));
      order' := RunTracks(Step(st, a, clock(|past|)), past + [a.num], order1, accesses[1..], clock);
      assert past + [a.num] + History(accesses[1..]) == past + History(accesses);
    }
  }

  lemma InOrder(t: SlotTable, order: seq<nat>, h: seq<nat>, now: int, b: nat)
    requires TracksHistory(t, order, h, now) && 0 < b
    ensures b in Nums(t) <==> b in Head(Recency(h))
  {
    var nums := Nums(t);
    if k :| 0 <= k < CACHE_SLOTS && nums[k] == b {
      assert k in order;
      var i :| 0 <= i < |order| && order[i] == k;
      assert Names(nums, order)[i] == b;
    }
  }

  lemma NothingCached(now: int)
    requires now > 0
    ensures TracksHistory(EmptyCache(), [], [], now)
  {
  }

  /** From the zeroed cache, the blocks cached after any accesses are exactly the ten most recently accessed. */
  lemma CachedAreTheMostRecent(st: Store, accesses: seq<Access>, clock: nat -> int, b: nat)
    requires Ticking(clock) && 0 < b && st.slots == EmptyCache()
    requires forall i :: 0 <= i < |accesses| ==> 0 < accesses[i].num
    ensures b in Nums(AccessAll(st, accesses, clock, 0).0.slots) <==> b in Head(Recency(History(accesses)))
  {
    var past: seq<nat> := [];
    NothingCached(clock(0));
    var order := RunTracks(st, past, past, accesses, clock);
    assert past + History(accesses) == History(accesses);
    InOrder(AccessAll(st, accesses, clock, 0).0.slots, order, History(accesses), clock(|past| + |accesses|), b);
  }

  /** What "most recent" means: the place of a block is the number of distinct blocks accessed after it last was. */
  lemma {:induction false} RecencyPlace(h: seq<nat>, q: nat)
    requires q < |h| && h[q] !in h[q + 1..]
    ensures var place := |Elements(h[q + 1..])|;
      place < |Recency(h)| && Recency(h)[place] == h[q] && Elements(Recency(h)[..place]) == Elements(h[q + 1..])
    decreases |h|
  {
    var n := |h| - 1;
    if q < n {
      var before, since := Recency(h[..n]), h[q + 1..n];
      assert h[..n][q + 1..] == since;
      assert h[q + 1..] == since + [h[n]];
      RecencyPlace(h[..n], q);
      RecencyDistinct(h[..n]);
      PlaceAfterMove(before, h[n], |Elements(since)|);
      ElementsAppend(since, h[n]);
    } else {
      assert h[q + 1..] == [];
    }
  }

  lemma ElementsAppend(l: seq<nat>, b: nat)
    ensures Elements(l + [b]) == Elements(l) + {b}
    ensures |Elements(l + [b])| == |Elements(l)| + if b in l then 0 else 1
  {
    assert Elements(l + [b]) == Elements(l) + {b};
    if b in l {
      assert Elements(l) + {b} == Elements(l);
    }
  }

  /** Moving a block to the front pushes back exactly the blocks that were before it. */
  lemma PlaceAfterMove(l: seq<nat>, b: nat, place: nat)
    requires Distinct(l) && place < |l| && l[place] != b
    ensures var place' := if b in Elements(l[..place]) then place else place + 1;
      var l' := MoveToFront(l, b);
      place' < |l'| && l'[place'] == l[place] && Elements(l'[..place']) == Elements(l[..place]) + {b}
  {
    var l' := MoveToFront(l, b);
    if b in l {
      var i :| 0 <= i < |l| && l[i] == b;
      WithoutOne(l, i);
      if i < place {
        assert l[..place][i] == b;
        assert l'[..place] == [b] + (l[..i] + l[i + 1..place]);
        assert l[..place] == l[..i] + [b] + l[i + 1..place];
      } else {
        assert l'[..place + 1] == [b] + l[..place];
      }
    } else {
      WithoutAbsent(l, b);
      assert l'[..place + 1] == [b] + l[..place];
    }
  }
}
