/**
 A cache of a few slots without a clock: the slots in the order of their last use. A key may be in several slots; a use
 counts for the first of them.
 */
module SlotOrder {
  import opened Slots

  /** The keys of the slots, and the slots themselves, the one used longest ago first. */
  datatype Lru<!K(==)> = Lru(keys: seq<K>, order: seq<nat>)

  /** What a call does with a key: look it up, put it in once more, or use it only if it is there. */
  datatype Use<!K(==)> = Lookup(key: K) | Insert(key: K) | Glance(key: K)

  function Without(order: seq<nat>, k: nat): seq<nat> {
    var i := Find(order, k, 0);
    if i < |order| then order[..i] + order[i + 1..] else order
  }

  /** Slot k is used. */
  function Used<K(==)>(l: Lru<K>, k: nat): Lru<K> {
    l.(order := Without(l.order, k) + [k])
  }

  function BringIn<K(==)>(l: Lru<K>, key: K): Lru<K> {
    if l.order != [] && l.order[0] < |l.keys| then Used(l, l.order[0]).(keys := l.keys[l.order[0] := key]) else l
  }

  function After<K(==)>(l: Lru<K>, u: Use<K>): Lru<K> {
    var k := Find(l.keys, u.key, 0);
    match u
    case Lookup(key) => if k < |l.keys| then Used(l, k) else BringIn(l, key)
    case Insert(key) => BringIn(l, key)
    case Glance(key) => if k < |l.keys| then Used(l, k) else l
  }

  function AfterAll<K(==)>(l: Lru<K>, uses: seq<Use<K>>): Lru<K>
    decreases |uses|
  {
    if uses == [] then l else AfterAll(After(l, uses[0]), uses[1..])
  }

  lemma {:induction false} AfterBoth<K>(l: Lru<K>, a: seq<Use<K>>, b: seq<Use<K>>)
    ensures AfterAll(l, a + b) == AfterAll(AfterAll(l, a), b)
    decreases |a|
  {
    if a == [] {
      assert a + b == b;
    } else {
      assert (a + b)[1..] == a[1..] + b;
      AfterBoth(After(l, a[0]), a[1..], b);
    }
  }

  // ------------------------------------------------------------------ with a clock

  /** The slots by their stamps, slots never used by number. */
  ghost predicate ByStamp(times: seq<int>, order: seq<nat>) {
    && |order| == |times| && (forall i :: 0 <= i < |order| ==> order[i] < |times|)
    && (forall k: nat :: k < |times| ==> Find(order, k, 0) < |order|)
    && forall i, j :: 0 <= i < j < |order| ==> Before(times, order[i], order[j])
  }

  ghost predicate Before(times: seq<int>, a: nat, b: nat) {
    a < |times| && b < |times| && (times[a] < times[b] || (times[a] == times[b] && a < b))
  }

  /** The slot replaced next is the first in the order. */
  lemma VictimIsFirst(times: seq<int>, order: seq<nat>)
    requires ByStamp(times, order) && |times| > 0
    ensures Victim(times) == order[0]
  {
    var v := Victim(times);
    var i := Find(order, v, 0);
    assert i > 0 ==> Before(times, order[0], order[i]);
  }

  /** Taking one slot out leaves the others where they were. */
  lemma WithoutIs(times: seq<int>, order: seq<nat>, k: nat)
    requires ByStamp(times, order) && k < |times|
    ensures var (p, rest) := (Find(order, k, 0), Without(order, k));
      && p < |order| && order[p] == k && |rest| == |order| - 1
      && forall i :: 0 <= i < |rest| ==> rest[i] == order[if i < p then i else i + 1]
  {
  }

  lemma OthersDiffer(times: seq<int>, order: seq<nat>, i: nat, j: nat)
    requires ByStamp(times, order) && i < |order| && j < |order| && i != j
    ensures order[i] != order[j]
  {
    assert Before(times, order[if i < j then i else j], order[if i < j then j else i]);
  }

  /** A slot stamped after all others becomes the last. */
  lemma StampMovesBack(times: seq<int>, order: seq<nat>, k: nat, now: int)
    requires ByStamp(times, order) && k < |times| && forall i :: 0 <= i < |times| ==> times[i] < now
    ensures ByStamp(times[k := now], Without(order, k) + [k])
  {
    hide Without;
    WithoutIs(times, order, k);
    var times', rest := times[k := now], Without(order, k);
    var order', p := rest + [k], Find(order, k, 0);
    forall i, j | 0 <= i < j < |order'| ensures Before(times', order'[i], order'[j]) {
      OthersDiffer(times, order, p, if i < p then i else i + 1);
      if j < |rest| {
        OthersDiffer(times, order, p, if j < p then j else j + 1);
        assert Before(times, order[if i < p then i else i + 1], order[if j < p then j else j + 1]);
      }
    }
    forall m: nat | m < |times'| ensures Find(order', m, 0) < |order'| {
      var q := Find(order, m, 0);
      assert order'[if q == p then |rest| else if q < p then q else q - 1] == m;
    }
  }

  // ------------------------------------------------------------------ a cache that follows the machine

  /** A cache with these keys and stamps, all before now, is in the machine's state. */
  ghost predicate Tracks<K>(keys: seq<K>, times: seq<int>, now: int, l: Lru<K>) {
    && l.keys == keys && |keys| == |times| && |keys| > 0 && ByStamp(times, l.order)
    && forall i :: 0 <= i < |times| ==> times[i] < now
  }

  /** A slot gets a key, its old one or another, and a stamp of now or later. */
  lemma UseTracks<K>(keys: seq<K>, times: seq<int>, now: int, l: Lru<K>, k: nat, key: K, stamp: int, later: int)
    requires Tracks(keys, times, now, l) && k < |keys| && now <= stamp < later
    ensures Tracks(keys[k := key], times[k := stamp], later, Used(l, k).(keys := keys[k := key]))
  {
    hide ByStamp, Without;
    StampMovesBack(times, l.order, k, stamp);
  }

  lemma VictimTracks<K>(keys: seq<K>, times: seq<int>, now: int, l: Lru<K>)
    requires Tracks(keys, times, now, l)
    ensures l.order != [] && l.order[0] < |keys| && Victim(times) == l.order[0]
  {
    VictimIsFirst(times, l.order);
  }

  lemma NoUses<K>(l: Lru<K>)
    ensures AfterAll(l, []) == l
  {
  }

  lemma OneUse<K>(l: Lru<K>, u: Use<K>)
    ensures AfterAll(l, [u]) == After(l, u)
  {
    assert [u][1..] == [];
  }
}
