/**
 The two scans every cache of snfs_server/fs.c makes over its fixed table of slots:
 looking a key up, and choosing the slot with the oldest access time.
 */
module Slots {

  /** First position from i on that holds the key; the table's length when there is none. */
  function Find<T(==)>(keys: seq<T>, key: T, i: nat): (k: nat)
    requires i <= |keys|
    ensures i <= k <= |keys|
    ensures k < |keys| ==> keys[k] == key
    ensures forall j :: i <= j < k ==> keys[j] != key
    decreases |keys| - i
  {
    if i == |keys| || keys[i] == key then i else Find(keys, key, i + 1)
  }

  /** Slot v is older than every slot before it and at least as old as every slot after it, among the first n. */
  predicate Oldest(times: seq<int>, v: nat, n: nat) {
    v < n <= |times| && forall j :: 0 <= j < n ==> times[v] <= times[j] && (j < v ==> times[v] < times[j])
  }

  /** The LRU scan from slot i with the oldest slot so far; ties go to the lower slot. */
  function Scan(times: seq<int>, i: nat, best: nat): (v: nat)
    requires Oldest(times, best, i)
    ensures Oldest(times, v, |times|)
    decreases |times| - i
  {
    if i == |times| then best
    else if times[i] < times[best] then Scan(times, i + 1, i)
    else Scan(times, i + 1, best)
  }

  /** The slot an insertion replaces. */
  function Victim(times: seq<int>): (v: nat)
    requires |times| > 0
    ensures Oldest(times, v, |times|)
  {
    Scan(times, 1, 0)
  }

  /** A key held by at most one slot is found in that slot. */
  lemma FindUnique<T>(keys: seq<T>, k: nat)
    requires k < |keys|
    requires forall j :: 0 <= j < |keys| && j != k ==> keys[j] != keys[k]
    ensures Find(keys, keys[k], 0) == k
  {
  }
}
