/** The free maps: BMAP_SET, BMAP_ISSET and fsi_bmap_find_free of snfs_server/fs.c. */
module Bitmap {
  import opened Bytes

  /** 0x1 << k */
  function Weight(k: nat): (w: nat)
    ensures w > 0
  {
    if k == 0 then 1 else 2 * Weight(k - 1)
  }

  /** (b >> k) & 1 */
  predicate BitOf(b: nat, k: nat) {
    if k == 0 then b % 2 == 1 else BitOf(b / 2, k - 1)
  }

  /** b | (0x1 << k) */
  function OrBit(b: byte, k: nat): byte
    requires k < 8
  {
    if BitOf(b, k) then b else OrFits(b, k, 8); b + Weight(k)
  }

  lemma {:induction false} OrFits(b: nat, k: nat, n: nat)
    requires k < n && b < Weight(n) && !BitOf(b, k)
    ensures b + Weight(k) < Weight(n)
  {
    assert Weight(n) == 2 * Weight(n - 1);
    if k > 0 {
      var half := b / 2;
      assert b <= 2 * half + 1;
      OrFits(half, k - 1, n - 1);
    }
  }

  /** Adding the weight of a clear bit sets that bit and no other. */
  lemma {:induction false} AddingWeightSetsOneBit(b: nat, k: nat, j: nat)
    requires !BitOf(b, k)
    ensures BitOf(b + Weight(k), j) <==> j == k || BitOf(b, j)
  {
    if k > 0 {
      assert (b + Weight(k)) / 2 == b / 2 + Weight(k - 1);
      if j > 0 {
        AddingWeightSetsOneBit(b / 2, k - 1, j - 1);
      }
    } else {
      assert (b + 1) / 2 == b / 2;
    }
  }

  predicate IsSet(m: seq<byte>, i: nat)
    requires i / 8 < |m|
  {
    BitOf(m[i / 8], i % 8)
  }

  function Set(m: seq<byte>, i: nat): (r: seq<byte>)
    requires i / 8 < |m|
    ensures |r| == |m|
  {
    m[i / 8 := OrBit(m[i / 8], i % 8)]
  }

  /** The scan of fsi_bmap_find_free, from position i. */
  function FindFree(m: seq<byte>, i: nat, size: nat): (r: Option<nat>)
    requires size <= 8 * |m|
    ensures r.Some? ==> i <= r.value < size && !IsSet(m, r.value)
    ensures forall j :: i <= j < (if r.Some? then r.value else size) ==> IsSet(m, j)
    decreases size - i
  {
    if i >= size then None
    else if !IsSet(m, i) then Some(i)
    else FindFree(m, i + 1, size)
  }

  lemma SetChangesOneBit(m: seq<byte>, i: nat, j: nat)
    requires i / 8 < |m| && j / 8 < |m|
    ensures IsSet(Set(m, i), j) <==> j == i || IsSet(m, j)
  {
    if i / 8 == j / 8 {
      if !BitOf(m[i / 8], i % 8) {
        AddingWeightSetsOneBit(m[i / 8], i % 8, j % 8);
      }
    }
  }

  /** Exactly the numbers below n are marked. */
  ghost predicate Prefix(m: seq<byte>, n: nat) {
    forall i: nat :: i / 8 < |m| ==> (IsSet(m, i) <==> i < n)
  }

  lemma FindFreeIsNext(m: seq<byte>, n: nat, size: nat)
    requires size <= 8 * |m| && Prefix(m, n)
    ensures FindFree(m, 0, size) == if n < size then Some(n) else None
  {
    var r := FindFree(m, 0, size);
    if n < size {
      assert !IsSet(m, n);
    }
  }

  lemma SetExtendsPrefix(m: seq<byte>, n: nat)
    requires n / 8 < |m| && Prefix(m, n)
    ensures Prefix(Set(m, n), n + 1)
  {
    forall j: nat | j / 8 < |m|
      ensures IsSet(Set(m, n), j) <==> j < n + 1
    {
      SetChangesOneBit(m, n, j);
    }
  }
}
