/** Bytes, C strings and little-endian integers: the representation every on-disk structure is built from. */
module Bytes {

  type byte = x: int | 0 <= x < 256

  const U32: nat := 0x1_0000_0000

  datatype Option<+T> = None | Some(value: T)

  function Min(a: int, b: int): int {
    if a <= b then a else b
  }

  function Max(a: int, b: int): int {
    if a >= b then a else b
  }

  function Zeros(n: nat): (z: seq<byte>)
    ensures |z| == n && forall i :: 0 <= i < n ==> z[i] == 0
  {
    seq(n, _ => 0)
  }

  /** Little-endian image of a 32-bit unsigned integer; larger numbers wrap as in C. */
  function Encode32(v: nat): (e: seq<byte>)
    ensures |e| == 4
  {
    [v % 256, v / 256 % 256, v / 65536 % 256, v / 16777216 % 256]
  }

  function Decode32(e: seq<byte>): nat
    requires |e| == 4
  {
    e[0] as int + 256 * (e[1] as int) + 65536 * (e[2] as int) + 16777216 * (e[3] as int)
  }

  lemma Decode32Encode32(v: nat)
    requires v < U32
    ensures Decode32(Encode32(v)) == v
  {
    var b1 := v / 256;
    var b2 := b1 / 256;
    var b3 := b2 / 256;
    BytesOf(v, b1, b2, b3);
  }

  /** Dividing by 256 again and again. */
  lemma BytesOf(v: nat, b1: nat, b2: nat, b3: nat)
    requires v < U32 && b1 == v / 256 && b2 == b1 / 256 && b3 == b2 / 256
    ensures v / 65536 == b2 && v / 16777216 == b3 && b3 < 256
    ensures v == v % 256 + 256 * (b1 % 256) + 65536 * (b2 % 256) + 16777216 * b3
  {
  }

  /** Little-endian image of an inode number in a directory entry (16 bits). */
  function Encode16(v: nat): (e: seq<byte>)
    ensures |e| == 2
  {
    [v % 256, v / 256 % 256]
  }

  function Decode16(e: seq<byte>): nat
    requires |e| == 2
  {
    e[0] as int + 256 * (e[1] as int)
  }

  /** The C string held by a buffer: everything before the first NUL. */
  function CStr(b: seq<byte>): (s: seq<byte>)
    ensures |s| <= |b|
  {
    if |b| == 0 || b[0] == 0 then [] else [b[0]] + CStr(b[1..])
  }

  /** A C string contains no NUL. */
  predicate IsCString(s: seq<byte>) {
    forall i :: 0 <= i < |s| ==> s[i] != 0
  }

  /** strcpy followed by a read gives the string back, whatever bytes stay behind the terminator. */
  lemma {:induction false} CStrOfCopy(s: seq<byte>, rest: seq<byte>)
    requires IsCString(s)
    ensures CStr(s + [0] + rest) == s
  {
    if s == [] {
    } else {
      CStrOfCopy(s[1..], rest);
      assert (s + [0] + rest)[1..] == s[1..] + [0] + rest;
    }
  }
}
