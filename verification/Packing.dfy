/**
Fixed-width integers as bytes, in either byte order, the way `struct` packs them.
*/
module Packing {
  import opened RpcTags

  datatype Endian = Little | Big

  ghost function Pow256(n: nat): (p: nat)
    ensures p >= 1
  {
    if n == 0 then 1 else 256 * Pow256(n - 1)
  }

  /** The `n` low bytes of a natural number. */
  function PackNat(e: Endian, n: nat, x: nat): (s: seq<byte>)
    ensures |s| == n
  {
    if n == 0 then []
    else if e == Little then [x % 256] + PackNat(e, n - 1, x / 256)
    else PackNat(e, n - 1, x / 256) + [x % 256]
  }

  function UnpackNat(e: Endian, s: seq<byte>): nat {
    if s == [] then 0
    else if e == Little then s[0] + 256 * UnpackNat(e, s[1..])
    else s[|s| - 1] + 256 * UnpackNat(e, s[..|s| - 1])
  }

  lemma {:induction false} UnpackPackNat(e: Endian, n: nat, x: nat)
    requires x < Pow256(n)
    ensures UnpackNat(e, PackNat(e, n, x)) == x
  {
    if n > 0 {
      UnpackPackNat(e, n - 1, x / 256);
      var s := PackNat(e, n, x);
      if e == Little {
        assert s[1..] == PackNat(e, n - 1, x / 256);
      } else {
        assert s[..|s| - 1] == PackNat(e, n - 1, x / 256);
      }
    }
  }

  /** The byte order: the least significant byte comes first in little-endian words, and last in
      big-endian ones. */
  lemma {:induction false} PackedByte(e: Endian, n: nat, x: nat, k: nat)
    requires k < n
    ensures PackNat(e, n, x)[k] == x / Pow256(if e == Little then k else n - 1 - k) % 256
  {
    if e == Little && k > 0 {
      PackedByte(e, n - 1, x / 256, k - 1);
      DividedTwice(x, Pow256(k - 1));
    } else if e == Big && k < n - 1 {
      PackedByte(e, n - 1, x / 256, k);
      DividedTwice(x, Pow256(n - 2 - k));
    }
  }

  lemma DividedTwice(x: nat, p: nat)
    requires p > 0
    ensures x / 256 / p == x / (256 * p)
  {
    var q, r := x / 256 / p, x / 256 % p;
    assert x / 256 == q * p + r;
    assert x == 256 * p * q + (256 * r + x % 256);
    Quotient(x, 256 * p, q, 256 * r + x % 256);
  }

  lemma Quotient(x: nat, d: nat, q: nat, r: nat)
    requires r < d && x == d * q + r
    ensures x / d == q
  {
    var f := x / d - q;
    assert f * d == r - x % d;
  }

  lemma {:induction false} UnpackBound(e: Endian, s: seq<byte>)
    ensures UnpackNat(e, s) < Pow256(|s|)
  {
    if s != [] {
      if e == Little {
        UnpackBound(e, s[1..]);
      } else {
        UnpackBound(e, s[..|s| - 1]);
      }
    }
  }

  // ----- signed -----

  const TWO_32 := 0x1_0000_0000
  const TWO_64 := 0x1_0000_0000_0000_0000

  predicate IsInt32(i: int) {
    -0x8000_0000 <= i <= 0x7fff_ffff
  }

  predicate IsInt64(i: int) {
    -0x8000_0000_0000_0000 <= i <= 0x7fff_ffff_ffff_ffff
  }

  function PackInt32(e: Endian, i: int): (s: seq<byte>)
    ensures |s| == 4
  {
    PackNat(e, 4, i % TWO_32)
  }

  function PackInt64(e: Endian, i: int): (s: seq<byte>)
    ensures |s| == 8
  {
    PackNat(e, 8, i % TWO_64)
  }

  function UnpackInt32(e: Endian, s: seq<byte>): int {
    var u := UnpackNat(e, s);
    if u >= 0x8000_0000 then u - TWO_32 else u
  }

  function UnpackInt64(e: Endian, s: seq<byte>): int {
    var u := UnpackNat(e, s);
    if u >= 0x8000_0000_0000_0000 then u - TWO_64 else u
  }

  type Word64 = n: nat | n < TWO_64

  /** Eight bytes as an unsigned word. */
  function UnpackWord64(e: Endian, s: seq<byte>): Word64
    requires |s| == 8
  {
    Powers();
    UnpackBound(e, s);
    UnpackNat(e, s)
  }

  lemma Powers()
    ensures Pow256(4) == TWO_32 && Pow256(8) == TWO_64
  {
    assert Pow256(2) == 0x1_0000;
    assert Pow256(4) == 0x1_0000 * Pow256(2);
    assert Pow256(6) == 0x1_0000 * Pow256(4);
    assert Pow256(8) == 0x1_0000 * Pow256(6);
  }

  lemma UnpackPackInt32(e: Endian, i: int)
    requires IsInt32(i)
    ensures UnpackInt32(e, PackInt32(e, i)) == i
  {
    Powers();
    UnpackPackNat(e, 4, i % TWO_32);
  }

  lemma UnpackPackInt64(e: Endian, i: int)
    requires IsInt64(i)
    ensures UnpackInt64(e, PackInt64(e, i)) == i
  {
    Powers();
    UnpackPackNat(e, 8, i % TWO_64);
  }
}
