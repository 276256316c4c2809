/** Bytes, byte strings and the little arithmetic the drivers share. */
module Bytes {

  type byte = x: int | 0 <= x < 256

  type bytes = seq<byte>

  /** Bitwise and of the low `n` bits. */
  function AndBits(a: nat, b: nat, n: nat): nat {
    if n == 0 then 0
    else (a % 2) * (b % 2) + 2 * AndBits(a / 2, b / 2, n - 1)
  }

  /** What programming a NOR flash cell does: a 1 may become a 0, never the other way round. */
  function And8(a: byte, b: byte): (r: byte)
    ensures a == 0xff ==> r == b
  {
    var r := AndBits(a, b, 8);
    AndBitsBounded(a, b, 8);
    if a == 0xff then AndAllOnes(b, 8); r else r
  }

  function Pow2(n: nat): (p: nat)
    ensures p >= 1
  {
    if n == 0 then 1 else 2 * Pow2(n - 1)
  }

  lemma AndBitsBounded(a: nat, b: nat, n: nat)
    ensures AndBits(a, b, n) < Pow2(n)
    ensures n == 8 ==> Pow2(n) == 256
  {
    if n == 0 {
    } else {
      AndBitsBounded(a / 2, b / 2, n - 1);
      assert (a % 2) * (b % 2) <= 1;
    }
    if n == 8 {
      assert Pow2(4) == 16;
      assert Pow2(8) == 2 * Pow2(7) == 4 * Pow2(6) == 8 * Pow2(5) == 16 * Pow2(4);
    }
  }

  lemma {:induction false} AndAllOnes(b: nat, n: nat)
    requires b < Pow2(n)
    ensures AndBits(Pow2(n) - 1, b, n) == b
  {
    if n != 0 {
      AndAllOnes(b / 2, n - 1);
      assert (Pow2(n) - 1) % 2 == 1 && (Pow2(n) - 1) / 2 == Pow2(n - 1) - 1;
    }
  }

  /** `s` with the bytes at `at` replaced by `data`. */
  function Splice(s: bytes, at: nat, data: bytes): (r: bytes)
    requires at + |data| <= |s|
    ensures |r| == |s|
    ensures forall k :: 0 <= k < |s| ==> r[k] == if at <= k < at + |data| then data[k - at] else s[k]
  {
    s[..at] + data + s[at + |data|..]
  }

  lemma SpliceReads(s: bytes, at: nat, data: bytes, lo: nat, hi: nat)
    requires at + |data| <= |s| && lo <= hi <= |s|
    ensures hi <= at || at + |data| <= lo ==> Splice(s, at, data)[lo..hi] == s[lo..hi]
    ensures lo == at && hi == at + |data| ==> Splice(s, at, data)[lo..hi] == data
  {
  }

  /** Writing `a` and then `b` right behind it is one write. */
  lemma SpliceAppend(s: bytes, at: nat, a: bytes, b: bytes)
    requires at + |a| + |b| <= |s|
    ensures Splice(Splice(s, at, a), at + |a|, b) == Splice(s, at, a + b)
  {
  }

  function Repeat(b: byte, n: nat): (r: bytes)
    ensures |r| == n && forall k :: 0 <= k < n ==> r[k] == b
  {
    seq(n, _ => b)
  }

  function Sum(s: bytes): nat {
    if s == [] then 0 else Sum(s[..|s| - 1]) + s[|s| - 1]
  }

  function Le16(s: bytes): (v: nat)
    requires |s| == 2
    ensures v < 0x10000
  {
    (s[0] as int) + 0x100 * (s[1] as int)
  }

  function Be16(s: bytes): (v: nat)
    requires |s| == 2
    ensures v < 0x10000
  {
    0x100 * (s[0] as int) + (s[1] as int)
  }

  function ToLe16(v: nat): (r: bytes)
    ensures |r| == 2
  {
    [v % 0x100, v / 0x100 % 0x100]
  }

  function ToBe16(v: nat): (r: bytes)
    ensures |r| == 2
  {
    [v / 0x100 % 0x100, v % 0x100]
  }
}
