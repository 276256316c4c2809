/** Bit strings, most significant bit first, and the numbers they denote. */
module Bits {
  import opened Bytes

  type bit = x: int | 0 <= x < 2

  /** The low `n` bits of `v`. */
  function ToBits(v: nat, n: nat): (s: seq<bit>)
    ensures |s| == n
  {
    if n == 0 then [] else ToBits(v / 2, n - 1) + [v % 2]
  }

  function Value(s: seq<bit>): nat {
    if s == [] then 0 else 2 * Value(s[..|s| - 1]) + s[|s| - 1]
  }

  function BitsOf(data: bytes): (s: seq<bit>)
    ensures |s| == 8 * |data|
  {
    if data == [] then [] else BitsOf(data[..|data| - 1]) + ToBits(data[|data| - 1], 8)
  }

  lemma {:induction false} ValueBound(s: seq<bit>)
    ensures Value(s) < Pow2(|s|)
  {
    if s != [] {
      ValueBound(s[..|s| - 1]);
    }
  }

  lemma {:induction false} ValueOfToBits(v: nat, n: nat)
    requires v < Pow2(n)
    ensures Value(ToBits(v, n)) == v
  {
    if n != 0 {
      ValueOfToBits(v / 2, n - 1);
      assert ToBits(v, n)[..n - 1] == ToBits(v / 2, n - 1);
    }
  }

  lemma {:induction false} ToBitsOfValue(s: seq<bit>)
    ensures ToBits(Value(s), |s|) == s
  {
    if s != [] {
      ToBitsOfValue(s[..|s| - 1]);
    }
  }

  lemma {:induction false} Pow2Add(a: nat, b: nat)
    ensures Pow2(a + b) == Pow2(a) * Pow2(b)
  {
    if b != 0 {
      Pow2Add(a, b - 1);
      MulDouble(Pow2(a), Pow2(b - 1));
    }
  }

  lemma MulDouble(x: int, p: int)
    ensures 2 * (x * p) == x * (2 * p)
  {
  }

  lemma DoublePow2(n: nat)
    ensures Pow2(n + 1) == 2 * Pow2(n)
  {
  }

  lemma {:induction false} ValueConcat(a: seq<bit>, b: seq<bit>)
    ensures Value(a + b) == Value(a) * Pow2(|b|) + Value(b)
  {
    if b == [] {
      assert a + b == a;
    } else {
      var b' := b[..|b| - 1];
      ValueConcat(a, b');
      hide Pow2;
      assert Pow2(|b|) == 2 * Pow2(|b'|) by { DoublePow2(|b'|); }
      assert (a + b)[..|a + b| - 1] == a + b';
      MulDouble(Value(a), Pow2(|b'|));
      assert (a + b)[|a + b| - 1] == b[|b| - 1];
    }
  }

  lemma {:induction false} BitsOfConcat(a: bytes, b: bytes)
    ensures BitsOf(a + b) == BitsOf(a) + BitsOf(b)
  {
    if b == [] {
      assert a + b == a;
    } else {
      BitsOfConcat(a, b[..|b| - 1]);
      assert (a + b)[..|a + b| - 1] == a + b[..|b| - 1];
      assert BitsOf(a) + (BitsOf(b[..|b| - 1]) + ToBits(b[|b| - 1], 8)) == BitsOf(a) + BitsOf(b[..|b| - 1]) + ToBits(b[|b| - 1], 8);
    }
  }

  /** Bits of one byte of a string. */
  lemma {:induction false} ByteBits(data: bytes, k: nat)
    requires k < |data|
    ensures BitsOf(data)[8 * k..8 * k + 8] == ToBits(data[k], 8)
  {
    hide ToBits;
    var init, last := data[..|data| - 1], ToBits(data[|data| - 1], 8);
    assert BitsOf(data) == BitsOf(init) + last;
    if k < |init| {
      ByteBits(init, k);
      SliceOfPrefix(BitsOf(init), last, 8 * k, 8 * k + 8);
    } else {
      SliceOfPrefix(BitsOf(init), last, 8 * k, 8 * k + 8);
    }
  }

  lemma SliceOfPrefix(a: seq<bit>, b: seq<bit>, lo: nat, hi: nat)
    requires lo <= hi <= |a + b|
    ensures hi <= |a| ==> (a + b)[lo..hi] == a[lo..hi]
    ensures lo == |a| && hi == |a + b| ==> (a + b)[lo..hi] == b
  {
  }

  lemma Divide(q: nat, d: nat, r: nat)
    requires r < d
    ensures (q * d + r) / d == q && (q * d + r) % d == r
  {
    var x := q * d + r;
    var e := x / d;
    assert x == e * d + x % d;
    if e < q {
      MulAtLeast(q - e, d);
    } else if q < e {
      MulAtLeast(e - q, d);
    }
  }

  lemma MulAtLeast(k: nat, d: nat)
    requires k >= 1
    ensures k * d >= d
  {
    assert k * d == (k - 1) * d + d;
  }

  lemma Pow2Small()
    ensures Pow2(0) == 1 && Pow2(1) == 2 && Pow2(2) == 4 && Pow2(3) == 8 && Pow2(4) == 16
    ensures Pow2(7) == 128 && Pow2(8) == 256 && Pow2(9) == 512 && Pow2(15) == 32768 && Pow2(16) == 65536
  {
    assert Pow2(4) == 16;
    assert Pow2(8) == 256;
    assert Pow2(12) == 4096;
  }
}
