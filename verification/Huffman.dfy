/** Canonical Huffman codes as Annex C of ITU-T T.81 builds them, and what it means
    that a bit string starts with one. */
module Huffman {
  import opened Bytes
  import opened Bits

  /** HUFFSIZE: code lengths in increasing order. */
  predicate IsSizes(s: seq<nat>) {
    && (forall i :: 0 <= i < |s| ==> 1 <= s[i] <= 16)
    && (forall i, j :: 0 <= i < j < |s| ==> s[i] <= s[j])
  }

  /** HUFFCODE, figure C.2. */
  function Code(s: seq<nat>, k: nat): nat
    requires IsSizes(s) && k < |s|
  {
    if k == 0 then 0 else (Code(s, k - 1) + 1) * Pow2(s[k] - s[k - 1])
  }

  /** The code word of entry `k`, as bits. */
  function Word(s: seq<nat>, k: nat): (w: seq<bit>)
    requires IsSizes(s) && k < |s|
    ensures |w| == s[k]
  {
    ToBits(Code(s, k), s[k])
  }

  /** Among the 2^16 strings of 16 bits, those that start with entry `k` are numbered from here. */
  function Left(s: seq<nat>, k: nat): nat
    requires IsSizes(s) && k <= |s|
  {
    if k == 0 then 0 else Left(s, k - 1) + Pow2(16 - s[k - 1])
  }

  /** Kraft's inequality: the lengths leave room for all code words. */
  predicate Kraft(s: seq<nat>)
    requires IsSizes(s)
  {
    Left(s, |s|) <= 0x10000
  }

  predicate Owns(s: seq<nat>, k: nat, w: nat)
    requires IsSizes(s) && k < |s|
  {
    Left(s, k) <= w < Left(s, k) + Pow2(16 - s[k])
  }

  predicate StartsWith(u: seq<bit>, s: seq<nat>, k: nat)
    requires IsSizes(s) && k < |s|
  {
    s[k] <= |u| && u[..s[k]] == Word(s, k)
  }

  /** The next 16 bits as a number, padded with zeros at the end of the string. */
  function Window(u: seq<bit>): (w: nat) {
    if |u| >= 16 then Value(u[..16]) else Value(u) * Pow2(16 - |u|)
  }

  lemma {:induction false} CodeIsLeft(s: seq<nat>, k: nat)
    requires IsSizes(s) && k < |s|
    ensures Code(s, k) * Pow2(16 - s[k]) == Left(s, k)
  {
    if k > 0 {
      CodeIsLeft(s, k - 1);
      Pow2Add(s[k] - s[k - 1], 16 - s[k]);
      MulRegroup(Code(s, k - 1), Pow2(s[k] - s[k - 1]), Pow2(16 - s[k]));
    }
  }

  lemma MulRegroup(c: int, a: int, b: int)
    ensures (c + 1) * a * b == c * (a * b) + a * b
  {
  }

  lemma {:induction false} LeftMonotone(s: seq<nat>, i: nat, j: nat)
    requires IsSizes(s) && i < j <= |s|
    ensures Left(s, i) + Pow2(16 - s[i]) <= Left(s, j)
  {
    if i < j - 1 {
      LeftMonotone(s, i, j - 1);
    }
  }

  lemma CodeBound(s: seq<nat>, k: nat)
    requires IsSizes(s) && k < |s| && Kraft(s)
    ensures Code(s, k) < Pow2(s[k])
  {
    hide Pow2, Code, Left;
    CodeIsLeft(s, k);
    LeftMonotone(s, k, |s|);
    Pow2Small();
    Pow2Add(s[k], 16 - s[k]);
    if Code(s, k) >= Pow2(s[k]) {
      MulMonotone(Pow2(s[k]), Code(s, k), Pow2(16 - s[k]));
    }
  }

  lemma MulMonotone(a: int, b: int, p: int)
    requires a <= b && p >= 0
    ensures a * p <= b * p
  {
  }

  /** Code words longer than the first one are not all zeros. */
  lemma CodePositive(s: seq<nat>, k: nat)
    requires IsSizes(s) && 0 < k < |s|
    ensures Code(s, k) > 0
  {
    MulAtLeast(Code(s, k - 1) + 1, Pow2(s[k] - s[k - 1]));
  }

  lemma WindowTop(u: seq<bit>, n: nat)
    requires n <= 16 && n <= |u|
    ensures Value(u[..n]) == Window(u) / Pow2(16 - n)
  {
    hide Pow2, Value;
    if |u| >= 16 {
      Pow2Small();
      ValueTop(u[..16], n, 0);
      assert u[..16][..n] == u[..n];
    } else {
      ValueTop(u, n, 16 - |u|);
    }
  }

  lemma ValueTop(v: seq<bit>, n: nat, shift: nat)
    requires n <= |v|
    ensures Value(v[..n]) == Value(v) * Pow2(shift) / Pow2(|v| + shift - n)
  {
    hide Pow2, Value;
    var a, b := v[..n], v[n..];
    assert v == a + b;
    ValueConcat(a, b);
    ValueBound(b);
    Pow2Add(|b|, shift);
    ScaledQuotient(Value(a), Pow2(|b|), Value(b), Pow2(shift));
  }

  lemma ScaledQuotient(a: nat, p: nat, b: nat, q: nat)
    requires b < p && q >= 1
    ensures p * q > 0 && (a * p + b) * q / (p * q) == a
  {
    MulMonotone(b + 1, p, q);
    assert (b + 1) * q == b * q + q;
    assert (a * p + b) * q == a * (p * q) + b * q;
    Divide(a, p * q, b * q);
  }

  /** A string long enough starts with word `k` exactly if its window is one of those that `k` owns. */
  lemma StartsWithIffOwns(u: seq<bit>, s: seq<nat>, k: nat)
    requires IsSizes(s) && k < |s| && Kraft(s) && s[k] <= |u|
    ensures StartsWith(u, s, k) <==> Owns(s, k, Window(u))
    ensures StartsWith(u, s, k) <==> Value(u[..s[k]]) == Code(s, k)
  {
    CodeBound(s, k);
    CodeIsLeft(s, k);
    ValueOfToBits(Code(s, k), s[k]);
    ToBitsOfValue(u[..s[k]]);
    WindowTop(u, s[k]);
    QuotientIff(Window(u), Pow2(16 - s[k]), Code(s, k));
  }

  lemma QuotientIff(w: nat, d: nat, q: nat)
    requires d > 0
    ensures w / d == q <==> q * d <= w < q * d + d
  {
    var e := w / d;
    assert w == e * d + w % d;
    if q * d <= w < q * d + d {
      Divide(q, d, w - q * d);
    }
  }

  /** No code word is the beginning of another: at most one entry matches. */
  lemma PrefixFree(u: seq<bit>, s: seq<nat>, i: nat, j: nat)
    requires IsSizes(s) && i < |s| && j < |s| && Kraft(s)
    requires StartsWith(u, s, i) && StartsWith(u, s, j)
    ensures i == j
  {
    StartsWithIffOwns(u, s, i);
    StartsWithIffOwns(u, s, j);
    OwnsUnique(s, i, j, Window(u));
  }

  lemma OwnsUnique(s: seq<nat>, i: nat, j: nat, w: nat)
    requires IsSizes(s) && i < |s| && j < |s| && Owns(s, i, w) && Owns(s, j, w)
    ensures i == j
  {
    if i < j {
      LeftMonotone(s, i, j);
    } else if j < i {
      LeftMonotone(s, j, i);
    }
  }

  /** Words of at most 9 bits own whole groups of 128 windows. */
  lemma {:induction false} LeftDivisible(s: seq<nat>, k: nat)
    requires IsSizes(s) && k <= |s| && forall i :: 0 <= i < k ==> s[i] <= 9
    ensures Left(s, k) % 128 == 0
  {
    if k > 0 {
      LeftDivisible(s, k - 1);
      ShortWidth(s[k - 1]);
    }
  }

  lemma ShortWidth(n: nat)
    requires 1 <= n <= 9
    ensures Pow2(16 - n) == 128 * Pow2(9 - n)
  {
    Pow2Add(7, 9 - n);
    Pow2Small();
  }

  lemma ShortOwns(s: seq<nat>, k: nat, w: nat)
    requires IsSizes(s) && k < |s| && s[k] <= 9
    ensures Owns(s, k, w) <==> Owns(s, k, w / 128 * 128)
  {
    LeftDivisible(s, k);
    ShortWidth(s[k]);
  }
}
