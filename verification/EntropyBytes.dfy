/** Entropy-coded segments as bytes: padding, byte stuffing (section F.1.2.3 of ITU-T T.81) and
    the copy loop of the AX206 compressor that drops the stuffed zeros again. */
module EntropyBytes {
  import opened Bytes
  import opened Bits

  /** Number of bits that fill `n` bits up to whole bytes. */
  function PadLength(n: nat): (p: nat)
    ensures p < 8 && (n + p) % 8 == 0
  {
    (8 - n % 8) % 8
  }

  /** The last byte of a segment is filled up with 1 bits. */
  function Padded(bits: seq<bit>): (p: seq<bit>)
    ensures |p| % 8 == 0 && bits <= p && |p| < |bits| + 8
  {
    bits + seq(PadLength(|bits|), _ => 1)
  }

  function Pack(bits: seq<bit>): (b: bytes)
    ensures 8 * |b| == |Padded(bits)|
  {
    var p := Padded(bits);
    seq(|p| / 8, k requires 0 <= k < |p| / 8 => ByteAt(p, k))
  }

  function ByteAt(p: seq<bit>, k: nat): byte
    requires 8 * k + 8 <= |p|
  {
    Pow2Small();
    ValueBound(p[8 * k..8 * k + 8]);
    Value(p[8 * k..8 * k + 8])
  }

  /** The bits of the packed bytes are the padded bits. */
  lemma BitsOfPack(bits: seq<bit>)
    ensures BitsOf(Pack(bits)) == Padded(bits)
  {
    hide Value, ToBits, PadLength;
    var p := Padded(bits);
    forall k | 0 <= k < |Pack(bits)| ensures ToBits(Pack(bits)[k], 8) == p[8 * k..8 * k + 8] {
      ToBitsOfValue(p[8 * k..8 * k + 8]);
    }
    BytewiseBits(Pack(bits), p);
  }

  lemma {:induction false} BytewiseBits(data: bytes, p: seq<bit>)
    requires |p| == 8 * |data| && forall k :: 0 <= k < |data| ==> ToBits(data[k], 8) == p[8 * k..8 * k + 8]
    ensures BitsOf(data) == p
  {
    hide ToBits;
    if data != [] {
      var n := |data| - 1;
      var front := p[..8 * n];
      forall k | 0 <= k < n ensures ToBits(data[..n][k], 8) == front[8 * k..8 * k + 8] {
        assert data[..n][k] == data[k];
        assert front[8 * k..8 * k + 8] == p[8 * k..8 * k + 8];
      }
      BytewiseBits(data[..n], front);
      assert p == front + p[8 * n..8 * n + 8];
    }
  }

  /** A zero byte goes behind every 0xff. */
  function Stuff(b: bytes): bytes {
    if b == [] then [] else Stuff(b[..|b| - 1]) + if b[|b| - 1] == 0xff then [0xff, 0x00] else [b[|b| - 1]]
  }

  predicate Skipped(src: bytes, i: nat)
    requires i < |src|
  {
    i > 0 && src[i - 1] == 0xff && src[i] == 0x00
  }

  /** What the copy loop keeps of the first `i` bytes. */
  function Kept(src: bytes, i: nat): bytes
    requires i <= |src|
  {
    if i == 0 then [] else Kept(src, i - 1) + if Skipped(src, i - 1) then [] else [src[i - 1]]
  }

  /** copy_huffman */
  method CopyHuffman(dst: array<byte>, outc: nat, src: bytes) returns (copied: nat)
    requires outc + |src| <= dst.Length
    modifies dst
    ensures copied == |Kept(src, |src|)| <= |src|
    ensures dst[..outc] == old(dst[..outc])
    ensures dst[outc..outc + copied] == Kept(src, |src|)
    ensures dst[outc + copied..] == old(dst[outc + copied..])
  {
    copied := 0;
    var i := 0;
    while i < |src|
      invariant 0 <= i <= |src| && copied == |Kept(src, i)| <= i
      invariant dst[..outc] == old(dst[..outc])
      invariant dst[outc..outc + copied] == Kept(src, i)
      invariant dst[outc + copied..] == old(dst[outc + copied..])
    {
      if !(i > 0 && src[i - 1] == 0xff && src[i] == 0x00) {
        ghost var before := dst[..];
        dst[outc + copied] := src[i];
        assert dst[..outc] == before[..outc];
        assert dst[outc..outc + copied] == before[outc..outc + copied];
        assert dst[outc + copied + 1..] == before[outc + copied..][1..];
        copied := copied + 1;
      }
      i := i + 1;
    }
  }

  /** copy_huffman undoes byte stuffing, whatever the bytes. */
  lemma {:induction false} CopyUndoesStuffing(b: bytes)
    ensures Kept(Stuff(b), |Stuff(b)|) == b
  {
    hide Kept, Skipped;
    if b == [] {
      KeptNone(Stuff(b));
    } else {
      var n := |b| - 1;
      var front := Stuff(b[..n]);
      CopyUndoesStuffing(b[..n]);
      NeverEndsInFF(b[..n]);
      if b[n] == 0xff {
        KeepFF(front);
      } else {
        KeepByte(front, b[n]);
      }
    }
  }

  lemma KeptNone(src: bytes)
    ensures Kept(src, 0) == []
  {
  }

  lemma KeepByte(front: bytes, x: byte)
    requires front != [] ==> front[|front| - 1] != 0xff
    ensures Kept(front + [x], |front + [x]|) == Kept(front, |front|) + [x]
  {
    KeptOfPrefix(front, [x], |front|);
    assert !Skipped(front + [x], |front|);
  }

  lemma KeepFF(front: bytes)
    requires front != [] ==> front[|front| - 1] != 0xff
    ensures Kept(front + [0xff, 0x00], |front + [0xff, 0x00]|) == Kept(front, |front|) + [0xff]
  {
    var s := front + [0xff, 0x00];
    KeepByte(front, 0xff);
    assert s == front + [0xff] + [0x00];
    KeptOfPrefix(front + [0xff], [0x00], |front| + 1);
    assert Skipped(s, |front| + 1);
  }

  lemma NeverEndsInFF(b: bytes)
    ensures Stuff(b) != [] ==> Stuff(b)[|Stuff(b)| - 1] != 0xff
  {
  }

  lemma {:induction false} KeptOfPrefix(a: bytes, b: bytes, i: nat)
    requires i <= |a|
    ensures Kept(a + b, i) == Kept(a, i)
  {
    if i != 0 {
      KeptOfPrefix(a, b, i - 1);
      assert Skipped(a + b, i - 1) == Skipped(a, i - 1);
    }
  }
}
