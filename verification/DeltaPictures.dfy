/** Whole pictures in the AX203 delta format: blocks of 4x4 pixels, 12 bytes each, row by row.
    A block holds the U and V values of its four 2x2 squares and the 16 Y values, four at a time. */
module DeltaPictures {
  import opened Bytes
  import opened DeltaCodec

  /** A picture as integer planes; the chroma planes have half the width and height. */
  class Planes {
    const blocksWide: nat
    const blocksHigh: nat
    const y: array2<int>
    const u: array2<int>
    const v: array2<int>

    constructor (blocksWide: nat, blocksHigh: nat)
      ensures Valid() && this.blocksWide == blocksWide && this.blocksHigh == blocksHigh
      ensures fresh(y) && fresh(u) && fresh(v)
    {
      this.blocksWide, this.blocksHigh := blocksWide, blocksHigh;
      y := new int[4 * blocksHigh, 4 * blocksWide]((_, _) => 0);
      u := new int[2 * blocksHigh, 2 * blocksWide]((_, _) => 0);
      v := new int[2 * blocksHigh, 2 * blocksWide]((_, _) => 0);
    }

    ghost predicate Valid() {
      && y.Length0 == 4 * blocksHigh && y.Length1 == 4 * blocksWide
      && u.Length0 == v.Length0 == 2 * blocksHigh && u.Length1 == v.Length1 == 2 * blocksWide
      && y != u && y != v && u != v
    }

    /** Every value fits the legal range of its plane. */
    ghost predicate AllLegal()
      reads y, u, v
    {
      && (forall i, j :: 0 <= i < y.Length0 && 0 <= j < y.Length1 ==> Legal(LUMA, y[i, j]))
      && (forall i, j :: 0 <= i < u.Length0 && 0 <= j < u.Length1 ==> Legal(CHROMA, u[i, j]))
      && (forall i, j :: 0 <= i < v.Length0 && 0 <= j < v.Length1 ==> Legal(CHROMA, v[i, j]))
    }
  }

  /** The four values of a 2x2 square. */
  function Quad(a: array2<int>, i: nat, j: nat): (q: seq<int>)
    requires i + 1 < a.Length0 && j + 1 < a.Length1
    reads a
    ensures |q| == 4
  {
    [a[i, j], a[i, j + 1], a[i + 1, j], a[i + 1, j + 1]]
  }

  /** Block in row `r` and column `c` of blocks. */
  predicate HasBlock(p: Planes, r: nat, c: nat) {
    r < p.blocksHigh && c < p.blocksWide
  }

  function BlockBytes(p: Planes, r: nat, c: nat): (b: bytes)
    requires p.Valid() && HasBlock(p, r, c)
    reads p.y, p.u, p.v
    ensures |b| == 12
  {
    Encoded(CHROMA, Quad(p.u, 2 * r, 2 * c)) + Encoded(CHROMA, Quad(p.v, 2 * r, 2 * c)) +
    Encoded(LUMA, Quad(p.y, 4 * r, 4 * c)) + Encoded(LUMA, Quad(p.y, 4 * r, 4 * c + 2)) +
    Encoded(LUMA, Quad(p.y, 4 * r + 2, 4 * c)) + Encoded(LUMA, Quad(p.y, 4 * r + 2, 4 * c + 2))
  }

  /** All values of a block, square by square. */
  function BlockOf(p: Planes, r: nat, c: nat): seq<int>
    requires p.Valid() && HasBlock(p, r, c)
    reads p.y, p.u, p.v
  {
    Quad(p.u, 2 * r, 2 * c) + Quad(p.v, 2 * r, 2 * c) + Quad(p.y, 4 * r, 4 * c) + Quad(p.y, 4 * r, 4 * c + 2) +
    Quad(p.y, 4 * r + 2, 4 * c) + Quad(p.y, 4 * r + 2, 4 * c + 2)
  }

  function DecodedBlock(b: bytes): (d: seq<int>)
    requires |b| == 12
    ensures |d| == 24
  {
    Decoded(CHROMA, b[0..2]) + Decoded(CHROMA, b[2..4]) + Decoded(LUMA, b[4..6]) + Decoded(LUMA, b[6..8]) +
    Decoded(LUMA, b[8..10]) + Decoded(LUMA, b[10..12])
  }

  // ---- one block ----

  ghost predicate AllFit(p: Planes)
    reads p.y, p.u, p.v
  {
    && (forall i, j :: 0 <= i < p.y.Length0 && 0 <= j < p.y.Length1 ==> Fits(LUMA, p.y[i, j]))
    && (forall i, j :: 0 <= i < p.u.Length0 && 0 <= j < p.u.Length1 ==> Fits(CHROMA, p.u[i, j]))
    && (forall i, j :: 0 <= i < p.v.Length0 && 0 <= j < p.v.Length1 ==> Fits(CHROMA, p.v[i, j]))
  }

  /** ax203_encode_block_yuv_delta, behind the conversion to integer planes. */
  method EncodeBlock(p: Planes, r: nat, c: nat) returns (b: bytes)
    requires p.Valid() && HasBlock(p, r, c) && AllFit(p)
    ensures b == BlockBytes(p, r, c)
  {
    hide Encoded, Legal;
    b := EncodeQuad(CHROMA, p.u, 2 * r, 2 * c);
    var next := EncodeQuad(CHROMA, p.v, 2 * r, 2 * c);
    b := b + next;
    next := EncodeQuad(LUMA, p.y, 4 * r, 4 * c);
    b := b + next;
    next := EncodeQuad(LUMA, p.y, 4 * r, 4 * c + 2);
    b := b + next;
    next := EncodeQuad(LUMA, p.y, 4 * r + 2, 4 * c);
    b := b + next;
    next := EncodeQuad(LUMA, p.y, 4 * r + 2, 4 * c + 2);
    b := b + next;
  }

  method EncodeQuad(p: Plane, a: array2<int>, i: nat, j: nat) returns (b: bytes)
    requires Known(p) && i + 1 < a.Length0 && j + 1 < a.Length1
    requires forall k, l :: 0 <= k < a.Length0 && 0 <= l < a.Length1 ==> Fits(p, a[k, l])
    ensures b == Encoded(p, Quad(a, i, j))
  {
    b := Encode(p, [a[i, j], a[i, j + 1], a[i + 1, j], a[i + 1, j + 1]]);
  }

  /** ax203_decode_block_yuv_delta, before the conversion to RGB. */
  method DecodeBlock(p: Planes, r: nat, c: nat, b: bytes)
    requires p.Valid() && HasBlock(p, r, c) && |b| == 12
    modifies p.y, p.u, p.v
    ensures BlockOf(p, r, c) == DecodedBlock(b)
    ensures forall r', c' :: (r' != r || c' != c) && HasBlock(p, r', c') ==>
      BlockOf(p, r', c') == old(BlockOf(p, r', c'))
  {
    hide Decoded;
    DecodeQuad(CHROMA, b[0..2], p.u, 2 * r, 2 * c);
    DecodeQuad(CHROMA, b[2..4], p.v, 2 * r, 2 * c);
    DecodeLuma(b[4..12], p.y, 4 * r, 4 * c);
    LumaPart(b, 0);
    LumaPart(b, 2);
    LumaPart(b, 4);
    LumaPart(b, 6);
  }

  lemma LumaPart(b: bytes, i: nat)
    requires |b| == 12 && i + 2 <= 8
    ensures b[4..12][i..i + 2] == b[4 + i..6 + i]
  {
  }

  /** The 16 Y values are stored square by square. */
  method DecodeLuma(b: bytes, y: array2<int>, i: nat, j: nat)
    requires |b| == 8 && i + 3 < y.Length0 && j + 3 < y.Length1
    modifies y
    ensures Quad(y, i, j) == Decoded(LUMA, b[0..2]) && Quad(y, i, j + 2) == Decoded(LUMA, b[2..4])
    ensures Quad(y, i + 2, j) == Decoded(LUMA, b[4..6]) && Quad(y, i + 2, j + 2) == Decoded(LUMA, b[6..8])
    ensures forall k, l :: 0 <= k < y.Length0 && 0 <= l < y.Length1 && !(i <= k <= i + 3 && j <= l <= j + 3) ==>
      y[k, l] == old(y[k, l])
  {
    hide Decoded;
    DecodeQuad(LUMA, b[0..2], y, i, j);
    DecodeQuad(LUMA, b[2..4], y, i, j + 2);
    DecodeQuad(LUMA, b[4..6], y, i + 2, j);
    DecodeQuad(LUMA, b[6..8], y, i + 2, j + 2);
  }

  method DecodeQuad(p: Plane, b: bytes, a: array2<int>, i: nat, j: nat)
    requires Known(p) && |b| == 2 && i + 1 < a.Length0 && j + 1 < a.Length1
    modifies a
    ensures Quad(a, i, j) == Decoded(p, b)
    ensures forall k, l :: 0 <= k < a.Length0 && 0 <= l < a.Length1 && !(i <= k <= i + 1 && j <= l <= j + 1) ==>
      a[k, l] == old(a[k, l])
  {
    var d := Decode(p, b);
    a[i, j], a[i, j + 1], a[i + 1, j], a[i + 1, j + 1] := d[0], d[1], d[2], d[3];
  }

  // ---- whole pictures ----

  /** Byte offset of a block. */
  function At(p: Planes, r: nat, c: nat): nat {
    12 * (r * p.blocksWide + c)
  }

  predicate Earlier(r': nat, c': nat, r: nat, c: nat) {
    r' < r || (r' == r && c' < c)
  }

  lemma AtNext(p: Planes, r: nat, c: nat)
    ensures At(p, r, c + 1) == At(p, r, c) + 12 && At(p, r, p.blocksWide) == At(p, r + 1, 0) && At(p, 0, 0) == 0
  {
    Distribute(r, p.blocksWide);
  }

  lemma Distribute(r: nat, w: nat)
    ensures (r + 1) * w == r * w + w
  {
  }

  lemma {:induction false} RowsMonotone(r': nat, r: nat, w: nat)
    requires r' <= r
    ensures r' * w <= r * w
  {
    if r' < r {
      RowsMonotone(r', r - 1, w);
      Distribute(r - 1, w);
    }
  }

  lemma AtMonotone(p: Planes, r': nat, c': nat, r: nat, c: nat)
    requires Earlier(r', c', r, c) && c' < p.blocksWide
    ensures At(p, r', c') + 12 <= At(p, r, c)
  {
    if r' < r {
      RowsMonotone(r' + 1, r, p.blocksWide);
      Distribute(r', p.blocksWide);
    }
  }

  ghost predicate Slot(p: Planes, d: bytes, r: nat, c: nat, b: bytes) {
    At(p, r, c) + 12 <= |d| && d[At(p, r, c)..At(p, r, c) + 12] == b
  }

  /** The blocks before block (r, c) are stored. */
  ghost predicate StoredBefore(p: Planes, d: bytes, r: nat, c: nat)
    requires p.Valid()
    reads p.y, p.u, p.v
  {
    forall r', c' :: Earlier(r', c', r, c) && HasBlock(p, r', c') ==> Slot(p, d, r', c', BlockBytes(p, r', c'))
  }

  /** ax203_encode_yuv_delta */
  method EncodePicture(p: Planes, dest: array<byte>)
    requires p.Valid() && AllFit(p) && dest.Length >= At(p, p.blocksHigh, 0)
    modifies dest
    ensures StoredBefore(p, dest[..], p.blocksHigh, 0)
    ensures dest[At(p, p.blocksHigh, 0)..] == old(dest[At(p, p.blocksHigh, 0)..])
  {
    hide BlockBytes, AllFit, At;
    AtNext(p, 0, 0);
    ghost var end := At(p, p.blocksHigh, 0);
    var at, r := 0, 0;
    while r < p.blocksHigh
      invariant 0 <= r <= p.blocksHigh && at == At(p, r, 0) && StoredBefore(p, dest[..], r, 0)
      invariant dest[end..] == old(dest[end..])
    {
      var c := 0;
      while c < p.blocksWide
        invariant 0 <= c <= p.blocksWide && at == At(p, r, c) && StoredBefore(p, dest[..], r, c)
        invariant dest[end..] == old(dest[end..])
      {
        var b := EncodeBlock(p, r, c);
        AtMonotone(p, r, c, p.blocksHigh, 0);
        AtNext(p, r, c);
        ghost var before := dest[..];
        WriteAt(dest, at, b);
        StoredNext(p, before, dest[..], r, c);
        at, c := at + 12, c + 1;
      }
      AtNext(p, r, 0);
      RowDone(p, dest[..], r);
      r := r + 1;
    }
  }

  method WriteAt(dest: array<byte>, at: nat, b: bytes)
    requires at + |b| <= dest.Length
    modifies dest
    ensures dest[..] == Splice(old(dest[..]), at, b)
    ensures dest[at + |b|..] == old(dest[at + |b|..])
  {
    forall k | at <= k < at + |b| {
      dest[k] := b[k - at];
    }
  }

  lemma StoredNext(p: Planes, d: bytes, e: bytes, r: nat, c: nat)
    requires p.Valid() && HasBlock(p, r, c) && StoredBefore(p, d, r, c)
    requires At(p, r, c) + 12 <= |d| && e == Splice(d, At(p, r, c), BlockBytes(p, r, c))
    ensures StoredBefore(p, e, r, c + 1)
  {
    hide BlockBytes, At, Splice;
    forall r', c' | Earlier(r', c', r, c + 1) && HasBlock(p, r', c')
      ensures Slot(p, e, r', c', BlockBytes(p, r', c'))
    {
      SpliceReads(d, At(p, r, c), BlockBytes(p, r, c), At(p, r', c'), At(p, r', c') + 12);
      if Earlier(r', c', r, c) {
        AtMonotone(p, r', c', r, c);
      }
    }
  }

  lemma RowDone(p: Planes, d: bytes, r: nat)
    requires p.Valid() && StoredBefore(p, d, r, p.blocksWide)
    ensures StoredBefore(p, d, r + 1, 0)
  {
    hide BlockBytes, At, Slot;
    forall r', c' | Earlier(r', c', r + 1, 0) && HasBlock(p, r', c')
      ensures Slot(p, d, r', c', BlockBytes(p, r', c'))
    {
      assert Earlier(r', c', r, p.blocksWide);
    }
  }

  /** The planes show the blocks of `src` before block (r, c). */
  ghost predicate ShownBefore(p: Planes, src: bytes, r: nat, c: nat)
    requires p.Valid()
    reads p.y, p.u, p.v
  {
    forall r', c' :: Earlier(r', c', r, c) && HasBlock(p, r', c') ==> Shown(p, src, r', c')
  }

  ghost predicate Shown(p: Planes, src: bytes, r: nat, c: nat)
    requires p.Valid() && HasBlock(p, r, c)
    reads p.y, p.u, p.v
  {
    At(p, r, c) + 12 <= |src| && BlockOf(p, r, c) == DecodedBlock(src[At(p, r, c)..At(p, r, c) + 12])
  }

  /** ax203_decode_yuv_delta */
  method DecodePicture(src: bytes, p: Planes)
    requires p.Valid() && |src| >= At(p, p.blocksHigh, 0)
    modifies p.y, p.u, p.v
    ensures ShownBefore(p, src, p.blocksHigh, 0)
  {
    hide At, BlockOf, DecodedBlock;
    AtNext(p, 0, 0);
    var at, r := 0, 0;
    while r < p.blocksHigh
      invariant 0 <= r <= p.blocksHigh && at == At(p, r, 0) && ShownBefore(p, src, r, 0)
    {
      var c := 0;
      while c < p.blocksWide
        invariant 0 <= c <= p.blocksWide && at == At(p, r, c) && ShownBefore(p, src, r, c)
      {
        AtMonotone(p, r, c, p.blocksHigh, 0);
        AtNext(p, r, c);
        DecodeNext(src, p, r, c, at);
        at, c := at + 12, c + 1;
      }
      AtNext(p, r, 0);
      ShownRow(p, src, r);
      r := r + 1;
    }
  }

  method DecodeNext(src: bytes, p: Planes, r: nat, c: nat, at: nat)
    requires p.Valid() && HasBlock(p, r, c) && at == At(p, r, c) && at + 12 <= |src| && ShownBefore(p, src, r, c)
    modifies p.y, p.u, p.v
    ensures ShownBefore(p, src, r, c + 1)
  {
    hide At, BlockOf, DecodedBlock;
    DecodeBlock(p, r, c, src[at..at + 12]);
    forall r', c' | Earlier(r', c', r, c + 1) && HasBlock(p, r', c') ensures Shown(p, src, r', c') {
      if Earlier(r', c', r, c) {
        assert old(Shown(p, src, r', c'));
        assert BlockOf(p, r', c') == old(BlockOf(p, r', c'));
      }
    }
  }

  lemma ShownRow(p: Planes, src: bytes, r: nat)
    requires p.Valid() && ShownBefore(p, src, r, p.blocksWide)
    ensures ShownBefore(p, src, r + 1, 0)
  {
    hide Shown;
    forall r', c' | Earlier(r', c', r + 1, 0) && HasBlock(p, r', c') ensures Shown(p, src, r', c') {
      assert Earlier(r', c', r, p.blocksWide);
    }
  }

  // ---- round trip ----

  /** A square of `shown` is what its square in `original` decodes to. */
  predicate QuadNear(k: Plane, original: seq<int>, shown: seq<int>)
    requires |original| == |shown| == 4
  {
    && original[0] - 7 <= shown[0] <= original[0]
    && (forall i :: 0 <= i < 4 ==> Legal(k, shown[i]))
    && (forall i :: 1 <= i < 4 ==> Abs(shown[i] - original[i]) <= Bound(k, TableFor(k, original)))
  }

  ghost predicate BlockNear(p: Planes, q: Planes, r: nat, c: nat)
    requires p.Valid() && q.Valid() && HasBlock(p, r, c) && HasBlock(q, r, c)
    reads p.y, p.u, p.v, q.y, q.u, q.v
  {
    && QuadNear(CHROMA, Quad(p.u, 2 * r, 2 * c), Quad(q.u, 2 * r, 2 * c))
    && QuadNear(CHROMA, Quad(p.v, 2 * r, 2 * c), Quad(q.v, 2 * r, 2 * c))
    && QuadNear(LUMA, Quad(p.y, 4 * r, 4 * c), Quad(q.y, 4 * r, 4 * c))
    && QuadNear(LUMA, Quad(p.y, 4 * r, 4 * c + 2), Quad(q.y, 4 * r, 4 * c + 2))
    && QuadNear(LUMA, Quad(p.y, 4 * r + 2, 4 * c), Quad(q.y, 4 * r + 2, 4 * c))
    && QuadNear(LUMA, Quad(p.y, 4 * r + 2, 4 * c + 2), Quad(q.y, 4 * r + 2, 4 * c + 2))
  }

  /** Encoding a picture and decoding the bytes gives, in every square of every plane, values within the error bounds. */
  lemma PictureIsNear(p: Planes, q: Planes, d: bytes, r: nat, c: nat)
    requires p.Valid() && q.Valid() && p.blocksHigh == q.blocksHigh && p.blocksWide == q.blocksWide
    requires p.AllLegal() && HasBlock(p, r, c)
    requires StoredBefore(p, d, p.blocksHigh, 0) && ShownBefore(q, d, q.blocksHigh, 0)
    ensures BlockNear(p, q, r, c)
  {
    hide Encoded, Decoded, Bound, TableFor, DecodedBlock, BlockBytes, BlockOf, QuadNear;
    assert Earlier(r, c, p.blocksHigh, 0);
    assert Slot(p, d, r, c, BlockBytes(p, r, c)) && Shown(q, d, r, c);
    BlockRoundTrip(p, q, r, c);
    QuadIsNear(CHROMA, Quad(p.u, 2 * r, 2 * c));
    QuadIsNear(CHROMA, Quad(p.v, 2 * r, 2 * c));
    QuadIsNear(LUMA, Quad(p.y, 4 * r, 4 * c));
    QuadIsNear(LUMA, Quad(p.y, 4 * r, 4 * c + 2));
    QuadIsNear(LUMA, Quad(p.y, 4 * r + 2, 4 * c));
    QuadIsNear(LUMA, Quad(p.y, 4 * r + 2, 4 * c + 2));
  }

  lemma QuadIsNear(k: Plane, s: seq<int>)
    requires Known(k) && |s| == 4 && forall i :: 0 <= i < 4 ==> Legal(k, s[i])
    ensures QuadNear(k, s, Decoded(k, Encoded(k, s)))
  {
    hide Encoded, Decoded, Bound, TableFor;
    DecodedIsNear(k, s);
  }

  lemma BlockRoundTrip(p: Planes, q: Planes, r: nat, c: nat)
    requires p.Valid() && q.Valid() && HasBlock(p, r, c) && HasBlock(q, r, c)
    requires BlockOf(q, r, c) == DecodedBlock(BlockBytes(p, r, c))
    ensures Quad(q.u, 2 * r, 2 * c) == Decoded(CHROMA, Encoded(CHROMA, Quad(p.u, 2 * r, 2 * c)))
    ensures Quad(q.v, 2 * r, 2 * c) == Decoded(CHROMA, Encoded(CHROMA, Quad(p.v, 2 * r, 2 * c)))
    ensures Quad(q.y, 4 * r, 4 * c) == Decoded(LUMA, Encoded(LUMA, Quad(p.y, 4 * r, 4 * c)))
    ensures Quad(q.y, 4 * r, 4 * c + 2) == Decoded(LUMA, Encoded(LUMA, Quad(p.y, 4 * r, 4 * c + 2)))
    ensures Quad(q.y, 4 * r + 2, 4 * c) == Decoded(LUMA, Encoded(LUMA, Quad(p.y, 4 * r + 2, 4 * c)))
    ensures Quad(q.y, 4 * r + 2, 4 * c + 2) == Decoded(LUMA, Encoded(LUMA, Quad(p.y, 4 * r + 2, 4 * c + 2)))
  {
    hide Encoded, Decoded, Quad;
    var b := BlockBytes(p, r, c);
    SixPairs(Encoded(CHROMA, Quad(p.u, 2 * r, 2 * c)), Encoded(CHROMA, Quad(p.v, 2 * r, 2 * c)),
             Encoded(LUMA, Quad(p.y, 4 * r, 4 * c)), Encoded(LUMA, Quad(p.y, 4 * r, 4 * c + 2)),
             Encoded(LUMA, Quad(p.y, 4 * r + 2, 4 * c)), Encoded(LUMA, Quad(p.y, 4 * r + 2, 4 * c + 2)));
    SixQuads(Quad(q.u, 2 * r, 2 * c), Quad(q.v, 2 * r, 2 * c), Quad(q.y, 4 * r, 4 * c),
             Quad(q.y, 4 * r, 4 * c + 2), Quad(q.y, 4 * r + 2, 4 * c), Quad(q.y, 4 * r + 2, 4 * c + 2));
    SixQuads(Decoded(CHROMA, b[0..2]), Decoded(CHROMA, b[2..4]), Decoded(LUMA, b[4..6]), Decoded(LUMA, b[6..8]),
             Decoded(LUMA, b[8..10]), Decoded(LUMA, b[10..12]));
  }

  /** The pieces of a block's bytes. */
  lemma SixPairs(s: bytes, t: bytes, u: bytes, v: bytes, w: bytes, x: bytes)
    requires |s| == |t| == |u| == |v| == |w| == |x| == 2
    ensures var b := s + t + u + v + w + x;
      b[0..2] == s && b[2..4] == t && b[4..6] == u && b[6..8] == v && b[8..10] == w && b[10..12] == x
  {
  }

  /** The squares of a block. */
  lemma SixQuads(s: seq<int>, t: seq<int>, u: seq<int>, v: seq<int>, w: seq<int>, x: seq<int>)
    requires |s| == |t| == |u| == |v| == |w| == |x| == 4
    ensures var d := s + t + u + v + w + x;
      d[0..4] == s && d[4..8] == t && d[8..12] == u && d[12..16] == v && d[16..20] == w && d[20..24] == x
  {
  }

  /** Encoding a picture and decoding the result: every square of every plane comes out within the error bounds. */
  method RoundTrip(p: Planes) returns (q: Planes)
    requires p.Valid() && p.AllLegal()
    ensures q.Valid() && q.blocksHigh == p.blocksHigh && q.blocksWide == p.blocksWide
    ensures forall r, c :: HasBlock(p, r, c) ==> BlockNear(p, q, r, c)
  {
    hide BlockBytes, At, BlockNear, Shown, Slot;
    LegalFits(p);
    var size := At(p, p.blocksHigh, 0);
    var data := new byte[size](_ => 0);
    EncodePicture(p, data);
    q := new Planes(p.blocksWide, p.blocksHigh);
    ghost var stored := data[..];
    SameOffsets(p, q);
    DecodePicture(data[..], q);
    forall r, c | HasBlock(p, r, c) ensures BlockNear(p, q, r, c) {
      PictureIsNear(p, q, stored, r, c);
    }
  }

  lemma SameOffsets(p: Planes, q: Planes)
    requires p.blocksHigh == q.blocksHigh && p.blocksWide == q.blocksWide
    ensures At(p, p.blocksHigh, 0) == At(q, q.blocksHigh, 0)
  {
  }

  lemma LegalFits(p: Planes)
    requires p.AllLegal()
    ensures AllFit(p)
  {
  }
}
