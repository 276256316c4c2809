/** The AX203 delta codec: four component values in two bytes (a start value rounded down to a
    multiple of 8, the number of a correction table, and three indices into it). */
module DeltaCodec {
  import opened Bytes

  /** A kind of component: its 8 bit type starts at `min`, its legal values are `lo` to `hi`. */
  datatype Plane = Plane(min: int, lo: int, hi: int)

  const CHROMA := Plane(-128, -112, 111)

  const LUMA := Plane(0, 16, 235)

  predicate Known(p: Plane) {
    p == CHROMA || p == LUMA
  }

  predicate Fits(p: Plane, v: int) {
    p.min <= v < p.min + 256
  }

  predicate Legal(p: Plane, v: int) {
    p.lo <= v <= p.hi
  }

  /** Conversion to the 8 bit type of the component. */
  function Wrap(p: Plane, v: int): (w: int)
    ensures Fits(p, w)
    ensures Fits(p, v) ==> w == v
  {
    (v - p.min) % 256 + p.min
  }

  /** Table 0 depends on wrap-around to get negative corrections. */
  function Correction(table: nat, i: nat): int
    requires table < 4 && i < 8
  {
    match table
    case 0 => [0, 32, 64, 96, 128, 160, 192, 224][i]
    case 1 => [0, 16, 32, 48, -64, -48, -32, -16][i]
    case 2 => [0, 8, 16, 24, -32, -24, -16, -8][i]
    case _ => [0, 4, 8, 12, -16, -12, -8, -4][i]
  }

  function Corrected(p: Plane, base: int, table: nat, i: nat): (v: int)
    requires table < 4 && i < 8
    ensures Fits(p, v)
  {
    Wrap(p, base + Correction(table, i))
  }

  function Abs(x: int): nat {
    if x < 0 then -x else x
  }

  /** Corrections the encoder considers: no wrap-around but in table 0, and only legal values. */
  predicate Admissible(p: Plane, base: int, table: nat, i: nat)
    requires table < 4 && i < 8
  {
    && (table != 0 ==> Fits(p, base + Correction(table, i)))
    && Legal(p, Corrected(p, base, table, i))
  }

  // ---- what four values are coded to ----

  function Error(p: Plane, base: int, val: int, table: nat, i: nat): nat
    requires table < 4 && i < 8
  {
    Abs(Corrected(p, base, table, i) - val)
  }

  function ClosestAmong(p: Plane, base: int, val: int, table: nat, n: nat): (c: nat)
    requires table < 4 && n <= 8
    ensures c < 8 && (n > 0 ==> c < n)
  {
    if n == 0 then 0
    else
      var c := ClosestAmong(p, base, val, table, n - 1);
      if !Admissible(p, base, table, n - 1) then c
      else if n > 1 && Admissible(p, base, table, c) && Error(p, base, val, table, c) <= Error(p, base, val, table, n - 1) then c
      else n - 1
  }

  function ClosestIndex(p: Plane, base: int, val: int, table: nat): (c: nat)
    requires table < 4
    ensures c < 8
  {
    ClosestAmong(p, base, val, table, 8)
  }

  /** `c` is the first of the admissible corrections below `n` that come closest to `val`, 0 when there is none. */
  ghost predicate Closest(p: Plane, base: int, val: int, table: nat, c: nat, n: nat)
    requires table < 4 && n <= 8 && c < 8
  {
    && (forall i: nat :: i < n && Admissible(p, base, table, i) ==>
          && Admissible(p, base, table, c)
          && Error(p, base, val, table, c) <= Error(p, base, val, table, i)
          && (i < c ==> Error(p, base, val, table, c) < Error(p, base, val, table, i)))
    && ((c < n && Admissible(p, base, table, c)) || c == 0)
  }

  lemma {:induction false} ClosestAmongIsClosest(p: Plane, base: int, val: int, table: nat, n: nat)
    requires table < 4 && n <= 8
    ensures Closest(p, base, val, table, ClosestAmong(p, base, val, table, n), n)
  {
    hide Admissible, Error;
    if n > 0 {
      ClosestAmongIsClosest(p, base, val, table, n - 1);
    }
  }

  function Start(v: int): int {
    v - v % 8
  }

  function NextBase(p: Plane, base: int, val: int, table: nat): (v: int)
    requires table < 4
    ensures Fits(p, v)
  {
    Corrected(p, base, table, ClosestIndex(p, base, val, table))
  }

  /** The encoder's running base behind value `j`. */
  function Base(p: Plane, s: seq<int>, table: nat, j: nat): int
    requires |s| == 4 && j < 4 && table < 4
  {
    if j == 0 then Start(s[0]) else NextBase(p, Base(p, s, table, j - 1), s[j], table)
  }

  /** `val` is inside the span of the table, give or take 4. */
  predicate InReach(base: int, val: int, table: nat)
    requires table < 4
  {
    base + Correction(table, 4) - 4 <= val <= base + Correction(table, 3) + 4
  }

  predicate TableSuits(p: Plane, s: seq<int>, table: nat)
    requires |s| == 4 && table < 4
  {
    && InReach(Base(p, s, table, 0), s[1], table)
    && InReach(Base(p, s, table, 1), s[2], table)
    && InReach(Base(p, s, table, 2), s[3], table)
  }

  /** The finest table from `n` down that suits, table 0 when none does. */
  function FinestFrom(p: Plane, s: seq<int>, n: nat): (t: nat)
    requires |s| == 4 && n < 4
    ensures t <= n && (t != 0 ==> TableSuits(p, s, t))
  {
    if n == 0 || TableSuits(p, s, n) then n else FinestFrom(p, s, n - 1)
  }

  function TableFor(p: Plane, s: seq<int>): (t: nat)
    requires |s| == 4
    ensures t < 4
  {
    FinestFrom(p, s, 3)
  }

  /** Bits of the two bytes: sssssttc cccccccc; the last index has its low bit in the first byte. */
  function PackValues(start: int, table: nat, c1: nat, c2: nat, c3: nat): (b: bytes)
    requires start % 8 == 0 && table < 4 && c1 < 8 && c2 < 8 && c3 < 8
    ensures |b| == 2
  {
    StartBits(start);
    [start % 256 + 2 * table + c3 % 2, 32 * c1 + 4 * c2 + c3 / 2]
  }

  function Encoded(p: Plane, s: seq<int>): (b: bytes)
    requires |s| == 4
    ensures |b| == 2
  {
    var t := TableFor(p, s);
    PackValues(Start(s[0]), t, ClosestIndex(p, Base(p, s, t, 0), s[1], t),
               ClosestIndex(p, Base(p, s, t, 1), s[2], t), ClosestIndex(p, Base(p, s, t, 2), s[3], t))
  }

  /** The four values a pair of bytes stands for. */
  function Decoded(p: Plane, b: bytes): (d: seq<int>)
    requires |b| == 2
    ensures |d| == 4
  {
    Chain(p, Wrap(p, b[0] - b[0] % 8), b[0] / 2 % 4,
          b[1] / 32, b[1] / 4 % 8, (b[1] as int) % 4 * 2 + (b[0] as int) % 2)
  }

  /** A start value and three corrections, each of the value before. */
  function Chain(p: Plane, start: int, table: nat, c1: nat, c2: nat, c3: nat): (d: seq<int>)
    requires table < 4 && c1 < 8 && c2 < 8 && c3 < 8
    ensures |d| == 4
  {
    var d1 := Corrected(p, start, table, c1);
    var d2 := Corrected(p, d1, table, c2);
    [start, d1, d2, Corrected(p, d2, table, c3)]
  }

  // ---- encoder and decoder ----

  /** ax203_find_closest_correction_signed and _unsigned */
  method FindClosest(p: Plane, base: int, val: int, table: nat) returns (c: nat)
    requires Known(p) && table < 4 && Fits(p, base) && Fits(p, val)
    ensures c == ClosestIndex(p, base, val, table) && Closest(p, base, val, table, c, 8)
  {
    hide Correction, Closest, Wrap;
    ClosestAmongIsClosest(p, base, val, table, 8);
    var closestDelta := 256;
    c := 0;
    for i := 0 to 8
      invariant c == ClosestAmong(p, base, val, table, i)
      invariant closestDelta ==
        if i > 0 && Admissible(p, base, table, c) then Error(p, base, val, table, c) else 256
    {
      if table != 0 && !Fits(p, base + Correction(table, i)) {
        continue;
      }
      var correctedVal := Wrap(p, base + Correction(table, i));
      if correctedVal < p.lo || correctedVal > p.hi {
        continue;
      }
      var delta := Abs(correctedVal - val);
      if delta < closestDelta {
        closestDelta, c := delta, i;
      }
    }
  }

  /** The table selection loop of the encoders. */
  method SelectTable(p: Plane, src: seq<int>) returns (table: nat)
    requires Known(p) && |src| == 4 && forall k :: 0 <= k < 4 ==> Fits(p, src[k])
    ensures table == TableFor(p, src)
  {
    hide TableSuits;
    table := 3;
    while table > 0
      invariant table < 4 && TableFor(p, src) == FinestFrom(p, src, table)
    {
      var suits := Suits(p, src, table);
      if suits {
        return;
      }
      table := table - 1;
    }
  }

  method Suits(p: Plane, src: seq<int>, table: nat) returns (suits: bool)
    requires Known(p) && |src| == 4 && table < 4 && forall k :: 0 <= k < 4 ==> Fits(p, src[k])
    ensures suits == TableSuits(p, src, table)
  {
    hide Closest, Correction, Corrected, ClosestIndex;
    var base := src[0] - src[0] % 8;
    assert Fits(p, base);
    var j := 1;
    while j < 4
      invariant 1 <= j <= 4 && Fits(p, base) && base == Base(p, src, table, j - 1)
      invariant j >= 2 ==> InReach(Base(p, src, table, 0), src[1], table)
      invariant j >= 3 ==> InReach(Base(p, src, table, 1), src[2], table)
      invariant j >= 4 ==> InReach(Base(p, src, table, 2), src[3], table)
    {
      if base + Correction(table, 3) + 4 < src[j] || base + Correction(table, 4) - 4 > src[j] {
        return false;
      }
      var corr := FindClosest(p, base, src[j], table);
      base := Corrected(p, base, table, corr);
      j := j + 1;
    }
    suits := true;
  }

  /** ax203_encode_signed_component_values and ax203_encode_unsigned_component_values */
  method Encode(p: Plane, src: seq<int>) returns (dest: bytes)
    requires Known(p) && |src| == 4 && forall k :: 0 <= k < 4 ==> Fits(p, src[k])
    ensures dest == Encoded(p, src)
  {
    hide Closest, Correction, Corrected, ClosestIndex, TableFor;
    var table := SelectTable(p, src);
    var base := src[0] - src[0] % 8;
    StartFits(p, src[0]);
    hide Start, PackValues, Wrap;
    var d0, d1 := base % 256 + 2 * table, 0;
    var c1 := FindClosest(p, base, src[1], table);
    d1 := d1 + 32 * c1;
    base := Corrected(p, base, table, c1);
    var c2 := FindClosest(p, base, src[2], table);
    d1 := d1 + 4 * c2;
    base := Corrected(p, base, table, c2);
    var c3 := FindClosest(p, base, src[3], table);
    d0, d1 := d0 + c3 % 2, d1 + c3 / 2;
    Packed(Start(src[0]), table, c1, c2, c3);
    dest := [d0, d1];
  }

  lemma Packed(start: int, table: nat, c1: nat, c2: nat, c3: nat)
    requires start % 8 == 0 && table < 4 && c1 < 8 && c2 < 8 && c3 < 8
    ensures PackValues(start, table, c1, c2, c3) == [start % 256 + 2 * table + c3 % 2, 32 * c1 + 4 * c2 + c3 / 2]
  {
    StartBits(start);
  }

  /** A multiple of 8 leaves the three low bits of its byte clear. */
  lemma StartBits(start: int)
    requires start % 8 == 0
    ensures start % 256 % 8 == 0 && start % 256 <= 248
  {
    var q := start / 8;
    assert start == 256 * (q / 32) + 8 * (q % 32);
  }

  /** ax203_decode_component_values, read as the 8 bit type of the component. */
  method Decode(p: Plane, src: bytes) returns (dest: seq<int>)
    requires Known(p) && |src| == 2
    ensures dest == Decoded(p, src)
  {
    hide Correction, Corrected;
    dest := [Wrap(p, src[0] - src[0] % 8)];
    var table := src[0] / 2 % 4;
    var i := 1;
    while i < 4
      invariant 1 <= i <= 4 && dest == Decoded(p, src)[..i]
    {
      var corr := match i
        case 1 => src[1] / 32
        case 2 => src[1] / 4 % 8
        case _ => (src[1] as int) % 4 * 2 + (src[0] as int) % 2;
      dest := dest + [Corrected(p, dest[i - 1], table, corr)];
      i := i + 1;
    }
  }

  // ---- lockstep ----

  lemma UnpackValues(start: int, table: nat, c1: nat, c2: nat, c3: nat)
    requires start % 8 == 0 && table < 4 && c1 < 8 && c2 < 8 && c3 < 8
    ensures var b := PackValues(start, table, c1, c2, c3);
      && b[0] / 2 % 4 == table && b[1] / 32 == c1 && b[1] / 4 % 8 == c2 && (b[1] as int) % 4 * 2 + (b[0] as int) % 2 == c3
      && b[0] - b[0] % 8 == start % 256
  {
    var q := start % 256 / 8;
    assert start % 256 == 8 * q;
    FirstByte(q, table, c3 % 2);
    SecondByte(c1, c2, c3 / 2);
  }

  lemma FirstByte(q: nat, t: nat, l: nat)
    requires t < 4 && l < 2
    ensures var b := 8 * q + 2 * t + l; b / 2 % 4 == t && b % 2 == l && b % 8 == 2 * t + l
  {
    var b := 8 * q + 2 * t + l;
    assert b / 2 == 4 * q + t;
  }

  lemma SecondByte(c1: nat, c2: nat, h: nat)
    requires c2 < 8 && h < 4
    ensures var b := 32 * c1 + 4 * c2 + h; b / 32 == c1 && b / 4 % 8 == c2 && b % 4 == h
  {
    var b := 32 * c1 + 4 * c2 + h;
    assert b / 4 == 8 * c1 + c2;
  }

  lemma DecodePacked(p: Plane, start: int, table: nat, c1: nat, c2: nat, c3: nat)
    requires Known(p) && Fits(p, start) && start % 8 == 0 && table < 4 && c1 < 8 && c2 < 8 && c3 < 8
    ensures Decoded(p, PackValues(start, table, c1, c2, c3)) == Chain(p, start, table, c1, c2, c3)
  {
    hide PackValues, Chain, Wrap;
    UnpackValues(start, table, c1, c2, c3);
    WrapByte(p, start);
  }

  lemma WrapByte(p: Plane, v: int)
    requires Known(p) && Fits(p, v)
    ensures Wrap(p, v % 256) == v
  {
  }

  /** The decoder reproduces the encoder's running bases, for every input, wrap-around included. */
  lemma Lockstep(p: Plane, s: seq<int>)
    requires Known(p) && |s| == 4 && Fits(p, s[0])
    ensures var t := TableFor(p, s);
      Decoded(p, Encoded(p, s)) == [Base(p, s, t, 0), Base(p, s, t, 1), Base(p, s, t, 2), Base(p, s, t, 3)]
  {
    hide Correction, Corrected, ClosestIndex, TableFor, PackValues, Decoded, Known;
    var t := TableFor(p, s);
    var c1, c2 := ClosestIndex(p, Base(p, s, t, 0), s[1], t), ClosestIndex(p, Base(p, s, t, 1), s[2], t);
    var c3 := ClosestIndex(p, Base(p, s, t, 2), s[3], t);
    StartFits(p, s[0]);
    DecodePacked(p, Start(s[0]), t, c1, c2, c3);
  }

  lemma StartFits(p: Plane, v: int)
    requires Known(p) && Fits(p, v)
    ensures Start(v) % 8 == 0 && Fits(p, Start(v))
    ensures Legal(p, v) ==> Legal(p, Start(v)) && v - 7 <= Start(v) <= v
  {
  }

  // ---- error bounds ----

  /** Largest error of a value behind the first one. */
  function Bound(p: Plane, table: nat): nat {
    match table
    case 0 => if p == LUMA then 27 else 31
    case 1 => if p == LUMA then 11 else 15
    case 2 => if p == LUMA then 4 else 7
    case _ => 4
  }

  /** Bases are multiples of the table's unit. */
  function Unit(table: nat): nat {
    if table == 3 then 4 else 8
  }

  lemma WrapAgain(p: Plane, v: int, m: int)
    requires Fits(p, v)
    ensures Wrap(p, v + 256 * m) == v
  {
  }

  /** Table 0 reaches every value that differs from the base by a multiple of 32. */
  lemma Reach0(p: Plane, base: int, q: int)
    requires Legal(p, base + 32 * q) && Fits(p, base + 32 * q)
    ensures Admissible(p, base, 0, q % 8) && Corrected(p, base, 0, q % 8) == base + 32 * q
  {
    var k := q % 8;
    assert Correction(0, k) == 32 * k;
    assert 32 * k == 32 * q - 256 * (q / 8);
    WrapAgain(p, base + 32 * q, -(q / 8));
  }

  predicate HasNear(p: Plane, base: int, val: int, table: nat, i: nat)
    requires table < 4 && i < 8
  {
    Admissible(p, base, table, i) && Error(p, base, val, table, i) <= Bound(p, table)
  }

  lemma Near0(p: Plane, base: int, val: int) returns (i: nat)
    requires Known(p) && Legal(p, base) && base % 8 == 0 && Legal(p, val)
    ensures i < 8 && HasNear(p, base, val, 0, i)
  {
    hide Correction, Admissible, Corrected;
    var q := (val - base) / 32;
    var below := base + 32 * q;
    assert below <= val < below + 32 && below % 8 == 0;
    if below < p.lo || (below + 32 <= p.hi && below + 32 - val < val - below) {
      q := q + 1;
    }
    Reach0(p, base, q);
    i := q % 8;
  }

  /** The other tables reach -4 to 3 steps. */
  lemma Reach(p: Plane, base: int, table: nat, q: int)
    requires Known(p) && 1 <= table < 4 && -4 <= q <= 3 && Legal(p, base + Step(table, q))
    ensures Admissible(p, base, table, q % 8) && Corrected(p, base, table, q % 8) == base + Step(table, q)
  {
    StepIsCorrection(table, q);
  }

  function Step(table: nat, q: int): int
    requires 1 <= table < 4
  {
    match table
    case 1 => 16 * q
    case 2 => 8 * q
    case _ => 4 * q
  }

  lemma StepIsCorrection(table: nat, q: int)
    requires 1 <= table < 4 && -4 <= q <= 3
    ensures Correction(table, q % 8) == Step(table, q)
  {
    if q >= 0 {
      assert q % 8 == q;
    } else {
      assert q % 8 == q + 8;
    }
  }

  lemma Near1(p: Plane, base: int, val: int) returns (i: nat)
    requires Known(p) && Legal(p, base) && base % 8 == 0 && Legal(p, val) && InReach(base, val, 1)
    ensures i < 8 && HasNear(p, base, val, 1, i)
  {
    hide Admissible, Corrected;
    var q := (val - base) / 16;
    var below := base + 16 * q;
    assert below <= val < below + 16 && below % 8 == 0;
    if q < 3 && (q < -4 || below < p.lo || (below + 16 <= p.hi && below + 16 - val < val - below)) {
      q := q + 1;
    }
    Reach(p, base, 1, q);
    i := q % 8;
  }

  lemma Near2(p: Plane, base: int, val: int) returns (i: nat)
    requires Known(p) && Legal(p, base) && base % 8 == 0 && Legal(p, val) && InReach(base, val, 2)
    ensures i < 8 && HasNear(p, base, val, 2, i)
  {
    hide Admissible, Corrected;
    var q := (val - base) / 8;
    var below := base + 8 * q;
    assert below <= val < below + 8 && below % 8 == 0;
    if q < 3 && (q < -4 || (below + 8 <= p.hi && below + 8 - val < val - below)) {
      q := q + 1;
    }
    Reach(p, base, 2, q);
    i := q % 8;
  }

  lemma Near3(p: Plane, base: int, val: int) returns (i: nat)
    requires Known(p) && Legal(p, base) && base % 4 == 0 && Legal(p, val) && InReach(base, val, 3)
    ensures i < 8 && HasNear(p, base, val, 3, i)
  {
    hide Admissible, Corrected;
    var q := (val - base) / 4;
    var below := base + 4 * q;
    assert below <= val < below + 4 && below % 4 == 0;
    if q < -4 {
      q := q + 1;
    } else if q > 3 {
      q := q - 1;
    }
    Reach(p, base, 3, q);
    i := q % 8;
  }

  /** The next base stays legal and aligned, and close to the value. */
  lemma NextIsNear(p: Plane, base: int, val: int, table: nat)
    requires Known(p) && table < 4 && Legal(p, base) && base % Unit(table) == 0 && Legal(p, val)
    requires table != 0 ==> InReach(base, val, table)
    ensures var v := NextBase(p, base, val, table);
      Legal(p, v) && v % Unit(table) == 0 && Abs(v - val) <= Bound(p, table)
  {
    hide InReach, Correction, ClosestAmong, Bound, Corrected, Known;
    var i: nat;
    match table {
      case 0 => i := Near0(p, base, val);
      case 1 => i := Near1(p, base, val);
      case 2 => i := Near2(p, base, val);
      case _ => i := Near3(p, base, val);
    }
    ClosestAmongIsClosest(p, base, val, table, 8);
    assert HasNear(p, base, val, table, i);
    CorrectedAligned(p, base, table, ClosestIndex(p, base, val, table));
  }

  lemma CorrectedAligned(p: Plane, base: int, table: nat, i: nat)
    requires Known(p) && table < 4 && i < 8 && base % Unit(table) == 0
    ensures Corrected(p, base, table, i) % Unit(table) == 0
  {
    hide Correction;
    CorrectionAligned(table, i);
    AlignedSum(base, Correction(table, i), -((base + Correction(table, i) - p.min) / 256));
  }

  lemma CorrectionAligned(table: nat, i: nat)
    requires table < 4 && i < 8
    ensures Correction(table, i) % 4 == 0 && (table != 3 ==> Correction(table, i) % 8 == 0)
  {
  }

  lemma AlignedSum(a: int, b: int, q: int)
    ensures a % 8 == 0 && b % 8 == 0 ==> (a + b + 256 * q) % 8 == 0
    ensures a % 4 == 0 && b % 4 == 0 ==> (a + b + 256 * q) % 4 == 0
  {
    if a % 4 == 0 && b % 4 == 0 {
      Multiple(4, a / 4 + b / 4 + 64 * q, a + b + 256 * q);
    }
    if a % 8 == 0 && b % 8 == 0 {
      Multiple(8, a / 8 + b / 8 + 32 * q, a + b + 256 * q);
    }
  }

  lemma Multiple(d: int, k: int, x: int)
    requires (d == 4 || d == 8) && x == d * k
    ensures x % d == 0
  {
  }

  lemma TableReaches(p: Plane, s: seq<int>)
    requires |s| == 4
    ensures var t := TableFor(p, s);
      t != 0 ==> InReach(Base(p, s, t, 0), s[1], t) && InReach(Base(p, s, t, 1), s[2], t) && InReach(Base(p, s, t, 2), s[3], t)
  {
    hide InReach, Base;
  }

  lemma BaseNext(p: Plane, s: seq<int>, t: nat, j: nat)
    requires |s| == 4 && 1 <= j < 4 && t < 4
    ensures Base(p, s, t, j) == NextBase(p, Base(p, s, t, j - 1), s[j], t)
  {
    hide NextBase;
  }

  /** What decoding gives differs little from what was encoded: at most 7 in the first value, and as much as
      the chosen table allows in the others. Every value stays legal. */
  lemma DecodedIsNear(p: Plane, s: seq<int>)
    requires Known(p) && |s| == 4 && forall k :: 0 <= k < 4 ==> Legal(p, s[k])
    ensures var d := Decoded(p, Encoded(p, s));
      && s[0] - 7 <= d[0] <= s[0]
      && (forall k :: 0 <= k < 4 ==> Legal(p, d[k]))
      && (forall k :: 1 <= k < 4 ==> Abs(d[k] - s[k]) <= Bound(p, TableFor(p, s)))
  {
    hide Correction, NextBase, InReach, Decoded, Encoded, TableFor, Bound, Abs, Start;
    var t := TableFor(p, s);
    Lockstep(p, s);
    StartFits(p, s[0]);
    TableReaches(p, s);
    var b0, b1, b2 := Base(p, s, t, 0), Base(p, s, t, 1), Base(p, s, t, 2);
    BaseNext(p, s, t, 1);
    BaseNext(p, s, t, 2);
    BaseNext(p, s, t, 3);
    hide Base;
    NextIsNear(p, b0, s[1], t);
    NextIsNear(p, b1, s[2], t);
    NextIsNear(p, b2, s[3], t);
  }

  /** The bound is the best one: this edge of the chroma range is missed by 31 whatever follows. */
  lemma BoundIsReached(s: seq<int>)
    requires |s| == 4 && s[0] == -112 && s[1] == 111 && Legal(CHROMA, s[2]) && Legal(CHROMA, s[3])
    ensures TableFor(CHROMA, s) == 0 && Abs(Decoded(CHROMA, Encoded(CHROMA, s))[1] - s[1]) == 31
  {
    hide ClosestIndex, Decoded, Encoded, Corrected;
    assert Base(CHROMA, s, 1, 0) == Base(CHROMA, s, 2, 0) == Base(CHROMA, s, 3, 0) == -112;
    assert !InReach(-112, 111, 1) && !InReach(-112, 111, 2) && !InReach(-112, 111, 3);
    Lockstep(CHROMA, s);
    NextIsNear(CHROMA, -112, 111, 0);
    Table0Steps(-112, ClosestIndex(CHROMA, -112, 111, 0));
  }

  lemma Table0Steps(base: int, c: nat)
    requires c < 8 && base % 32 == 16
    ensures Corrected(CHROMA, base, 0, c) % 32 == 16
  {
    hide Correction;
    CorrectionOf0(c);
    var q := (base + 32 * c + 128) / 256;
    assert Corrected(CHROMA, base, 0, c) == base + 32 * (c - 8 * q);
    SameResidue(base, c - 8 * q);
  }

  lemma CorrectionOf0(c: nat)
    requires c < 8
    ensures Correction(0, c) == 32 * c
  {
  }

  lemma SameResidue(base: int, k: int)
    requires base % 32 == 16
    ensures (base + 32 * k) % 32 == 16
  {
  }
}
