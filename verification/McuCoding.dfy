/** Minimum coded units of the AX206 picture format: the component order is Cb, Cr, Y, every unit
    starts on a byte boundary, and DC values are coded as differences within their component. */
module McuCoding {
  import opened Bytes
  import opened Bits
  import opened Options
  import opened DataUnits

  datatype Coder = Coder(dc: CodeBook, ac: CodeBook) {
    ghost predicate Valid() {
      dc.Valid() && ac.Valid() && forall k :: 0 <= k < |dc.symbols| ==> dc.symbols[k] <= 63
    }
  }

  datatype Books = Books(cb: Coder, cr: Coder, y: Coder) {
    ghost predicate Valid() {
      cb.Valid() && cr.Valid() && y.Valid()
    }
  }

  /** A block: 64 coefficients in zigzag order. */
  type block = d: seq<int> | |d| == 64 witness seq(64, _ => 0)

  datatype Mcu = Mcu(cb: block, cr: block, y: seq<block>)

  /** Last DC value of each component. */
  datatype Predictors = Predictors(cb: int, cr: int, y: int)

  const ZERO := Predictors(0, 0, 0)

  function LastDc(y: seq<block>, previous: int): int {
    if y == [] then previous else y[|y| - 1][0]
  }

  function After(m: Mcu, last: Predictors): Predictors {
    Predictors(m.cb[0], m.cr[0], LastDc(m.y, last.y))
  }

  // ---- decoding ----

  /** `n` luma blocks, coded one after the other. */
  ghost function LumaSpec(u: seq<bit>, c: Coder, previous: int, n: nat): (r: Option<(seq<block>, seq<bit>)>)
    requires c.Valid()
    ensures r.Some? ==> |r.value.1| <= |u| && |r.value.0| == n
    decreases n
  {
    if n == 0 then Some(([], u))
    else
      match UnitSpec(u, c.dc, c.ac, previous)
      case None => None
      case Some((d, rest)) =>
        match LumaSpec(rest, c, d[0], n - 1)
        case None => None
        case Some((more, rest')) => Some(([d] + more, rest'))
  }

  /** One unit with `n` luma blocks (one or four), and the bits behind it. */
  ghost function McuSpec(u: seq<bit>, b: Books, last: Predictors, n: nat): (r: Option<(Mcu, seq<bit>)>)
    requires b.Valid()
    ensures r.Some? ==> |r.value.1| <= |u| && |r.value.0.y| == n
  {
    match UnitSpec(u, b.cb.dc, b.cb.ac, last.cb)
    case None => None
    case Some((cb, u1)) =>
      match UnitSpec(u1, b.cr.dc, b.cr.ac, last.cr)
      case None => None
      case Some((cr, u2)) =>
        match LumaSpec(u2, b.y, last.y, n)
        case None => None
        case Some((y, u3)) => Some((Mcu(cb, cr, y), u3))
  }

  /** First byte boundary at or behind the point where `rest` bits are left of `size` bytes. */
  function NextByte(size: nat, rest: nat): (at: nat)
    requires rest <= 8 * size
    ensures at <= size
  {
    size - rest / 8
  }

  ghost function ScanSpec(data: bytes, at: nat, b: Books, last: Predictors, n: nat, count: nat)
    : (r: Option<(seq<Mcu>, nat)>)
    requires b.Valid() && at <= |data|
    ensures r.Some? ==> r.value.1 <= |data|
    decreases count
  {
    if count == 0 then Some(([], at))
    else
      match McuSpec(BitsOf(data)[8 * at..], b, last, n)
      case None => None
      case Some((m, rest)) =>
        match ScanSpec(data, NextByte(|data|, |rest|), b, After(m, last), n, count - 1)
        case None => None
        case Some((more, end)) => Some(([m] + more, end))
  }

  // ---- encoding ----

  ghost predicate Codable(c: Coder, d: block, previous: int) {
    && c.Valid() && InRange(d) && -0x8000 < d[0] - previous < 0x8000
    && Readable(c.dc, [DcItem(d[0] - previous)]) && Readable(c.ac, AcItems(d, 1))
  }

  ghost predicate LumaCodable(c: Coder, y: seq<block>, previous: int) {
    y != [] ==> Codable(c, y[0], previous) && LumaCodable(c, y[1..], y[0][0])
  }

  ghost predicate McuCodable(b: Books, m: Mcu, last: Predictors) {
    && b.Valid() && Codable(b.cb, m.cb, last.cb) && Codable(b.cr, m.cr, last.cr)
    && LumaCodable(b.y, m.y, last.y)
  }

  function LumaBits(c: Coder, y: seq<block>, previous: int): seq<bit>
    requires LumaCodable(c, y, previous)
  {
    if y == [] then [] else UnitBits(c.dc, c.ac, y[0], previous) + LumaBits(c, y[1..], y[0][0])
  }

  /** A unit coded against the predictors `last`. */
  function McuBits(b: Books, m: Mcu, last: Predictors): seq<bit>
    requires McuCodable(b, m, last)
  {
    UnitBits(b.cb.dc, b.cb.ac, m.cb, last.cb) + UnitBits(b.cr.dc, b.cr.ac, m.cr, last.cr) + LumaBits(b.y, m.y, last.y)
  }

  // ---- decoding undoes encoding ----

  lemma {:induction false} LumaRoundTrip(c: Coder, y: seq<block>, previous: int, rest: seq<bit>)
    requires c.Valid() && LumaCodable(c, y, previous) && |rest| >= 8
    ensures LumaSpec(LumaBits(c, y, previous) + rest, c, previous, |y|) == Some((y, rest))
  {
    hide UnitSpec, UnitBits, CodeBook.Valid, InRange, CanEncode, Readable, AcItems, DcItem;
    if y == [] {
      assert [] + rest == rest;
    } else {
      var first, more := UnitBits(c.dc, c.ac, y[0], previous), LumaBits(c, y[1..], y[0][0]);
      UnitRoundTrip(c.dc, c.ac, y[0], previous, more + rest);
      assert first + more + rest == first + (more + rest);
      LumaRoundTrip(c, y[1..], y[0][0], rest);
      assert [y[0]] + y[1..] == y;
    }
  }

  /** The decoder's running predictors undo differential coding; it stops exactly behind the unit. */
  lemma McuRoundTrip(b: Books, m: Mcu, last: Predictors, rest: seq<bit>)
    requires McuCodable(b, m, last) && |rest| >= 8
    ensures McuSpec(McuBits(b, m, last) + rest, b, last, |m.y|) == Some((m, rest))
  {
    hide UnitSpec, UnitBits, LumaSpec, LumaBits, LumaCodable, CodeBook.Valid, InRange, CanEncode, Readable, AcItems, DcItem;
    var cb, cr := UnitBits(b.cb.dc, b.cb.ac, m.cb, last.cb), UnitBits(b.cr.dc, b.cr.ac, m.cr, last.cr);
    var y := LumaBits(b.y, m.y, last.y);
    assert cb + cr + y + rest == cb + (cr + (y + rest));
    UnitRoundTrip(b.cb.dc, b.cb.ac, m.cb, last.cb, cr + (y + rest));
    UnitRoundTrip(b.cr.dc, b.cr.ac, m.cr, last.cr, y + rest);
    LumaRoundTrip(b.y, m.y, last.y, rest);
  }

  // ---- re-basing ----

  /** A block coded on its own: the DC value minus the last one of its component. */
  function Rebased(d: block, last: int): block {
    d[0 := d[0] - last]
  }

  /** All four luma blocks lose the same value, the last DC value of the unit before. */
  function Rebase(m: Mcu, last: Predictors): Mcu {
    Mcu(Rebased(m.cb, last.cb), Rebased(m.cr, last.cr), RebaseLuma(m.y, last.y))
  }

  function RebaseLuma(y: seq<block>, last: int): (r: seq<block>)
    ensures |r| == |y|
  {
    seq(|y|, k requires 0 <= k < |y| => Rebased(y[k], last))
  }

  lemma {:induction false} ZeroRunTail(d: block, e: block, j: nat)
    requires 1 <= j <= 64 && d[1..] == e[1..]
    ensures ZeroRun(d, j) == ZeroRun(e, j)
    decreases 64 - j
  {
    if j < 64 {
      assert d[j] == d[1..][j - 1] == e[j];
      ZeroRunTail(d, e, j + 1);
    }
  }

  /** The AC part of a block does not depend on its DC value. */
  lemma {:induction false} AcItemsTail(d: block, e: block, j: nat)
    requires 1 <= j <= 64 && d[1..] == e[1..]
    ensures AcItems(d, j) == AcItems(e, j)
    decreases 64 - j
  {
    hide ZeroRun, Category, Magnitude, AcItems;
    AcItemsCases(d, j);
    AcItemsCases(e, j);
    ZeroRunTail(d, e, j);
    var run := ZeroRun(d, j);
    if j + run < 64 {
      assert d[j + run] == d[1..][j + run - 1] == e[j + run];
      if run >= 16 {
        AcItemsTail(d, e, j + 16);
      } else {
        AcItemsValue(d, j, j + run);
        AcItemsValue(e, j, j + run);
        AcItemsTail(d, e, j + run + 1);
      }
    }
  }

  lemma RebasedUnit(c: Coder, d: block, previous: int, last: int)
    requires Codable(c, d, previous) && -0x8000 < d[0] - last < 0x8000
    ensures Codable(c, Rebased(d, last), previous - last)
    ensures UnitBits(c.dc, c.ac, Rebased(d, last), previous - last) == UnitBits(c.dc, c.ac, d, previous)
  {
    hide AcItems, ItemBits, CanEncode, Readable, CodeBook.Valid, DcItem;
    AcItemsTail(d, Rebased(d, last), 1);
  }

  predicate LumaNear(y: seq<block>, last: int) {
    forall k :: 0 <= k < |y| ==> -0x8000 < y[k][0] - last < 0x8000
  }

  lemma {:induction false} RebasedLuma(c: Coder, y: seq<block>, previous: int, last: int)
    requires LumaCodable(c, y, previous) && LumaNear(y, last)
    ensures LumaCodable(c, RebaseLuma(y, last), previous - last)
    ensures LumaBits(c, RebaseLuma(y, last), previous - last) == LumaBits(c, y, previous)
  {
    hide Codable, UnitBits;
    if y != [] {
      RebasedUnit(c, y[0], previous, last);
      RebasedLuma(c, y[1..], y[0][0], last);
      assert RebaseLuma(y, last)[1..] == RebaseLuma(y[1..], last);
    }
  }

  /** A re-based unit coded on its own is, bit for bit, the unit coded against running predictors. */
  lemma RebaseKeepsBits(b: Books, m: Mcu, last: Predictors)
    requires McuCodable(b, m, last) && LumaNear(m.y, last.y)
    ensures McuCodable(b, Rebase(m, last), ZERO)
    ensures McuBits(b, Rebase(m, last), ZERO) == McuBits(b, m, last)
  {
    hide UnitBits, LumaBits, LumaCodable, AcItems, CanEncode, Readable, DcItem;
    RebasedUnit(b.cb, m.cb, last.cb, last.cb);
    RebasedUnit(b.cr, m.cr, last.cr, last.cr);
    RebasedLuma(b.y, m.y, last.y, last.y);
  }
}
