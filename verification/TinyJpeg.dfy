/** The AX206 decoder (tinyjpeg as modified for these picture frames): units and the scan. */
module TinyJpeg {
  import opened Bytes
  import opened Bits
  import opened BitReservoir
  import opened HuffmanTables
  import opened DataUnits
  import opened McuCoding
  import opened Options

  ghost predicate PairUsable(dc: HuffmanTable, ac: HuffmanTable, c: Coder)
    reads dc.lookup, dc.codeSize, dc.slow, ac.lookup, ac.codeSize, ac.slow
  {
    c.Valid() && Usable(dc, c.dc) && Usable(ac, c.ac)
  }

  /** A unit whose blocks are in natural order, as the decoder leaves them. */
  function Natural(m: Mcu): Mcu {
    Mcu(Dezigzag(m.cb), Dezigzag(m.cr), NaturalBlocks(m.y))
  }

  function NaturalBlocks(y: seq<block>): (r: seq<block>)
    ensures |r| == |y|
  {
    seq(|y|, k requires 0 <= k < |y| => Dezigzag(y[k]))
  }

  function NaturalAll(mcus: seq<Mcu>): (r: seq<Mcu>)
    ensures |r| == |mcus| && (mcus == [] ==> r == [])
  {
    seq(|mcus|, k requires 0 <= k < |mcus| => Natural(mcus[k]))
  }

  class JpegDecoder {
    const cbDc: HuffmanTable
    const cbAc: HuffmanTable
    const crDc: HuffmanTable
    const crAc: HuffmanTable
    const yDc: HuffmanTable
    const yAc: HuffmanTable
    ghost const books: Books
    var reader: BitReader
    var previous: Predictors

    constructor (cb: (HuffmanTable, HuffmanTable), cr: (HuffmanTable, HuffmanTable), y: (HuffmanTable, HuffmanTable),
                 ghost books: Books, data: bytes)
      ensures (cbDc, cbAc) == cb && (crDc, crAc) == cr && (yDc, yAc) == y && this.books == books
      ensures fresh(reader) && reader.Valid() && reader.Settled() && reader.data == data && reader.Cursor() == 0
    {
      cbDc, cbAc, crDc, crAc, yDc, yAc := cb.0, cb.1, cr.0, cr.1, y.0, y.1;
      this.books := books;
      reader := new BitReader(data);
      previous := ZERO;
    }

    /** The tables describe the codes in use. */
    ghost predicate TablesUsable()
      reads cbDc.lookup, cbDc.codeSize, cbDc.slow, cbAc.lookup, cbAc.codeSize, cbAc.slow
      reads crDc.lookup, crDc.codeSize, crDc.slow, crAc.lookup, crAc.codeSize, crAc.slow
      reads yDc.lookup, yDc.codeSize, yDc.slow, yAc.lookup, yAc.codeSize, yAc.slow
      ensures TablesUsable() ==> books.Valid()
    {
      PairUsable(cbDc, cbAc, books.cb) && PairUsable(crDc, crAc, books.cr) && PairUsable(yDc, yAc, books.y)
    }

    /** Byte at which the next unit starts. */
    ghost function NextUnit(): (at: nat)
      reads this, reader
      requires reader.Valid() && reader.Settled()
      ensures at <= |reader.data| && at == NextByte(|reader.data|, |reader.Unread()|)
      ensures at <= reader.pos <= at + 2
      ensures reader.Cursor() == 0 ==> at == 0
    {
      ByteOfCursor(reader);
      (reader.Cursor() + 7) / 8
    }

    ghost function Ahead(): seq<bit>
      reads this, reader
      requires reader.Valid() && reader.Settled()
    {
      BitsOf(reader.data)[8 * NextUnit()..]
    }

    /** Forget the bits left over from the unit before. */
    method StartUnit()
      requires reader.Valid() && reader.Settled()
      modifies reader
      ensures reader.Valid() && reader.Settled() && reader.Unread() == old(Ahead())
    {
      hide BitsOf;
      reader.Realign();
    }

    /** decode_MCU_2x2_3planes (four luma blocks) and decode_MCU_1x1_3planes (one). */
    method DecodeMcu(lumaBlocks: nat) returns (ok: bool, m: Mcu)
      requires reader.Valid() && reader.Settled() && TablesUsable()
      modifies this`previous, reader
      ensures reader.Valid() && (ok ==> reader.Settled())
      ensures ok <==> McuSpec(old(Ahead()), books, old(previous), lumaBlocks).Some?
      ensures ok ==>
        var spec := McuSpec(old(Ahead()), books, old(previous), lumaBlocks).value;
        m == Natural(spec.0) && previous == After(spec.0, old(previous)) && reader.Unread() == spec.1
    {
      hide UnitSpec, LumaSpec, PairUsable, Coder.Valid, BitReader.Valid, BitReader.Unread, NextUnit, Ahead, Dezigzag, LastDc;
      m := Mcu(seq(64, _ => 0), seq(64, _ => 0), []);
      StartUnit();
      var cb, cr, y, dc;
      ok, cb, dc := DecodeBlock(cbDc, cbAc, previous.cb, books.cb);
      if !ok {
        return;
      }
      previous := previous.(cb := dc);
      ok, cr, dc := DecodeBlock(crDc, crAc, previous.cr, books.cr);
      if !ok {
        return;
      }
      previous := previous.(cr := dc);
      ok, y := DecodeLuma(lumaBlocks);
      m := Mcu(cb, cr, y);
    }

    /** The luma blocks of a unit. */
    method DecodeLuma(n: nat) returns (ok: bool, y: seq<block>)
      requires reader.Valid() && reader.Settled() && PairUsable(yDc, yAc, books.y)
      modifies this`previous, reader
      ensures reader.Valid() && (ok ==> reader.Settled()) && previous.cb == old(previous.cb) && previous.cr == old(previous.cr)
      ensures ok <==> LumaSpec(old(reader.Unread()), books.y, old(previous.y), n).Some?
      ensures ok ==>
        var spec := LumaSpec(old(reader.Unread()), books.y, old(previous.y), n).value;
        y == NaturalBlocks(spec.0) && previous.y == LastDc(spec.0, old(previous.y)) && reader.Unread() == spec.1
      decreases n
    {
      hide UnitSpec, PairUsable, Coder.Valid, BitReader.Valid, Dezigzag, BitsOf;
      y := [];
      ok := true;
      if n > 0 {
        var d, dc, more;
        ok, d, dc := DecodeBlock(yDc, yAc, previous.y, books.y);
        if ok {
          previous := previous.(y := dc);
          ok, more := DecodeLuma(n - 1);
          y := [d] + more;
        }
      }
    }

    method DecodeBlock(dcTable: HuffmanTable, acTable: HuffmanTable, last: int, ghost c: Coder) returns (ok: bool, d: block, newLast: int)
      requires reader.Valid() && reader.Settled() && PairUsable(dcTable, acTable, c)
      modifies reader
      ensures reader.Valid() && (ok ==> reader.Settled())
      ensures ok <==> UnitSpec(old(reader.Unread()), c.dc, c.ac, last).Some?
      ensures ok ==> (d, reader.Unread()) == (var spec := UnitSpec(old(reader.Unread()), c.dc, c.ac, last).value; (Dezigzag(spec.0), spec.1))
      ensures ok ==> newLast == UnitSpec(old(reader.Unread()), c.dc, c.ac, last).value.0[0]
    {
      hide UnitSpec, Usable;
      var coefficients;
      ok, coefficients, newLast := DecodeUnit(reader, dcTable, acTable, last, c.dc, c.ac);
      d := if ok then coefficients else seq(64, _ => 0);
    }

    /** tinyjpeg_decode up to the colour conversion: `count` units. The picture is refused if more than
        one byte is left, and the bytes looked ahead at, one or two, do not count as left. */
    method Decode(lumaBlocks: nat, count: nat) returns (ok: bool, mcus: seq<Mcu>)
      requires reader.Valid() && reader.Settled() && TablesUsable() && reader.Cursor() == 0
      modifies this`previous, reader
      ensures var spec := ScanSpec(reader.data, 0, books, ZERO, lumaBlocks, count);
        && (ok <==> spec.Some? && |reader.data| - reader.pos <= 1)
        && (spec.Some? ==> mcus == NaturalAll(spec.value.0) && spec.value.1 <= reader.pos <= spec.value.1 + 2)
    {
      hide McuSpec, ScanSpec, After, TablesUsable, Books.Valid, BitReader.Unread, BitReader.Valid, BitReader.Cursor, NextUnit, NextByte, Natural, NaturalAll, BitsOf, Prepend;
      ghost var data, b := reader.data, books;
      ghost var goal := ScanSpec(data, 0, b, ZERO, lumaBlocks, count);
      previous, mcus := ZERO, [];
      ghost var done: seq<Mcu> := [];
      PrependNothing(goal);
      assert mcus == NaturalAll(done);
      var k := 0;
      while k < count
        invariant reader.Valid() && reader.Settled() && TablesUsable() && 0 <= k <= count && mcus == NaturalAll(done)
        invariant goal == Prepend(done, ScanSpec(data, NextUnit(), b, previous, lumaBlocks, count - k))
      {
        var m;
        ghost var at, last := NextUnit(), previous;
        ok, m := DecodeMcu(lumaBlocks);
        ScanStep(data, at, b, last, lumaBlocks, count - k, done);
        if !ok {
          return;
        }
        mcus, k := mcus + [m], k + 1;
        ghost var raw := McuSpec(BitsOf(data)[8 * at..], b, last, lumaBlocks).value.0;
        NaturalAppend(done, raw);
        done := done + [raw];
      }
      ScanEnd(data, NextUnit(), b, previous, lumaBlocks, done);
      ok := |reader.data| - reader.pos <= 1;
    }
  }

  lemma ByteOfCursor(r: BitReader)
    requires r.Valid() && r.Settled()
    ensures 0 <= (r.Cursor() + 7) / 8 == NextByte(|r.data|, |r.Unread()|)
    ensures (r.Cursor() + 7) / 8 <= r.pos <= (r.Cursor() + 7) / 8 + 2 && r.pos <= |r.data|
  {
    hide BitsOf;
    assert |r.Unread()| == 8 * (|r.data| - r.pos) + r.nbits;
    NextByteIs(|r.data| - r.pos, r.nbits);
    NextByteIs(r.pos, -(r.nbits as int));
  }

  lemma NextByteIs(k: int, n: int)
    ensures (8 * k + n) / 8 == k + n / 8 && (8 * k + n + 7) / 8 == k + (n + 7) / 8
  {
  }

  lemma NaturalAppend(mcus: seq<Mcu>, m: Mcu)
    ensures NaturalAll(mcus + [m]) == NaturalAll(mcus) + [Natural(m)]
  {
    hide Natural;
  }

  lemma PrependNothing(r: Option<(seq<Mcu>, nat)>)
    ensures Prepend([], r) == r
  {
    if r.Some? {
      assert [] + r.value.0 == r.value.0;
    }
  }

  lemma ScanStep(data: bytes, at: nat, b: Books, last: Predictors, n: nat, count: nat, done: seq<Mcu>)
    requires b.Valid() && at <= |data| && count > 0
    ensures var scan, spec := ScanSpec(data, at, b, last, n, count), McuSpec(BitsOf(data)[8 * at..], b, last, n);
      && (spec.None? ==> Prepend(done, scan).None?)
      && (spec.Some? ==>
            Prepend(done, scan) ==
            Prepend(done + [spec.value.0],
                    ScanSpec(data, NextByte(|data|, |spec.value.1|), b, After(spec.value.0, last), n, count - 1)))
  {
    hide McuSpec, After, BitsOf, Books.Valid;
    var spec := McuSpec(BitsOf(data)[8 * at..], b, last, n);
    if spec.Some? {
      var more := ScanSpec(data, NextByte(|data|, |spec.value.1|), b, After(spec.value.0, last), n, count - 1);
      if more.Some? {
        assert done + ([spec.value.0] + more.value.0) == done + [spec.value.0] + more.value.0;
      }
    }
  }

  lemma ScanEnd(data: bytes, at: nat, b: Books, last: Predictors, n: nat, done: seq<Mcu>)
    requires b.Valid() && at <= |data|
    ensures Prepend(done, ScanSpec(data, at, b, last, n, 0)) == Some((done, at))
  {
    assert done + [] == done;
  }

  ghost function Prepend(done: seq<Mcu>, r: Option<(seq<Mcu>, nat)>): Option<(seq<Mcu>, nat)> {
    match r
    case None => None
    case Some((more, end)) => Some((done + more, end))
  }
}
