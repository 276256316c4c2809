/** A whole AX206 picture: when the driver shows again what the compressor stored. */
module Ax206Pictures {
  import opened Bytes
  import opened Bits
  import opened DataUnits
  import opened Huffman
  import opened HuffmanTables
  import opened HuffmanSegments
  import opened McuCoding
  import opened Ax206Jpeg
  import opened TinyJpeg
  import opened AbfsFormat
  import opened Options

  /** The coding order of a block (figure A.6 of ITU-T T.81): position k holds this natural-order coefficient. */
  const NATURAL: seq<index> :=
    [0, 1, 8, 16, 9, 2, 3, 10] +
    [17, 24, 32, 25, 18, 11, 4, 5] +
    [12, 19, 26, 33, 40, 48, 41, 34] +
    [27, 20, 13, 6, 7, 14, 21, 28] +
    [35, 42, 49, 56, 57, 50, 43, 36] +
    [29, 22, 15, 23, 30, 37, 44, 51] +
    [58, 59, 52, 45, 38, 31, 39, 46] +
    [53, 60, 61, 54, 47, 55, 62, 63]

  function Zigzag(d: block): block {
    seq(64, k requires 0 <= k < 64 => d[NATURAL[k]])
  }

  /** The decoder's table inverts the coding order. */
  lemma DezigzagZigzag(d: block)
    ensures Dezigzag(Zigzag(d)) == d
  {
    forall j | 0 <= j < 64 ensures NATURAL[ZIGZAG[j]] == j {
      TablesInverse(j);
    }
  }

  lemma TablesInverse(j: nat)
    requires j < 64
    ensures NATURAL[ZIGZAG[j]] == j
  {
    match j / 8
    case 0 => assert j == 0 || j == 1 || j == 2 || j == 3 || j == 4 || j == 5 || j == 6 || j == 7;
    case 1 => assert j == 8 || j == 9 || j == 10 || j == 11 || j == 12 || j == 13 || j == 14 || j == 15;
    case 2 => assert j == 16 || j == 17 || j == 18 || j == 19 || j == 20 || j == 21 || j == 22 || j == 23;
    case 3 => assert j == 24 || j == 25 || j == 26 || j == 27 || j == 28 || j == 29 || j == 30 || j == 31;
    case 4 => assert j == 32 || j == 33 || j == 34 || j == 35 || j == 36 || j == 37 || j == 38 || j == 39;
    case 5 => assert j == 40 || j == 41 || j == 42 || j == 43 || j == 44 || j == 45 || j == 46 || j == 47;
    case 6 => assert j == 48 || j == 49 || j == 50 || j == 51 || j == 52 || j == 53 || j == 54 || j == 55;
    case _ => assert j == 56 || j == 57 || j == 58 || j == 59 || j == 60 || j == 61 || j == 62 || j == 63;
  }

  /** A picture as the JPEG library hands it over: blocks in natural order. */
  function InCodingOrder(picture: seq<Mcu>): (mcus: seq<Mcu>)
    ensures |mcus| == |picture| && forall i :: 0 <= i < |picture| ==> |mcus[i].y| == |picture[i].y|
  {
    seq(|picture|, i requires 0 <= i < |picture| => ZigzagUnit(picture[i]))
  }

  function ZigzagUnit(m: Mcu): (z: Mcu)
    ensures |z.y| == |m.y|
  {
    Mcu(Zigzag(m.cb), Zigzag(m.cr), seq(|m.y|, k requires 0 <= k < |m.y| => Zigzag(m.y[k])))
  }

  lemma NaturalOfCodingOrder(picture: seq<Mcu>)
    ensures NaturalAll(InCodingOrder(picture)) == picture
  {
    hide Zigzag, Dezigzag;
    forall i | 0 <= i < |picture| ensures Natural(ZigzagUnit(picture[i])) == picture[i] {
      var m := picture[i];
      DezigzagZigzag(m.cb);
      DezigzagZigzag(m.cr);
      forall k | 0 <= k < |m.y| ensures NaturalBlocks(ZigzagUnit(m).y)[k] == m.y[k] {
        DezigzagZigzag(m.y[k]);
      }
      assert NaturalBlocks(ZigzagUnit(m).y) == m.y;
    }
  }

  // ---- the file header ----

  function RoundUp(n: nat): nat {
    (n + 15) / 16 * 16
  }

  /** Units of a picture; those at the right and lower edge may be incomplete. */
  function UnitsOf(w: nat, h: nat): nat {
    (w + 15) / 16 * ((h + 15) / 16)
  }

  /** What ax206_compress_jpeg puts at the front: the size, four luma blocks to a unit, and the numbers
      of the tables for Y, Cb and Cr: quantisation, DC and AC. */
  function Header(w: nat, h: nat): (r: bytes)
    ensures |r| == 16
  {
    ToBe16(w) + ToBe16(h) + [3, 0, 1, 1, 0, 1, 1, 0, 1, 1, 0, 0]
  }

  /** A group of tables behind its length. */
  function Sized(tables: bytes): (r: bytes)
    ensures |r| == |tables| + 2
  {
    ToBe16(|tables| + 2) + tables
  }

  /** The output buffer before the first unit is written. */
  ghost predicate Prepared(was: bytes, w: nat, h: nat, dqt: bytes, dht: bytes) {
    var tables, start := 16 + 8 * UnitsOf(w, h), Start(w, h, dqt, dht);
    && |dqt| < 0xfffe && |dht| < 0xfffe && start <= |was|
    && was[..16] == Header(w, h) && was[tables..start] == Sized(dqt) + Sized(dht)
  }

  /** Where the Huffman data starts. */
  function Start(w: nat, h: nat, dqt: bytes, dht: bytes): nat {
    16 + 8 * UnitsOf(w, h) + |Sized(dqt)| + |Sized(dht)|
  }

  /** What the decoder takes from a header; the Huffman tables stand between `tables` and `start`. */
  datatype Scan = Scan(units: nat, lumaBlocks: nat, tables: nat, start: nat, dc: seq<nat>, ac: seq<nat>)

  /** The size in the header, rounded up by ax203_decode_image if the screen's is not a multiple of 16. */
  function SizeInHeader(src: bytes, w: nat, h: nat): (nat, nat)
    requires |src| >= 4
  {
    if w % 16 != 0 || h % 16 != 0 then (RoundUp(w), RoundUp(h)) else (Be16(src[0..2]), Be16(src[2..4]))
  }

  /** Units of a picture whose size is a multiple of theirs, which is 16 or 8 pixels. */
  function WholeUnits(size: (nat, nat), fourLuma: bool): nat {
    if fourLuma then size.0 / 16 * (size.1 / 16) else size.0 / 8 * (size.1 / 8)
  }

  /** tinyjpeg_parse_header, up to the tables: their place, or None for a header it does not take. */
  function TablesAt(src: bytes, size: (nat, nat)): Option<nat>
    requires |src| >= 16
  {
    if size.0 > 2048 || size.1 > 2048 || size.0 % 8 != 0 || size.1 % 8 != 0 then None
    else if src[4] != 0 && src[4] != 3 then None
    else if exists i :: 5 <= i < 14 && src[i] > 1 then None
    else Some(16 + 8 * WholeUnits(size, src[4] == 3))
  }

  /** The two groups of tables lie in the file: the decoder does not check that. */
  predicate TablesInside(src: bytes, at: nat) {
    at + 2 <= |src| && at + Be16(src[at..at + 2]) + 2 <= |src|
  }

  /** ax203_decode_image, up to the decoding: None is CORRUPTED_DATA. */
  function OpenScan(src: bytes, w: nat, h: nat): (r: Option<Scan>)
    requires |src| >= 16
    requires var at := TablesAt(src, SizeInHeader(src, w, h)); at.Some? ==> TablesInside(src, at.value)
  {
    var size := SizeInHeader(src, w, h);
    var rowSkip := if w % 16 != 0 || h % 16 != 0 then (size.0 - w) * 3 else 0;
    match TablesAt(src, size)
    case None => None
    case Some(at) =>
      if rowSkip == 0 && size != (w, h) then None
      else
        var dht := at + Be16(src[at..at + 2]);
        Some(Scan(WholeUnits(size, src[4] == 3), if src[4] == 3 then 4 else 1, dht, dht + Be16(src[dht..dht + 2]),
                  [src[8], src[9], src[10]], [src[11], src[12], src[13]]))
  }

  /** A screen whose width is a multiple of 16 but whose height is not shows no picture, whatever is stored:
      the rounded height is compared with the screen's. */
  lemma NeverShown(src: bytes, w: nat, h: nat)
    requires |src| >= 16 && w % 16 == 0 && h % 16 != 0
    requires var at := TablesAt(src, SizeInHeader(src, w, h)); at.Some? ==> TablesInside(src, at.value)
    ensures OpenScan(src, w, h) == None
  {
    assert RoundUp(w) == w && RoundUp(h) != h;
  }

  /** Of the resolutions the driver accepts, this holds for 160x120 alone. */
  lemma OnlyOneScreenIsBlank(k: nat)
    requires k < |RESOLUTIONS|
    ensures RESOLUTIONS[k].0 % 16 == 0 && RESOLUTIONS[k].1 % 16 != 0 <==> RESOLUTIONS[k] == (160, 120)
  {
  }

  lemma NothingOn160x120(src: bytes)
    requires |src| >= 16
    requires var at := TablesAt(src, SizeInHeader(src, 160, 120)); at.Some? ==> TablesInside(src, at.value)
    ensures (160, 120) in RESOLUTIONS && OpenScan(src, 160, 120) == None
  {
    assert RESOLUTIONS[5] == (160, 120);
    NeverShown(src, 160, 120);
  }

  /** The decoder finds what the compressor wrote in front of the Huffman data, unless the screen is such a one. */
  lemma HeaderRoundTrip(file: bytes, w: nat, h: nat, dqt: bytes, dht: bytes)
    requires 0 < w <= 2048 && 0 < h <= 2048 && |dqt| < 0xfffe && |dht| < 0xfffe
    requires Start(w, h, dqt, dht) <= |file| && file[..16] == Header(w, h)
    requires file[16 + 8 * UnitsOf(w, h)..Start(w, h, dqt, dht)] == Sized(dqt) + Sized(dht)
    ensures TablesAt(file, SizeInHeader(file, w, h)) == Some(16 + 8 * UnitsOf(w, h))
    ensures TablesInside(file, 16 + 8 * UnitsOf(w, h))
    ensures OpenScan(file, w, h) ==
            if w % 16 != 0 || h % 16 == 0
            then Some(Scan(UnitsOf(w, h), 4, Start(w, h, dqt, dht) - |Sized(dht)|, Start(w, h, dqt, dht), [0, 1, 1], [0, 1, 1]))
            else None
  {
    hide Start, Sized, UnitsOf, WholeUnits, RoundUp, Header;
    StartIs(w, h, dqt, dht);
    HeaderFields(file, w, h);
    RoundedUnits(w, h);
    TableLengths(file, 16 + 8 * UnitsOf(w, h), dqt, dht);
  }

  /** The Huffman tables end where the Huffman data starts. */
  lemma TablesInFile(file: bytes, w: nat, h: nat, dqt: bytes, dht: bytes)
    requires Start(w, h, dqt, dht) <= |file|
    requires file[16 + 8 * UnitsOf(w, h)..Start(w, h, dqt, dht)] == Sized(dqt) + Sized(dht)
    ensures file[Start(w, h, dqt, dht) - |dht|..Start(w, h, dqt, dht)] == dht
  {
    hide Start, Sized, UnitsOf;
    StartIs(w, h, dqt, dht);
    LastPart(file, 16 + 8 * UnitsOf(w, h), Sized(dqt), dht);
  }

  lemma LastPart(file: bytes, at: nat, front: bytes, tables: bytes)
    requires at + |front| + |tables| + 2 <= |file|
    requires file[at..at + |front| + |Sized(tables)|] == front + Sized(tables)
    ensures var end := at + |front| + |Sized(tables)|; file[end - |tables|..end] == tables
  {
    hide ToBe16;
    var end := at + |front| + |Sized(tables)|;
    assert file[end - |tables|..end] == file[at..end][|front| + 2..];
    assert (front + Sized(tables))[|front| + 2..] == Sized(tables)[2..];
  }

  lemma StartIs(w: nat, h: nat, dqt: bytes, dht: bytes)
    ensures Start(w, h, dqt, dht) == 16 + 8 * UnitsOf(w, h) + |Sized(dqt)| + |Sized(dht)|
  {
    hide UnitsOf;
  }

  lemma HeaderFields(file: bytes, w: nat, h: nat)
    requires w < 0x10000 && h < 0x10000 && |file| >= 16 && file[..16] == Header(w, h)
    ensures Be16(file[0..2]) == w && Be16(file[2..4]) == h && file[4] == 3
    ensures forall i :: 5 <= i < 14 ==> file[i] <= 1
    ensures file[8] == 0 && file[9] == 1 && file[10] == 1 && file[11] == 0 && file[12] == 1 && file[13] == 1
  {
    Le16RoundTrip(w);
    Le16RoundTrip(h);
    var r := Header(w, h);
    assert forall i :: 0 <= i < 16 ==> file[i] == file[..16][i];
    assert file[0..2] == ToBe16(w);
    assert file[2..4] == ToBe16(h);
  }

  lemma RoundedUnits(w: nat, h: nat)
    requires 0 < w <= 2048 && 0 < h <= 2048
    ensures RoundUp(w) <= 2048 && RoundUp(h) <= 2048 && RoundUp(w) % 16 == 0 && RoundUp(h) % 16 == 0
    ensures WholeUnits((RoundUp(w), RoundUp(h)), true) == UnitsOf(w, h)
    ensures w % 16 == h % 16 == 0 ==> WholeUnits((w, h), true) == UnitsOf(w, h)
    ensures (w % 16 == 0 <==> RoundUp(w) == w) && (h % 16 == 0 <==> RoundUp(h) == h)
  {
    assert RoundUp(w) / 16 == (w + 15) / 16 && RoundUp(h) / 16 == (h + 15) / 16;
  }

  lemma TableLengths(file: bytes, at: nat, dqt: bytes, dht: bytes)
    requires |dqt| < 0xfffe && |dht| < 0xfffe && at + |Sized(dqt)| + |Sized(dht)| <= |file|
    requires file[at..at + |Sized(dqt)| + |Sized(dht)|] == Sized(dqt) + Sized(dht)
    ensures Be16(file[at..at + 2]) == |Sized(dqt)|
    ensures Be16(file[at + |Sized(dqt)|..at + |Sized(dqt)| + 2]) == |Sized(dht)|
  {
    Le16RoundTrip(|dqt| + 2);
    Le16RoundTrip(|dht| + 2);
    var a, b := Sized(dqt), Sized(dht);
    FirstTwo(dqt);
    FirstTwo(dht);
    SliceOfSlice(file, at, a + b, 0);
    SliceOfSlice(file, at, a + b, |a|);
    assert (a + b)[0..2] == a[..2] && (a + b)[|a|..|a| + 2] == b[..2];
  }

  lemma FirstTwo(tables: bytes)
    ensures Sized(tables)[..2] == ToBe16(|tables| + 2)
  {
    hide ToBe16;
  }

  lemma SliceOfSlice(file: bytes, at: nat, s: bytes, k: nat)
    requires at + |s| <= |file| && file[at..at + |s|] == s && k + 2 <= |s|
    ensures file[at + k..at + k + 2] == s[k..k + 2]
  {
    assert file[at..at + |s|][k] == file[at + k] && file[at..at + |s|][k + 1] == file[at + k + 1];
  }

  // ---- reading back ----

  /** The segments define the tables the header numbers: 0 for Y, 1 for Cb and Cr. */
  ghost predicate AllDefined(segments: seq<Segment>) {
    && AllWellFormed(segments)
    && BookFor(segments, 0).Some? && BookFor(segments, 4).Some? && BookFor(segments, 1).Some? && BookFor(segments, 5).Some?
  }

  ghost function BooksIn(segments: seq<Segment>): Books
    requires AllDefined(segments)
  {
    var chroma := Coder(BookFor(segments, 1).value, BookFor(segments, 5).value);
    Books(chroma, chroma, Coder(BookFor(segments, 0).value, BookFor(segments, 4).value))
  }

  lemma CodableBooks(b: Books, mcus: seq<Mcu>)
    requires AllCodable(b, mcus) && mcus != []
    ensures b.Valid()
  {
    hide LumaCodable, Codable;
    assert UnitCodable(b, mcus, 0);
  }

  method NewTables() returns (tables: seq<HuffmanTable>)
    ensures |tables| == 8 && Separate(tables) && fresh(AllParts(tables))
  {
    tables := [];
    for i := 0 to 8
      invariant |tables| == i && Separate(tables) && forall k :: 0 <= k < i ==> fresh(Parts(tables[k]))
    {
      var table := new HuffmanTable();
      tables := tables + [table];
    }
  }

  lemma TablesUsable(tables: seq<HuffmanTable>, segments: seq<Segment>)
    requires |tables| == 8 && AllDefined(segments) && Loaded(tables, segments) && BooksIn(segments).Valid()
    ensures PairUsable(tables[0], tables[4], BooksIn(segments).y)
    ensures PairUsable(tables[1], tables[5], BooksIn(segments).cb) && PairUsable(tables[1], tables[5], BooksIn(segments).cr)
  {
    hide BookFor, CodeBook.Valid, HuffmanTable.Represents;
    assert Represented(tables[0], BookFor(segments, 0).value) && Represented(tables[4], BookFor(segments, 4).value);
    assert Represented(tables[1], BookFor(segments, 1).value) && Represented(tables[5], BookFor(segments, 5).value);
  }

  lemma UnitsPositive(w: nat, h: nat)
    requires w > 0 && h > 0
    ensures UnitsOf(w, h) > 0
  {
    MulAtLeast((w + 15) / 16, (h + 15) / 16);
  }

  /** What the compressor wrote for a picture of w x h pixels, the driver shows again, coefficient for
      coefficient, exactly if it takes the Huffman tables and the width is not a multiple of 16 or the height is one. */
  method ReadBack(buf: bytes, w: nat, h: nat, outc: nat, extra: byte, ghost was: bytes, ghost dqt: bytes,
                  ghost segments: seq<Segment>, ghost picture: seq<Mcu>)
    returns (shown: Option<seq<Mcu>>)
    requires 0 < w <= 2048 && 0 < h <= 2048 && AllDefined(segments)
    requires |picture| == UnitsOf(w, h) && forall i :: 0 <= i < |picture| ==> |picture[i].y| == 4
    requires var b, mcus, dht := BooksIn(segments), InCodingOrder(picture), AllStored(segments);
      && AllCodable(b, mcus) && Prepared(was, w, h, dqt, dht)
      && PackedUpTo(buf, was, b, mcus, Start(w, h, dqt, dht), |picture|)
      && outc == Start(w, h, dqt, dht) + |Coded(b, mcus, |picture|)|
    ensures shown ==
      if (forall k :: 0 <= k < |segments| ==> segments[k].Accepted()) && (w % 16 != 0 || h % 16 == 0) then Some(picture)
      else None
  {
    hide AllCodable, ScanSpec, EntriesUpTo, Coded, CodeBook.Valid, InCodingOrder, NaturalAll, OpenScan, BookFor, BooksIn;
    hide Header, Sized, Start, UnitsOf, SizeInHeader, TablesAt, TablesInside, AllStored, Segment.Accepted, PairUsable;
    hide AllParts, Separate, Loaded, Books.Valid, Segment.WellFormed;
    ghost var b, dht := BooksIn(segments), AllStored(segments);
    ghost var start := Start(w, h, dqt, dht);
    var file := FileWith(buf, outc, extra);
    FrontOfFile(buf, was, w, h, dqt, dht, b, InCodingOrder(picture), outc, extra);
    HeaderRoundTrip(file, w, h, dqt, dht);
    TablesInFile(file, w, h, dqt, dht);
    UnitsPositive(w, h);
    CodableBooks(b, InCodingOrder(picture));
    match OpenScan(file, w, h) {
      case None =>
        shown := None;
      case Some(scan) =>
        var tables := NewTables();
        var ok := ParseDht(file[scan.tables + 2..scan.start], tables, segments);
        if !ok {
          return None;
        }
        TablesUsable(tables, segments);
        shown := DecodeScan(file, scan, tables, buf, was, outc, extra, b, picture);
    }
  }

  /** The decoding, once the tables are there. */
  method DecodeScan(file: bytes, scan: Scan, tables: seq<HuffmanTable>, ghost buf: bytes, ghost was: bytes, ghost outc: nat,
                    ghost extra: byte, ghost b: Books, ghost picture: seq<Mcu>)
    returns (shown: Option<seq<Mcu>>)
    requires |tables| == 8 && PairUsable(tables[0], tables[4], b.y) && PairUsable(tables[1], tables[5], b.cb)
    requires PairUsable(tables[1], tables[5], b.cr) && b.Valid()
    requires scan.units == |picture| && scan.lumaBlocks == 4 && scan.dc == scan.ac == [0, 1, 1]
    requires forall i :: 0 <= i < |picture| ==> |picture[i].y| == 4
    requires AllCodable(b, InCodingOrder(picture))
    requires PackedUpTo(buf, was, b, InCodingOrder(picture), scan.start, |picture|)
    requires outc == scan.start + |Coded(b, InCodingOrder(picture), |picture|)| && file == FileWith(buf, outc, extra)
    ensures shown == Some(picture)
  {
    hide AllCodable, ScanSpec, EntriesUpTo, Coded, CodeBook.Valid, InCodingOrder, NaturalAll, PairUsable, Books.Valid;
    PictureRoundTrip(buf, was, b, InCodingOrder(picture), scan.start, extra, 4);
    NaturalOfCodingOrder(picture);
    var cb := (tables[scan.dc[1]], tables[4 + scan.ac[1]]);
    var cr := (tables[scan.dc[2]], tables[4 + scan.ac[2]]);
    var y := (tables[scan.dc[0]], tables[4 + scan.ac[0]]);
    var decoder := new JpegDecoder(cb, cr, y, b, file[scan.start..]);
    var ok, units := decoder.Decode(scan.lumaBlocks, scan.units);
    shown := if ok then Some(units) else None;
  }

  /** The units are written behind the header and the tables, which stay as they were. */
  lemma FrontOfFile(buf: bytes, was: bytes, w: nat, h: nat, dqt: bytes, dht: bytes, b: Books, mcus: seq<Mcu>, outc: nat, extra: byte)
    requires |mcus| == UnitsOf(w, h) && AllCodable(b, mcus) && Prepared(was, w, h, dqt, dht)
    requires PackedUpTo(buf, was, b, mcus, Start(w, h, dqt, dht), |mcus|)
    requires outc == Start(w, h, dqt, dht) + |Coded(b, mcus, |mcus|)|
    ensures var file := FileWith(buf, outc, extra);
      && Start(w, h, dqt, dht) <= |file| && file[..16] == Header(w, h)
      && file[16 + 8 * UnitsOf(w, h)..Start(w, h, dqt, dht)] == Sized(dqt) + Sized(dht)
  {
    hide AllCodable, EntriesUpTo, Coded, Header, Sized, Start, UnitsOf;
    var file, tables, start := FileWith(buf, outc, extra), 16 + 8 * UnitsOf(w, h), Start(w, h, dqt, dht);
    assert file[..16] == buf[..16];
    assert file[tables..start] == buf[tables..start];
  }

  // ---- an example ----

  /** The code with the one symbol 0. */
  const ONE_SYMBOL := CodeBook([1], [0])

  const BLANK: block := seq(64, _ => 0)

  const BLANK_UNIT := Mcu(BLANK, BLANK, [BLANK, BLANK, BLANK, BLANK])

  const SIMPLE := Books(Coder(ONE_SYMBOL, ONE_SYMBOL), Coder(ONE_SYMBOL, ONE_SYMBOL), Coder(ONE_SYMBOL, ONE_SYMBOL))

  lemma OneSymbolValid()
    ensures ONE_SYMBOL.Valid() && ONE_SYMBOL.Has(0)
  {
    Pow2Small();
    assert Left(ONE_SYMBOL.sizes, 1) == Left(ONE_SYMBOL.sizes, 0) + Pow2(15);
    assert ONE_SYMBOL.symbols[0] == 0;
  }

  /** As it is stored: one code word, of one bit. */
  function SegmentFor(index: byte): Segment {
    Segment(index, [1] + Repeat(0, 15), [0])
  }

  lemma SegmentBook(index: byte)
    ensures SegmentFor(index).WellFormed() && SegmentFor(index).Accepted() <==> index % 16 < 4
    ensures SegmentFor(index).WellFormed() && SegmentFor(index).Book() == ONE_SYMBOL
  {
    hide Left, Pow2, Kraft;
    var counts := [1] + Repeat(0, 15);
    var bits := Counts(counts);
    OneSymbolValid();
    assert counts[0] == 1 && forall i :: 1 <= i < 16 ==> counts[i] == 0;
    assert bits[1] == 1 && forall n :: 1 < n <= 16 ==> bits[n] == 0;
    SizesOfNone(bits, 1, 16);
    assert SizesOf(bits, 0) == [];
    assert SizesOf(bits, 1) == [1];
    assert counts[..1] == [1];
    SumOfZeros(counts, 16);
    assert counts[..16] == counts;
  }

  lemma {:induction false} SumOfZeros(counts: bytes, n: nat)
    requires 1 <= n <= |counts| && counts[0] == 1 && forall i :: 1 <= i < |counts| ==> counts[i] == 0
    ensures Sum(counts[..n]) == 1
  {
    if n > 1 {
      SumOfZeros(counts, n - 1);
      assert counts[..n][..n - 1] == counts[..n - 1];
    } else {
      assert counts[..1] == [1] && [1 as byte][..0] == [];
    }
  }

  /** Four stored tables that make up the books of the example. */
  lemma SimpleSegments()
    ensures var segments := [SegmentFor(0x00), SegmentFor(0x10), SegmentFor(0x01), SegmentFor(0x11)];
      AllDefined(segments) && BooksIn(segments) == SIMPLE
  {
    hide Segment.WellFormed, Segment.Book, Segment.Accepted;
    var a, b, c, d := SegmentFor(0x00), SegmentFor(0x10), SegmentFor(0x01), SegmentFor(0x11);
    SegmentBook(0x00);
    SegmentBook(0x10);
    SegmentBook(0x01);
    SegmentBook(0x11);
    assert a.Table() == 0 && b.Table() == 4 && c.Table() == 1 && d.Table() == 5;
    assert [a, b, c, d][..3] == [a, b, c] && [a, b, c][..2] == [a, b] && [a, b][..1] == [a];
    assert BookFor([a], 0) == Some(ONE_SYMBOL);
    assert BookFor([a, b], 0) == Some(ONE_SYMBOL) && BookFor([a, b], 4) == Some(ONE_SYMBOL);
    assert BookFor([a, b, c], 0) == BookFor([a, b], 0) && BookFor([a, b, c], 4) == BookFor([a, b], 4);
  }

  lemma {:induction false} BlankRun(j: nat)
    requires 1 <= j <= 64
    ensures ZeroRun(BLANK, j) == 64 - j
    decreases 64 - j
  {
    if j < 64 {
      BlankRun(j + 1);
    }
  }

  lemma BlankBlock()
    ensures Codable(Coder(ONE_SYMBOL, ONE_SYMBOL), BLANK, 0)
  {
    hide AcItems, ZeroRun, CodeBook.Valid, CodeBook.Has;
    OneSymbolValid();
    BlankRun(1);
    AcItemsCases(BLANK, 1);
    assert Category(0) == 0;
    assert AcItems(BLANK, 1) == [Item(0x00, [])];
    assert CanEncode(ONE_SYMBOL, AcItems(BLANK, 1));
    assert CanEncode(ONE_SYMBOL, [DcItem(BLANK[0] - 0)]);
    assert Coder(ONE_SYMBOL, ONE_SYMBOL).Valid();
  }

  /** A blank picture of any size can be coded, even with one symbol. */
  lemma BlankPicture(n: nat)
    ensures AllCodable(SIMPLE, seq(n, _ => BLANK_UNIT))
  {
    hide Codable;
    var mcus := seq(n, _ => BLANK_UNIT);
    BlankBlock();
    forall k | 0 <= k < n ensures UnitCodable(SIMPLE, mcus, k) {
      BlankPredictors(mcus, k);
      BlankUnit();
    }
  }

  lemma {:induction false} BlankPredictors(mcus: seq<Mcu>, k: nat)
    requires k <= |mcus| && forall i :: 0 <= i < |mcus| ==> mcus[i] == BLANK_UNIT
    ensures LastBefore(mcus, k) == ZERO
  {
    if k > 0 {
      BlankPredictors(mcus, k - 1);
    }
  }

  lemma BlankUnit()
    ensures McuCodable(SIMPLE, BLANK_UNIT, ZERO) && LumaNear(BLANK_UNIT.y, 0)
  {
    hide Codable, CodeBook.Valid;
    BlankBlock();
    OneSymbolValid();
    var c := Coder(ONE_SYMBOL, ONE_SYMBOL);
    assert LumaCodable(c, [], 0);
    assert [BLANK][1..] == [] && [BLANK, BLANK][1..] == [BLANK];
    assert LumaCodable(c, [BLANK], 0);
    assert LumaCodable(c, [BLANK, BLANK], 0);
    assert [BLANK, BLANK, BLANK][1..] == [BLANK, BLANK];
    assert LumaCodable(c, [BLANK, BLANK, BLANK], 0);
    assert BLANK_UNIT.y[1..] == [BLANK, BLANK, BLANK];
  }
}
