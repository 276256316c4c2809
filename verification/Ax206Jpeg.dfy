/** The AX206 picture format: re-packing a JPEG unit by unit, and decoding the result. */
module Ax206Jpeg {
  import opened Bytes
  import opened Bits
  import opened DataUnits
  import opened EntropyBytes
  import opened McuCoding
  import opened Options

  // ---- what the compressor is to write ----

  /** Predictors in force before unit `k`. */
  function LastBefore(mcus: seq<Mcu>, k: nat): Predictors
    requires k <= |mcus|
  {
    if k == 0 then ZERO else After(mcus[k - 1], LastBefore(mcus, k - 1))
  }

  /** The tables have a code for everything in the picture, as they do in the JPEG it comes from. */
  ghost predicate AllCodable(b: Books, mcus: seq<Mcu>) {
    forall k :: 0 <= k < |mcus| ==> UnitCodable(b, mcus, k)
  }

  ghost predicate UnitCodable(b: Books, mcus: seq<Mcu>, k: nat)
    requires k < |mcus|
  {
    var last := LastBefore(mcus, k);
    McuCodable(b, mcus[k], last) && LumaNear(mcus[k].y, last.y)
  }

  function UnitBytes(b: Books, mcus: seq<Mcu>, k: nat): bytes
    requires AllCodable(b, mcus) && k < |mcus|
  {
    assert UnitCodable(b, mcus, k);
    Pack(McuBits(b, mcus[k], LastBefore(mcus, k)))
  }

  /** The first `k` units, each from a byte boundary on. */
  function Coded(b: Books, mcus: seq<Mcu>, k: nat): bytes
    requires AllCodable(b, mcus) && k <= |mcus|
  {
    if k == 0 then [] else Coded(b, mcus, k - 1) + UnitBytes(b, mcus, k - 1)
  }

  lemma {:induction false} CodedPrefix(b: Books, mcus: seq<Mcu>, k: nat, n: nat)
    requires AllCodable(b, mcus) && k <= n <= |mcus|
    ensures Coded(b, mcus, k) <= Coded(b, mcus, n)
  {
    hide AllCodable, UnitBytes;
    if k < n {
      CodedPrefix(b, mcus, k, n - 1);
    }
  }

  lemma BitsBehind(front: bytes, back: bytes)
    ensures BitsOf(front + back)[8 * |front|..] == BitsOf(back)
  {
    hide BitsOf;
    BitsOfConcat(front, back);
  }

  /** Decoding unit `k` from its byte offset and predictors alone; at least one byte must follow the last unit. */
  lemma UnitAlone(data: bytes, start: nat, b: Books, mcus: seq<Mcu>, k: nat)
    requires AllCodable(b, mcus) && k < |mcus| && b.Valid()
    requires start <= |data| && Coded(b, mcus, |mcus|) < data[start..]
    ensures start + |Coded(b, mcus, k)| <= |data|
    ensures var r := McuSpec(BitsOf(data)[8 * (start + |Coded(b, mcus, k)|)..], b, LastBefore(mcus, k), |mcus[k].y|);
      && r.Some? && r.value.0 == mcus[k]
      && NextByte(|data|, |r.value.1|) == start + |Coded(b, mcus, k + 1)|
  {
    hide McuSpec, McuBits, McuCodable, LumaNear, Pack, Padded, Books.Valid, LastBefore, BitsOf;
    var last := LastBefore(mcus, k);
    assert UnitCodable(b, mcus, k);
    var bits := McuBits(b, mcus[k], last);
    var before, next := Coded(b, mcus, k), Coded(b, mcus, k + 1);
    CodedPrefix(b, mcus, k + 1, |mcus|);
    assert next == before + Pack(bits);
    var at := start + |before|;
    var tail := data[start + |next|..];
    assert data[at..] == Pack(bits) + tail by {
      assert data[start..][..|next|] == next;
    }
    BitsBehind(data[..at], data[at..]);
    assert data == data[..at] + data[at..];
    BitsOfConcat(Pack(bits), tail);
    BitsOfPack(bits);
    var rest := Padded(bits)[|bits|..] + BitsOf(tail);
    assert BitsOf(data)[8 * at..] == bits + rest;
    McuRoundTrip(b, mcus[k], last, rest);
  }

  /** Decoding the coded units gives them back. */
  lemma {:induction false} ScanRoundTrip(data: bytes, start: nat, b: Books, mcus: seq<Mcu>, k: nat, n: nat)
    requires AllCodable(b, mcus) && k <= |mcus| && b.Valid() && forall i :: 0 <= i < |mcus| ==> |mcus[i].y| == n
    requires start <= |data| && Coded(b, mcus, |mcus|) < data[start..]
    ensures start + |Coded(b, mcus, k)| <= |data|
    ensures ScanSpec(data, start + |Coded(b, mcus, k)|, b, LastBefore(mcus, k), n, |mcus| - k)
         == Some((mcus[k..], start + |Coded(b, mcus, |mcus|)|))
    decreases |mcus| - k
  {
    hide McuSpec, Coded, AllCodable, Books.Valid, BitsOf;
    CodedPrefix(b, mcus, k, |mcus|);
    if k < |mcus| {
      UnitAlone(data, start, b, mcus, k);
      ScanRoundTrip(data, start, b, mcus, k + 1, n);
      assert mcus[k..] == [mcus[k]] + mcus[k + 1..];
    } else {
      assert mcus[k..] == [];
    }
  }

  // ---- the unit table in the file header ----

  /** The eight bytes stored for one unit, 16 bit fields in two's complement. */
  function InfoBytes(last: Predictors, address: int): (r: bytes)
    ensures |r| == 8
  {
    ToLe16(last.y % 0x10000) + ToLe16(last.cb % 0x10000) + ToLe16(last.cr % 0x10000) + ToLe16(address % 0x10000)
  }

  /** The stored address is relative to the end of the header and drops 8 more for every earlier unit. */
  function InfoOf(b: Books, mcus: seq<Mcu>, start: nat, k: nat): (r: bytes)
    requires AllCodable(b, mcus) && k <= |mcus|
    ensures |r| == 8
  {
    InfoBytes(LastBefore(mcus, k), start + |Coded(b, mcus, k)| - 16 - 8 * k)
  }

  /** add_mcu_info */
  method AddMcuInfo(outbuf: array<byte>, k: nat, last: Predictors, huffmanAddr: nat)
    requires 16 + 8 * k + 8 <= outbuf.Length
    modifies outbuf
    ensures outbuf[..] == Splice(old(outbuf[..]), 16 + 8 * k, InfoBytes(last, huffmanAddr - 16 - 8 * k))
  {
    hide ToLe16, Splice;
    var at, address := 16 + 8 * k, huffmanAddr - 16 - 8 * k;
    FourFields(outbuf[..], at, ToLe16(last.y % 0x10000), ToLe16(last.cb % 0x10000),
               ToLe16(last.cr % 0x10000), ToLe16(address % 0x10000));
    Put16(outbuf, at, last.y);
    Put16(outbuf, at + 2, last.cb);
    Put16(outbuf, at + 4, last.cr);
    Put16(outbuf, at + 6, address);
  }

  lemma FourFields(s: bytes, at: nat, a: bytes, b: bytes, c: bytes, d: bytes)
    requires |a| == |b| == |c| == |d| == 2 && at + 8 <= |s|
    ensures Splice(Splice(Splice(Splice(s, at, a), at + 2, b), at + 4, c), at + 6, d) == Splice(s, at, a + b + c + d)
  {
    hide Splice;
    SpliceAppend(s, at, a, b);
    SpliceAppend(s, at, a + b, c);
    SpliceAppend(s, at, a + b + c, d);
  }

  method Put16(outbuf: array<byte>, at: nat, v: int)
    requires at + 2 <= outbuf.Length
    modifies outbuf
    ensures outbuf[..] == Splice(old(outbuf[..]), at, ToLe16(v % 0x10000))
  {
    Low16(v);
    outbuf[at], outbuf[at + 1] := v % 0x100, v / 0x100 % 0x100;
  }

  /** The low two bytes of an int. */
  lemma Low16(v: int)
    ensures ToLe16(v % 0x10000) == [v % 0x100, v / 0x100 % 0x100]
  {
    var a, l := v / 0x100, v % 0x100;
    var q, h := a / 0x100, a % 0x100;
    Mod16(v, q, 0x100 * h + l);
    Mod8(0x100 * h + l, h, l);
    Mod8(h, 0, h);
  }

  lemma Mod16(v: int, q: int, r: nat)
    requires v == 0x10000 * q + r && r < 0x10000
    ensures v % 0x10000 == r
  {
  }

  lemma Mod8(v: int, q: int, r: nat)
    requires v == 0x100 * q + r && r < 0x100
    ensures v % 0x100 == r && v / 0x100 == q
  {
  }

  /** A stored 16 bit field as a signed number. */
  function Signed16(s: bytes): int
    requires |s| == 2
  {
    if Le16(s) >= 0x8000 then Le16(s) - 0x10000 else Le16(s)
  }

  lemma Signed16Field(v: int)
    requires -0x8000 <= v < 0x8000
    ensures Signed16(ToLe16(v % 0x10000)) == v
  {
  }

  // ---- the compressor ----

  /** Entropy-coded bytes of a JPEG holding this one unit, which is all the compressor uses of it. */
  function MiniJpeg(b: Books, m: Mcu): bytes
    requires McuCodable(b, m, ZERO)
  {
    Stuff(Pack(McuBits(b, m, ZERO)))
  }

  function Entry(buf: bytes, k: nat): (r: bytes)
    requires 16 + 8 * k + 8 <= |buf|
    ensures |r| == 8
  {
    buf[16 + 8 * k..16 + 8 * k + 8]
  }

  ghost predicate EntriesUpTo(buf: bytes, b: Books, mcus: seq<Mcu>, start: nat, k: nat)
    requires AllCodable(b, mcus) && k <= |mcus| && 16 + 8 * k <= |buf|
  {
    forall i :: 0 <= i < k ==> Entry(buf, i) == InfoOf(b, mcus, start, i)
  }

  /** The output buffer after `k` units: their table entries and their bytes; header and tables untouched. */
  ghost predicate PackedUpTo(buf: bytes, was: bytes, b: Books, mcus: seq<Mcu>, start: nat, k: nat)
    requires AllCodable(b, mcus) && k <= |mcus|
  {
    var outc := start + |Coded(b, mcus, k)|;
    && 16 + 8 * |mcus| <= start && outc <= |buf| == |was|
    && buf[..16] == was[..16] && buf[16 + 8 * k..start] == was[16 + 8 * k..start]
    && EntriesUpTo(buf, b, mcus, start, k)
    && buf[start..outc] == Coded(b, mcus, k)
  }

  /** The overflow test of the compressor looks at the bytes before the stuffed zeros are dropped. */
  ghost predicate UnitFits(b: Books, mcus: seq<Mcu>, start: nat, size: nat, k: nat)
    requires AllCodable(b, mcus) && k < |mcus|
  {
    start + |Coded(b, mcus, k)| + |Stuff(UnitBytes(b, mcus, k))| <= size
  }

  /** The unit loop of ax206_compress_jpeg. */
  method Repack(outbuf: array<byte>, start: nat, b: Books, mcus: seq<Mcu>) returns (ok: bool, outc: nat)
    requires AllCodable(b, mcus) && 16 + 8 * |mcus| <= start <= outbuf.Length
    modifies outbuf
    ensures ok <==> forall k :: 0 <= k < |mcus| ==> UnitFits(b, mcus, start, outbuf.Length, k)
    ensures ok ==> outc == start + |Coded(b, mcus, |mcus|)|
    ensures ok ==> PackedUpTo(outbuf[..], old(outbuf[..]), b, mcus, start, |mcus|)
  {
    hide *;
    ghost var was := outbuf[..];
    var last, k := ZERO, 0;
    outc := start;
    Beginning(b, mcus);
    PackedNone(outbuf[..], b, mcus, start);
    while k < |mcus|
      invariant 0 <= k <= |mcus| && last == LastBefore(mcus, k)
      invariant outc == start + |Coded(b, mcus, k)| && PackedUpTo(outbuf[..], was, b, mcus, start, k)
      invariant forall i :: 0 <= i < k ==> UnitFits(b, mcus, start, outbuf.Length, i)
    {
      var copied;
      ok, copied, last := RepackUnit(outbuf, start, b, mcus, k, last, outc, was);
      if !ok {
        return;
      }
      k, outc := k + 1, outc + copied;
    }
    ok := true;
  }

  method RepackUnit(outbuf: array<byte>, start: nat, b: Books, mcus: seq<Mcu>, k: nat, last: Predictors, outc: nat,
                    ghost was: bytes)
    returns (ok: bool, copied: nat, next: Predictors)
    requires AllCodable(b, mcus) && k < |mcus| && last == LastBefore(mcus, k)
    requires outc == start + |Coded(b, mcus, k)| && PackedUpTo(outbuf[..], was, b, mcus, start, k)
    modifies outbuf
    ensures ok <==> UnitFits(b, mcus, start, outbuf.Length, k)
    ensures ok ==> next == LastBefore(mcus, k + 1) && outc + copied == start + |Coded(b, mcus, k + 1)|
    ensures ok ==> PackedUpTo(outbuf[..], was, b, mcus, start, k + 1)
  {
    hide McuBits, McuCodable, LumaNear, Rebase, Stuff, Pack, Splice, InfoBytes, Coded, Kept, EntriesUpTo, AllCodable;
    copied, next := 0, last;
    ghost var before := outbuf[..];
    AddMcuInfo(outbuf, k, last, outc);
    ghost var mid := outbuf[..];
    UnitIsCodable(b, mcus, k);
    RebaseKeepsBits(b, mcus[k], last);
    var mini := MiniJpeg(b, Rebase(mcus[k], last));
    next := After(mcus[k], last);
    ok := outc + |mini| <= outbuf.Length;
    if ok {
      CopyUndoesStuffing(UnitBytes(b, mcus, k));
      copied := CopyHuffman(outbuf, outc, mini);
      CodedNext(b, mcus, k);
      PackedNext(before, mid, outbuf[..], was, b, mcus, start, k);
    }
  }

  lemma PackedNone(buf: bytes, b: Books, mcus: seq<Mcu>, start: nat)
    requires AllCodable(b, mcus) && 16 + 8 * |mcus| <= start <= |buf|
    ensures PackedUpTo(buf, buf, b, mcus, start, 0)
  {
    hide AllCodable;
  }

  lemma CodedNext(b: Books, mcus: seq<Mcu>, k: nat)
    requires AllCodable(b, mcus) && k < |mcus|
    ensures Coded(b, mcus, k + 1) == Coded(b, mcus, k) + UnitBytes(b, mcus, k)
  {
    hide AllCodable, UnitBytes;
  }

  lemma UnitIsCodable(b: Books, mcus: seq<Mcu>, k: nat)
    requires AllCodable(b, mcus) && k < |mcus|
    ensures UnitCodable(b, mcus, k)
  {
  }

  lemma PackedNext(buf: bytes, mid: bytes, now: bytes, was: bytes, b: Books, mcus: seq<Mcu>, start: nat, k: nat)
    requires AllCodable(b, mcus) && k < |mcus| && PackedUpTo(buf, was, b, mcus, start, k)
    requires mid == Splice(buf, 16 + 8 * k, InfoOf(b, mcus, start, k))
    requires var outc, unit := start + |Coded(b, mcus, k)|, UnitBytes(b, mcus, k);
      && outc + |unit| <= |now| == |mid|
      && now[..outc] == mid[..outc] && now[outc..outc + |unit|] == unit
    ensures PackedUpTo(now, was, b, mcus, start, k + 1)
  {
    hide AllCodable, UnitBytes, InfoOf, Splice, Coded, EntriesUpTo;
    var outc := start + |Coded(b, mcus, k)|;
    var at, info := 16 + 8 * k, InfoOf(b, mcus, start, k);
    CodedNext(b, mcus, k);
    Untouched(buf, at, info, mid, now, outc, 0, 16);
    Untouched(buf, at, info, mid, now, outc, at + 8, start);
    Untouched(buf, at, info, mid, now, outc, start, outc);
    assert buf[at + 8..start] == buf[at..start][8..];
    assert was[at + 8..start] == was[at..start][8..];
    EntriesNext(buf, mid, now, b, mcus, start, k, outc);
    assert now[start..outc + |UnitBytes(b, mcus, k)|] == now[start..outc] + UnitBytes(b, mcus, k);
  }

  /** The entry of unit `k` joins the earlier ones. */
  lemma EntriesNext(buf: bytes, mid: bytes, now: bytes, b: Books, mcus: seq<Mcu>, start: nat, k: nat, outc: nat)
    requires AllCodable(b, mcus) && k < |mcus| && 16 + 8 * |mcus| <= start <= outc <= |buf|
    requires EntriesUpTo(buf, b, mcus, start, k) && mid == Splice(buf, 16 + 8 * k, InfoOf(b, mcus, start, k))
    requires outc <= |now| == |mid| && now[..outc] == mid[..outc]
    ensures EntriesUpTo(now, b, mcus, start, k + 1)
  {
    hide AllCodable, InfoOf, Splice;
    var at, info := 16 + 8 * k, InfoOf(b, mcus, start, k);
    forall i | 0 <= i < k + 1 ensures Entry(now, i) == InfoOf(b, mcus, start, i) {
      Untouched(buf, at, info, mid, now, outc, 16 + 8 * i, 16 + 8 * i + 8);
    }
  }

  lemma Untouched(buf: bytes, at: nat, info: bytes, mid: bytes, now: bytes, n: nat, lo: nat, hi: nat)
    requires at + |info| <= |buf| && mid == Splice(buf, at, info)
    requires n <= |now| == |mid| && now[..n] == mid[..n] && lo <= hi <= n
    ensures hi <= at || at + |info| <= lo ==> now[lo..hi] == buf[lo..hi]
    ensures lo == at && hi == at + |info| ==> now[lo..hi] == info
  {
    hide Splice;
    SpliceReads(buf, at, info, lo, hi);
    SamePrefix(now, mid, n, lo, hi);
  }

  lemma SamePrefix(a: bytes, b: bytes, n: nat, lo: nat, hi: nat)
    requires n <= |a| == |b| && a[..n] == b[..n] && lo <= hi <= n
    ensures a[lo..hi] == b[lo..hi]
  {
    assert a[lo..hi] == a[..n][lo..hi];
  }

  // ---- reading the picture back ----

  /** The file as it is decoded: what was written and the one byte the reader allocates behind it. */
  function FileWith(buf: bytes, outc: nat, extra: byte): bytes
    requires outc <= |buf|
  {
    buf[..outc] + [extra]
  }

  lemma CodedInFile(buf: bytes, was: bytes, b: Books, mcus: seq<Mcu>, start: nat, extra: byte)
    requires AllCodable(b, mcus) && PackedUpTo(buf, was, b, mcus, start, |mcus|)
    ensures var file := FileWith(buf, start + |Coded(b, mcus, |mcus|)|, extra);
      start <= |file| && file[start..] == Coded(b, mcus, |mcus|) + [extra]
  {
    hide AllCodable, Coded, EntriesUpTo;
    var outc := start + |Coded(b, mcus, |mcus|)|;
    assert FileWith(buf, outc, extra)[start..] == buf[start..outc] + [extra];
  }

  /** A packed picture decodes to the coefficients it was made from, and exactly one byte is left over. */
  lemma PictureRoundTrip(buf: bytes, was: bytes, b: Books, mcus: seq<Mcu>, start: nat, extra: byte, n: nat)
    requires b.Valid() && AllCodable(b, mcus) && PackedUpTo(buf, was, b, mcus, start, |mcus|)
    requires forall i :: 0 <= i < |mcus| ==> |mcus[i].y| == n
    ensures var file := FileWith(buf, start + |Coded(b, mcus, |mcus|)|, extra);
      && start <= |file|
      && ScanSpec(file[start..], 0, b, ZERO, n, |mcus|) == Some((mcus, |file[start..]| - 1))
  {
    hide AllCodable, Books.Valid, ScanSpec, Coded, EntriesUpTo, FileWith;
    CodedInFile(buf, was, b, mcus, start, extra);
    DataRoundTrip(FileWith(buf, start + |Coded(b, mcus, |mcus|)|, extra)[start..], b, mcus, extra, n);
  }

  lemma DataRoundTrip(data: bytes, b: Books, mcus: seq<Mcu>, extra: byte, n: nat)
    requires b.Valid() && AllCodable(b, mcus) && forall i :: 0 <= i < |mcus| ==> |mcus[i].y| == n
    requires data == Coded(b, mcus, |mcus|) + [extra]
    ensures ScanSpec(data, 0, b, ZERO, n, |mcus|) == Some((mcus, |data| - 1))
  {
    hide *;
    Beginning(b, mcus);
    assert data[0..] == data;
    ScanRoundTrip(data, 0, b, mcus, 0, n);
    assert mcus[0..] == mcus;
  }

  lemma Beginning(b: Books, mcus: seq<Mcu>)
    requires AllCodable(b, mcus)
    ensures LastBefore(mcus, 0) == ZERO && Coded(b, mcus, 0) == []
  {
    hide AllCodable;
  }

  /** Predictors and byte offset read from a table entry. */
  function EntryPredictors(e: bytes): Predictors
    requires |e| == 8
  {
    Predictors(Signed16(e[2..4]), Signed16(e[4..6]), Signed16(e[0..2]))
  }

  function EntryOffset(e: bytes, k: nat): nat
    requires |e| == 8
  {
    Le16(e[6..8]) + 16 + 8 * k
  }

  lemma {:induction false} PredictorsInRange(b: Books, mcus: seq<Mcu>, k: nat)
    requires AllCodable(b, mcus) && k <= |mcus|
    ensures var last := LastBefore(mcus, k);
      -0x8000 <= last.y < 0x8000 && -0x8000 <= last.cb < 0x8000 && -0x8000 <= last.cr < 0x8000
  {
    hide AllCodable, CodeBook.Valid, Coder.Valid, CanEncode, AcItems, DcItem, LumaNear, LumaCodable;
    if k > 0 {
      var last := LastBefore(mcus, k - 1);
      PredictorsInRange(b, mcus, k - 1);
      UnitIsCodable(b, mcus, k - 1);
      LumaInRange(b.y, mcus[k - 1].y, last.y);
    }
  }

  lemma {:induction false} LumaInRange(c: Coder, y: seq<block>, previous: int)
    requires LumaCodable(c, y, previous) && -0x8000 <= previous < 0x8000
    ensures -0x8000 <= LastDc(y, previous) < 0x8000
  {
    hide CodeBook.Valid, Coder.Valid, CanEncode, AcItems, DcItem;
    if y != [] {
      LumaInRange(c, y[1..], y[0][0]);
    }
  }

  /** A table entry always gives the predictors, and gives the offset exactly while 16 bits are enough for it. */
  lemma EntryOfUnit(b: Books, mcus: seq<Mcu>, start: nat, k: nat)
    requires AllCodable(b, mcus) && k <= |mcus| && 16 + 8 * |mcus| <= start
    ensures EntryPredictors(InfoOf(b, mcus, start, k)) == LastBefore(mcus, k)
    ensures (EntryOffset(InfoOf(b, mcus, start, k), k) == start + |Coded(b, mcus, k)|) <==>
            (start + |Coded(b, mcus, k)| - 16 - 8 * k < 0x10000)
  {
    hide AllCodable, Coded, LastBefore, ToLe16, Signed16, Le16;
    var last, address := LastBefore(mcus, k), start + |Coded(b, mcus, k)| - 16 - 8 * k;
    PredictorsInRange(b, mcus, k);
    Signed16Field(last.y);
    Signed16Field(last.cb);
    Signed16Field(last.cr);
    Le16Field(address);
    Fields(ToLe16(last.y % 0x10000), ToLe16(last.cb % 0x10000), ToLe16(last.cr % 0x10000), ToLe16(address % 0x10000));
  }

  lemma Le16Field(v: nat)
    ensures Le16(ToLe16(v % 0x10000)) == v % 0x10000
    ensures v % 0x10000 == v <==> v < 0x10000
  {
  }

  lemma Fields(a: bytes, b: bytes, c: bytes, d: bytes)
    requires |a| == |b| == |c| == |d| == 2
    ensures var s := a + b + c + d; s[0..2] == a && s[2..4] == b && s[4..6] == c && s[6..8] == d
  {
  }

  /** Decoding can start at any unit: its table entry is enough. */
  lemma EntryDecodes(buf: bytes, was: bytes, b: Books, mcus: seq<Mcu>, start: nat, extra: byte, k: nat)
    requires b.Valid() && AllCodable(b, mcus) && PackedUpTo(buf, was, b, mcus, start, |mcus|) && k < |mcus|
    requires start + |Coded(b, mcus, k)| - 16 - 8 * k < 0x10000
    ensures var e, file := Entry(buf, k), FileWith(buf, start + |Coded(b, mcus, |mcus|)|, extra);
      && EntryOffset(e, k) <= |file|
      && var r := McuSpec(BitsOf(file)[8 * EntryOffset(e, k)..], b, EntryPredictors(e), |mcus[k].y|);
         r.Some? && r.value.0 == mcus[k]
  {
    hide AllCodable, Books.Valid, McuSpec, FileWith, InfoOf, EntryPredictors, EntryOffset, Entry, Coded;
    CodedInFile(buf, was, b, mcus, start, extra);
    EntryOfUnit(b, mcus, start, k);
    UnitAlone(FileWith(buf, start + |Coded(b, mcus, |mcus|)|, extra), start, b, mcus, k);
  }
}
