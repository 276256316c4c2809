/** Decoding the coefficients of one 8x8 block, against the bit-by-bit description of
    section F.2.2 of ITU-T T.81 and against its encoder (section F.1.2). */
module DataUnits {
  import opened Bytes
  import opened Bits
  import opened BitReservoir
  import opened Huffman
  import opened HuffmanTables
  import opened Options

  /** A Huffman code: lengths and symbols. */
  datatype CodeBook = CodeBook(sizes: seq<nat>, symbols: bytes) {
    ghost predicate Valid() {
      && IsSizes(sizes) && Kraft(sizes) && |sizes| <= |symbols|
      && (forall i, j :: 0 <= i < j < |sizes| ==> symbols[i] != symbols[j])
    }

    ghost predicate Has(symbol: nat) {
      exists k :: 0 <= k < |sizes| <= |symbols| && symbols[k] == symbol
    }

    function WordFor(symbol: nat): (w: seq<bit>)
      requires Valid() && Has(symbol)
      ensures |w| >= 1
    {
      Word(sizes, SymbolIndex(sizes, symbols, symbol))
    }

    /** The driver finds a symbol unless its code word is hidden. */
    ghost predicate Finds(symbol: nat)
      requires Valid()
    {
      Has(symbol) && (sizes[0] <= 9 || |WordFor(symbol)| != sizes[0])
    }

    /** Index of the code word that `u` starts with. */
    ghost function Match(u: seq<bit>): (k: nat)
      requires Valid() && exists k :: 0 <= k < |sizes| && StartsWith(u, sizes, k)
      ensures k < |sizes| && StartsWith(u, sizes, k)
    {
      var k :| 0 <= k < |sizes| && StartsWith(u, sizes, k);
      k
    }

    /** The symbol at the front of `u` and the bits behind its code word; None where the decoder gives up. */
    ghost function Front(u: seq<bit>): (r: Option<(nat, seq<bit>)>)
      requires Valid()
      ensures r.Some? ==> r.value.0 < 0x100 && |r.value.1| < |u| && Has(r.value.0)
      ensures r.Some? ==> |u| >= 9
    {
      if |u| >= 9 && !Hidden(u, sizes) && exists k :: 0 <= k < |sizes| && StartsWith(u, sizes, k) then
        Some((symbols[Match(u)] as nat, u[sizes[Match(u)]..]))
      else None
    }
  }

  ghost predicate Usable(t: HuffmanTable, c: CodeBook)
    reads t.lookup, t.codeSize, t.slow
  {
    c.Valid() && t.Represents(c.sizes, c.symbols)
  }

  type index = x: nat | x < 64

  const ZIGZAG: seq<index> :=
    [0, 1, 5, 6, 14, 15, 27, 28] +
    [2, 4, 7, 13, 16, 26, 29, 42] +
    [3, 8, 12, 17, 25, 30, 41, 43] +
    [9, 11, 18, 24, 31, 40, 44, 53] +
    [10, 19, 23, 32, 39, 45, 52, 54] +
    [20, 22, 33, 38, 46, 51, 55, 60] +
    [21, 34, 37, 47, 50, 56, 59, 61] +
    [35, 36, 48, 49, 57, 58, 62, 63]

  // ---- the description ----

  /** DC coefficient and remaining bits. */
  ghost function DcSpec(u: seq<bit>, dc: CodeBook, previous: int): (r: Option<(int, seq<bit>)>)
    requires dc.Valid()
    ensures r.Some? ==> |r.value.1| < |u|
  {
    match dc.Front(u)
    case None => None
    case Some((category, rest)) =>
      if category == 0 then Some((previous, rest))
      else if |rest| < category then None
      else Some((Short(Signed(rest[..category]) + previous), rest[category..]))
  }

  /** Coefficients from position `j` on, entered into `d`, and remaining bits. */
  ghost function AcSpec(u: seq<bit>, ac: CodeBook, j: nat, d: seq<int>): (r: Option<(seq<int>, seq<bit>)>)
    requires ac.Valid() && |d| == 64
    ensures r.Some? ==> |r.value.0| == 64 && |r.value.1| <= |u|
    decreases |u|
  {
    if j >= 64 then Some((d, u))
    else
      match ac.Front(u)
      case None => None
      case Some((symbol, rest)) =>
        var size, run := symbol % 16, symbol / 16;
        if size == 0 then
          if run == 0 then Some((d, rest))
          else AcSpec(rest, ac, if run == 15 then j + 16 else j, d)
        else if j + run >= 64 then Some((d, rest))
        else if |rest| < size then None
        else AcSpec(rest[size..], ac, j + run + 1, d[j + run := Extend(Value(rest[..size]), size)])
  }

  /** Coefficients in zigzag order and remaining bits. */
  ghost function UnitSpec(u: seq<bit>, dc: CodeBook, ac: CodeBook, previous: int): (r: Option<(seq<int>, seq<bit>)>)
    requires dc.Valid() && ac.Valid()
    ensures r.Some? ==> |r.value.0| == 64 && |r.value.1| < |u|
  {
    match DcSpec(u, dc, previous)
    case None => None
    case Some((v, rest)) => AcSpec(rest, ac, 1, [v] + seq(63, _ => 0))
  }

  function Dezigzag(d: seq<int>): seq<int>
    requires |d| == 64
  {
    seq(64, j requires 0 <= j < 64 => d[ZIGZAG[j]])
  }

  // ---- the driver ----

  /** One call of get_next_huffman_code, seen through the code book. */
  method NextSymbol(r: BitReader, t: HuffmanTable, ghost c: CodeBook) returns (ok: bool, symbol: nat)
    requires r.Valid() && r.Settled() && Usable(t, c)
    modifies r
    ensures r.Valid() && r.Settled()
    ensures ok <==> c.Front(old(r.Unread())).Some?
    ensures ok ==> (symbol, r.Unread()) == c.Front(old(r.Unread())).value
  {
    hide StartsWith, Kraft, BitsOf, Value, Hidden;
    ghost var u := r.Unread();
    var o := t.Next(r, c.sizes, c.symbols);
    symbol := 0;
    match o {
      case Symbol(v) =>
        ghost var k := SymbolIndex(c.sizes, c.symbols, v);
        assert StartsWith(u, c.sizes, k);
        PrefixFree(u, c.sizes, k, c.Match(u));
        ok, symbol := true, v;
      case OutOfBits => ok := false;
      case UnknownCode => ok := false;
    }
  }

  /** get_nbits, on the unread bits. */
  method NextValue(r: BitReader, n: nat) returns (ok: bool, v: int)
    requires r.Valid() && r.Settled() && 1 <= n <= 63
    modifies r
    ensures r.Valid() && (ok ==> r.Settled())
    ensures ok <==> n <= old(|r.Unread()|)
    ensures ok ==> v == Signed(old(r.Unread())[..n]) && r.Unread() == old(r.Unread())[n..]
  {
    ok, v := r.Get(n);
  }

  /** process_Huffman_data_unit; the AC loop ends because every code word takes at least one bit. */
  method DecodeUnit(r: BitReader, dcTable: HuffmanTable, acTable: HuffmanTable, previous: int,
                    ghost dc: CodeBook, ghost ac: CodeBook)
    returns (ok: bool, coefficients: seq<int>, newPrevious: int)
    requires r.Valid() && r.Settled() && Usable(dcTable, dc) && Usable(acTable, ac)
    requires forall k :: 0 <= k < |dc.symbols| ==> dc.symbols[k] <= 63
    modifies r
    ensures r.Valid() && (ok ==> r.Settled())
    ensures var spec := UnitSpec(old(r.Unread()), dc, ac, previous);
      && (ok <==> spec.Some?)
      && (ok ==> coefficients == Dezigzag(spec.value.0) && r.Unread() == spec.value.1
                 && newPrevious == spec.value.0[0])
  {
    hide DcSpec, AcSpec;
    coefficients, newPrevious := [], previous;
    var v;
    ok, v := DecodeDc(r, dcTable, previous, dc);
    if !ok {
      return;
    }
    newPrevious := v;
    var dct := new int[64](_ => 0);
    dct[0] := v;
    assert dct[..] == [v] + seq(63, _ => 0);
    AcKeepsDc(r.Unread(), ac, 1, dct[..]);
    ok := DecodeAc(r, acTable, dct, ac);
    if ok {
      coefficients := seq(64, j requires 0 <= j < 64 reads dct => dct[ZIGZAG[j]]);
      assert coefficients == Dezigzag(dct[..]);
    }
  }

  method DecodeDc(r: BitReader, t: HuffmanTable, previous: int, ghost dc: CodeBook) returns (ok: bool, v: int)
    requires r.Valid() && r.Settled() && Usable(t, dc)
    requires forall k :: 0 <= k < |dc.symbols| ==> dc.symbols[k] <= 63
    modifies r
    ensures r.Valid() && (ok ==> r.Settled())
    ensures ok <==> DcSpec(old(r.Unread()), dc, previous).Some?
    ensures ok ==> DcSpec(old(r.Unread()), dc, previous) == Some((v, r.Unread()))
  {
    hide Value, Signed, Pow2;
    v := previous;
    var category;
    ok, category := NextSymbol(r, t, dc);
    if ok && category != 0 {
      var diff;
      ok, diff := NextValue(r, category);
      if ok {
        v := Short(diff + previous);
      }
    }
  }

  method DecodeAc(r: BitReader, t: HuffmanTable, dct: array<int>, ghost ac: CodeBook) returns (ok: bool)
    requires r.Valid() && r.Settled() && ac.Valid() && Usable(t, ac) && dct.Length == 64
    requires dct as object != t.lookup && dct as object != t.codeSize && dct as object != t.slow
    modifies r, dct
    ensures r.Valid() && (ok ==> r.Settled())
    ensures ok <==> AcSpec(old(r.Unread()), ac, 1, old(dct[..])).Some?
    ensures ok ==> AcSpec(old(r.Unread()), ac, 1, old(dct[..])) == Some((dct[..], r.Unread()))
  {
    hide AcSpec, Usable;
    ghost var goal := AcSpec(r.Unread(), ac, 1, dct[..]);
    var j: nat := 1;
    while j < 64
      invariant r.Valid() && r.Settled() && Usable(t, ac)
      invariant AcSpec(r.Unread(), ac, j, dct[..]) == goal
      decreases |r.Unread()|
    {
      var done;
      ok, done, j := DecodeAcStep(r, t, dct, j, ac);
      if !ok || done {
        return;
      }
    }
    AcSpecEnd(r.Unread(), ac, j, dct[..]);
    ok := true;
  }

  lemma {:induction false} AcKeepsDc(u: seq<bit>, ac: CodeBook, j: nat, d: seq<int>)
    requires ac.Valid() && |d| == 64 && j >= 1
    ensures AcSpec(u, ac, j, d).Some? ==> AcSpec(u, ac, j, d).value.0[0] == d[0]
    decreases |u|
  {
    hide Value, Extend, CodeBook.Valid, CodeBook.Has, CodeBook.Front;
    if j < 64 && ac.Front(u).Some? {
      var (symbol, rest) := ac.Front(u).value;
      var size, run := symbol % 16, symbol / 16;
      if size == 0 {
        if run != 0 {
          AcKeepsDc(rest, ac, if run == 15 then j + 16 else j, d);
        }
      } else if j + run < 64 && |rest| >= size {
        AcKeepsDc(rest[size..], ac, j + run + 1, d[j + run := Extend(Value(rest[..size]), size)]);
      }
    }
  }

  lemma AcSpecEnd(u: seq<bit>, ac: CodeBook, j: nat, d: seq<int>)
    requires ac.Valid() && |d| == 64 && j >= 64
    ensures AcSpec(u, ac, j, d) == Some((d, u))
  {
  }

  /** One round of the AC loop. */
  method DecodeAcStep(r: BitReader, t: HuffmanTable, dct: array<int>, j: nat, ghost ac: CodeBook)
    returns (ok: bool, done: bool, next: nat)
    requires r.Valid() && r.Settled() && Usable(t, ac) && dct.Length == 64 && j < 64
    requires dct as object != t.lookup && dct as object != t.codeSize && dct as object != t.slow
    modifies r, dct
    ensures r.Valid() && (ok ==> r.Settled())
    ensures !ok ==> AcSpec(old(r.Unread()), ac, j, old(dct[..])) == None
    ensures ok && done ==> AcSpec(old(r.Unread()), ac, j, old(dct[..])) == Some((dct[..], r.Unread()))
    ensures ok && !done ==> AcSpec(old(r.Unread()), ac, j, old(dct[..])) == AcSpec(r.Unread(), ac, next, dct[..])
    ensures ok ==> |r.Unread()| < old(|r.Unread()|)
  {
    hide Usable, Value, Extend, Signed, Pow2, BitsOf, CodeBook.Front, CodeBook.Has, CodeBook.Valid;
    done, next := false, j;
    var symbol;
    ok, symbol := NextSymbol(r, t, ac);
    if !ok {
      return;
    }
    var size, run := symbol % 16, symbol / 16;
    if size == 0 {
      if run == 0 {
        done := true;
      } else if run == 15 {
        next := j + 16;
      }
    } else {
      next := j + run;
      if next < 64 {
        var v;
        ghost var field := r.Unread();
        ok, v := NextValue(r, size);
        if ok {
          SignedSmall(field[..size]);
          dct[next] := v;
          next := next + 1;
        }
      }
    }
  }

  lemma SignedSmall(m: seq<bit>)
    requires 1 <= |m| <= 15
    ensures Signed(m) == Extend(Value(m), |m|)
  {
    hide Value, Pow2;
    ValueBound(m);
    Pow2Small();
    Pow2Monotone(|m|, 15);
  }

  // ---- the encoder of section F.1.2 ----

  /** Number of bits of |v|. */
  function Category(v: int): (n: nat)
    ensures n == 0 <==> v == 0
    ensures -(Pow2(n) as int) < v < Pow2(n)
    ensures n > 0 ==> v <= -(Pow2(n - 1) as int) || Pow2(n - 1) <= v
    decreases v < 0, if v < 0 then -v else v
  {
    if v == 0 then 0
    else if v < 0 then Category(-v)
    else 1 + Category(v / 2)
  }

  /** The bits that follow the code word for a category. */
  function Magnitude(v: int): (m: seq<bit>)
    ensures |m| == Category(v)
  {
    var n := Category(v);
    ToBits(if v < 0 then v + Pow2(n) - 1 else v, n)
  }

  /** Length of the run of zeros at position `j`. */
  function ZeroRun(d: seq<int>, j: nat): (n: nat)
    requires j <= |d|
    ensures j + n <= |d|
    ensures forall k :: j <= k < j + n ==> d[k] == 0
    ensures j + n < |d| ==> d[j + n] != 0
    decreases |d| - j
  {
    if j == |d| || d[j] != 0 then 0 else 1 + ZeroRun(d, j + 1)
  }

  datatype Item = Item(symbol: nat, extra: seq<bit>)

  function AcItems(d: seq<int>, j: nat): seq<Item>
    requires |d| == 64 && j <= 64
    decreases 64 - j
  {
    var run := ZeroRun(d, j);
    if j == 64 then []
    else if j + run == 64 then [Item(0x00, [])]
    else if run >= 16 then [Item(0xf0, [])] + AcItems(d, j + 16)
    else [Item(16 * run + Category(d[j + run]), Magnitude(d[j + run]))] + AcItems(d, j + run + 1)
  }

  ghost predicate CanEncode(c: CodeBook, items: seq<Item>) {
    c.Valid() && forall i :: 0 <= i < |items| ==> c.Has(items[i].symbol)
  }

  /** What the driver can read back. */
  ghost predicate Readable(c: CodeBook, items: seq<Item>)
    ensures Readable(c, items) ==> CanEncode(c, items)
  {
    c.Valid() && forall i :: 0 <= i < |items| ==> c.Finds(items[i].symbol)
  }

  function ItemBits(c: CodeBook, items: seq<Item>): (b: seq<bit>)
    requires CanEncode(c, items)
  {
    if items == [] then [] else c.WordFor(items[0].symbol) + items[0].extra + ItemBits(c, items[1..])
  }

  function DcItem(diff: int): Item {
    Item(Category(diff), Magnitude(diff))
  }

  /** A block coded with DC prediction `previous`. */
  function UnitBits(dc: CodeBook, ac: CodeBook, d: seq<int>, previous: int): seq<bit>
    requires |d| == 64 && CanEncode(dc, [DcItem(d[0] - previous)]) && CanEncode(ac, AcItems(d, 1))
  {
    ItemBits(dc, [DcItem(d[0] - previous)]) + ItemBits(ac, AcItems(d, 1))
  }

  // ---- decoding undoes encoding ----

  lemma ExtendMagnitude(v: int)
    requires v != 0
    ensures Extend(Value(Magnitude(v)), Category(v)) == v
  {
    var n := Category(v);
    DoublePow2(n - 1);
    ValueOfToBits(if v < 0 then v + Pow2(n) - 1 else v, n);
  }

  lemma {:induction false} CategoryBound(v: int, n: nat)
    requires -(Pow2(n) as int) < v < Pow2(n)
    ensures Category(v) <= n
  {
    var m := Category(v);
    if m > n {
      Pow2Monotone(n, m - 1);
    }
  }

  /** Decoding a code word finds its symbol unless it is hidden; 8 bits behind it are lookahead enough. */
  lemma FrontOfWord(c: CodeBook, symbol: nat, rest: seq<bit>)
    requires c.Valid() && c.Has(symbol) && |rest| >= 8
    ensures c.Front(c.WordFor(symbol) + rest) == if c.Finds(symbol) then Some((symbol, rest)) else None
  {
    var k := SymbolIndex(c.sizes, c.symbols, symbol);
    var u := c.WordFor(symbol) + rest;
    assert u[..c.sizes[k]] == c.WordFor(symbol);
    assert StartsWith(u, c.sizes, k);
    PrefixFree(u, c.sizes, k, c.Match(u));
    forall i | 0 <= i < |c.sizes| && StartsWith(u, c.sizes, i) ensures i == k {
      PrefixFree(u, c.sizes, i, k);
    }
    assert u[c.sizes[k]..] == rest;
  }

  predicate InRange(d: seq<int>) {
    |d| == 64 && forall k :: 0 <= k < 64 ==> -0x8000 < d[k] < 0x8000
  }

  lemma ItemBitsCons(c: CodeBook, item: Item, more: seq<Item>)
    requires CanEncode(c, [item] + more)
    ensures CanEncode(c, more) && c.Has(item.symbol)
    ensures Readable(c, [item] + more) <==> c.Finds(item.symbol) && Readable(c, more)
    ensures ItemBits(c, [item] + more) == c.WordFor(item.symbol) + item.extra + ItemBits(c, more)
  {
    assert ([item] + more)[1..] == more;
    assert ([item] + more)[0] == item;
    assert forall i :: 0 <= i < |more| ==> more[i] == ([item] + more)[i + 1];
  }

  /** What the decoder sees at the front of an encoded item list. */
  lemma FrontOfItems(c: CodeBook, item: Item, more: seq<Item>, rest: seq<bit>)
    requires CanEncode(c, [item] + more) && |rest| >= 8
    ensures CanEncode(c, more)
    ensures c.Front(ItemBits(c, [item] + more) + rest) ==
      if c.Finds(item.symbol) then Some((item.symbol, item.extra + (ItemBits(c, more) + rest))) else None
    ensures Readable(c, [item] + more) <==> c.Finds(item.symbol) && Readable(c, more)
  {
    ItemBitsCons(c, item, more);
    var w, b := c.WordFor(item.symbol), ItemBits(c, more);
    assert w + item.extra + b + rest == w + (item.extra + (b + rest));
    FrontOfWord(c, item.symbol, item.extra + (b + rest));
  }

  lemma AcSpecNone(u: seq<bit>, ac: CodeBook, j: nat, d: seq<int>)
    requires ac.Valid() && |d| == 64 && j < 64 && ac.Front(u) == None
    ensures AcSpec(u, ac, j, d) == None
  {
  }

  lemma AcSpecSkip(u: seq<bit>, ac: CodeBook, j: nat, d: seq<int>, rest: seq<bit>)
    requires ac.Valid() && |d| == 64 && j < 64
    ensures ac.Front(u) == Some((0x00, rest)) ==> AcSpec(u, ac, j, d) == Some((d, rest))
    ensures ac.Front(u) == Some((0xf0, rest)) ==> AcSpec(u, ac, j, d) == AcSpec(rest, ac, j + 16, d)
  {
    hide Extend, Value, CodeBook.Valid, CodeBook.Front, CodeBook.Has;
  }

  lemma Nibbles(high: nat, low: nat)
    requires low < 16
    ensures (16 * high + low) % 16 == low && (16 * high + low) / 16 == high
  {
  }

  lemma AcSpecValue(u: seq<bit>, ac: CodeBook, j: nat, d: seq<int>, run: nat, m: seq<bit>, rest: seq<bit>)
    requires ac.Valid() && |d| == 64 && j + run < 64 && run < 16 && 0 < |m| < 16
    requires ac.Front(u) == Some((16 * run + |m|, m + rest))
    ensures AcSpec(u, ac, j, d) == AcSpec(rest, ac, j + run + 1, d[j + run := Extend(Value(m), |m|)])
  {
    hide Extend, Value, Pow2, CodeBook.Valid, CodeBook.Front, CodeBook.Has;
    var after := m + rest;
    Nibbles(run, |m|);
    assert after[..|m|] == m && after[|m|..] == rest;
  }

  /** The decoder, at position `j` with the coefficients before it in place, completes the block,
      exactly if none of the code words behind is hidden. */
  lemma {:induction false} AcRoundTrip(ac: CodeBook, d: seq<int>, j: nat, e: seq<int>, rest: seq<bit>)
    requires |d| == |e| == 64 && InRange(d) && j <= 64 && |rest| >= 8
    requires e[..j] == d[..j] && forall k :: j <= k < 64 ==> e[k] == 0
    requires CanEncode(ac, AcItems(d, j))
    ensures AcSpec(ItemBits(ac, AcItems(d, j)) + rest, ac, j, e) ==
            if Readable(ac, AcItems(d, j)) then Some((d, rest)) else None
    decreases 64 - j
  {
    hide AcSpec, ItemBits, AcItems, InRange, ZeroRun, CanEncode, Readable, CodeBook.Front, CodeBook.Finds, CodeBook.Has, CodeBook.Valid;
    var run, u := ZeroRun(d, j), ItemBits(ac, AcItems(d, j)) + rest;
    AcItemsCases(d, j);
    if j + run == 64 {
      FilledToEnd(d, j, e);
      AcEnd(ac, d, j, e, rest);
    } else if run >= 16 {
      SkipItem(ac, 0xf0, AcItems(d, j + 16), rest);
      if ac.Finds(0xf0) {
        AcSpecSkip(u, ac, j, e, ItemBits(ac, AcItems(d, j + 16)) + rest);
        FilledSkip(d, j, e);
        AcRoundTrip(ac, d, j + 16, e, rest);
      } else {
        AcSpecNone(u, ac, j, e);
      }
    } else {
      AcValueRoundTrip(ac, d, j, e, rest);
      FilledValue(d, j, e);
      AcRoundTrip(ac, d, j + run + 1, e[j + run := d[j + run]], rest);
    }
  }

  lemma AcItemsCases(d: seq<int>, j: nat)
    requires |d| == 64 && j <= 64
    ensures j == 64 ==> AcItems(d, j) == []
    ensures j < 64 && j + ZeroRun(d, j) == 64 ==> AcItems(d, j) == [Item(0x00, [])]
    ensures j + ZeroRun(d, j) < 64 && ZeroRun(d, j) >= 16 ==> AcItems(d, j) == [Item(0xf0, [])] + AcItems(d, j + 16)
  {
    hide Category, Magnitude;
  }

  lemma AcItemsValue(d: seq<int>, j: nat, at: nat)
    requires |d| == 64 && j <= 64 && ZeroRun(d, j) < 16 && at == j + ZeroRun(d, j) < 64
    ensures AcItems(d, j) == [Item(16 * (at - j) + Category(d[at]), Magnitude(d[at]))] + AcItems(d, at + 1)
  {
    hide Category, Magnitude;
  }

  lemma AcEnd(ac: CodeBook, d: seq<int>, j: nat, e: seq<int>, rest: seq<bit>)
    requires |d| == |e| == 64 && j <= 64 && j + ZeroRun(d, j) == 64 && |rest| >= 8
    requires CanEncode(ac, AcItems(d, j))
    ensures AcSpec(ItemBits(ac, AcItems(d, j)) + rest, ac, j, e) ==
            if Readable(ac, AcItems(d, j)) then Some((e, rest)) else None
  {
    hide AcSpec, ItemBits, AcItems, CodeBook.Finds, CodeBook.Front;
    AcItemsCases(d, j);
    var u := ItemBits(ac, AcItems(d, j)) + rest;
    NoItems(ac);
    assert [] + rest == rest;
    if j == 64 {
      AcSpecEnd(u, ac, j, e);
    } else {
      SkipItem(ac, 0x00, [], rest);
      if ac.Finds(0x00) {
        AcSpecSkip(u, ac, j, e, rest);
      } else {
        AcSpecNone(u, ac, j, e);
      }
    }
  }

  lemma FilledToEnd(d: seq<int>, j: nat, e: seq<int>)
    requires |d| == |e| == 64 && j <= 64 && e[..j] == d[..j] && forall k :: j <= k < 64 ==> e[k] == 0
    requires j + ZeroRun(d, j) == 64
    ensures e == d
  {
    forall k | 0 <= k < 64 ensures e[k] == d[k] {
      if k < j {
        assert e[..j][k] == d[..j][k];
      }
    }
  }

  lemma FilledSkip(d: seq<int>, j: nat, e: seq<int>)
    requires |d| == |e| == 64 && j <= 64 && e[..j] == d[..j] && forall k :: j <= k < 64 ==> e[k] == 0
    requires ZeroRun(d, j) >= 16
    ensures e[..j + 16] == d[..j + 16]
  {
    forall k | 0 <= k < j + 16 ensures e[k] == d[k] {
      if k < j {
        assert e[..j][k] == d[..j][k];
      }
    }
  }

  lemma FilledValue(d: seq<int>, j: nat, e: seq<int>)
    requires |d| == |e| == 64 && j <= 64 && e[..j] == d[..j] && forall k :: j <= k < 64 ==> e[k] == 0
    requires j + ZeroRun(d, j) < 64
    ensures var at := j + ZeroRun(d, j); e[at := d[at]][..at + 1] == d[..at + 1]
  {
    var at := j + ZeroRun(d, j);
    forall k | 0 <= k < at + 1 ensures e[at := d[at]][k] == d[k] {
      if k < j {
        assert e[..j][k] == d[..j][k];
      }
    }
  }

  lemma NoItems(c: CodeBook)
    requires c.Valid()
    ensures ItemBits(c, []) == []
  {
  }

  /** An item without extra bits at the front. */
  lemma SkipItem(c: CodeBook, symbol: nat, more: seq<Item>, rest: seq<bit>)
    requires CanEncode(c, [Item(symbol, [])] + more) && |rest| >= 8
    ensures CanEncode(c, more)
    ensures c.Front(ItemBits(c, [Item(symbol, [])] + more) + rest) ==
            if c.Finds(symbol) then Some((symbol, ItemBits(c, more) + rest)) else None
    ensures Readable(c, [Item(symbol, [])] + more) <==> c.Finds(symbol) && Readable(c, more)
    ensures more == [] ==> [Item(symbol, [])] + more == [Item(symbol, [])]
  {
    FrontOfItems(c, Item(symbol, []), more, rest);
    assert [] + (ItemBits(c, more) + rest) == ItemBits(c, more) + rest;
  }

  /** The case of a run of fewer than 16 zeros and a nonzero coefficient. */
  lemma AcValueRoundTrip(ac: CodeBook, d: seq<int>, j: nat, e: seq<int>, rest: seq<bit>)
    requires InRange(d) && |e| == 64 && j < 64 && |rest| >= 8
    requires ZeroRun(d, j) < 16 && j + ZeroRun(d, j) < 64
    requires CanEncode(ac, AcItems(d, j))
    ensures var at := j + ZeroRun(d, j);
      var found := ac.Finds(16 * (at - j) + Category(d[at]));
      && CanEncode(ac, AcItems(d, at + 1))
      && (Readable(ac, AcItems(d, j)) <==> found && Readable(ac, AcItems(d, at + 1)))
      && AcSpec(ItemBits(ac, AcItems(d, j)) + rest, ac, j, e) ==
         if found then AcSpec(ItemBits(ac, AcItems(d, at + 1)) + rest, ac, at + 1, e[at := d[at]]) else None
  {
    hide AcSpec, ItemBits, Magnitude, Category, CodeBook.Finds, CodeBook.Front, CodeBook.Has, Readable, AcItems, ZeroRun;
    var run := ZeroRun(d, j);
    var v := d[j + run];
    var item, more := Item(16 * run + Category(v), Magnitude(v)), AcItems(d, j + run + 1);
    AcItemsValue(d, j, j + run);
    Pow2Small();
    CategoryBound(v, 15);
    FrontOfItems(ac, item, more, rest);
    if ac.Finds(item.symbol) {
      ExtendMagnitude(v);
      AcSpecValue(ItemBits(ac, AcItems(d, j)) + rest, ac, j, e, run, Magnitude(v), ItemBits(ac, more) + rest);
    } else {
      AcSpecNone(ItemBits(ac, AcItems(d, j)) + rest, ac, j, e);
    }
  }

  /** Decoding a coded block gives the block back and stops exactly behind it, exactly if none of
      its code words is hidden. */
  lemma UnitRoundTrip(dc: CodeBook, ac: CodeBook, d: seq<int>, previous: int, rest: seq<bit>)
    requires InRange(d) && -0x8000 < d[0] - previous < 0x8000 && |rest| >= 8
    requires CanEncode(dc, [DcItem(d[0] - previous)]) && CanEncode(ac, AcItems(d, 1))
    ensures UnitSpec(UnitBits(dc, ac, d, previous) + rest, dc, ac, previous) ==
            if Readable(dc, [DcItem(d[0] - previous)]) && Readable(ac, AcItems(d, 1)) then Some((d, rest)) else None
  {
    hide AcItems, ItemBits, AcSpec, DcSpec, DcItem, CodeBook.Finds, CodeBook.Has, CodeBook.Valid, Readable, CanEncode;
    var acBits := ItemBits(ac, AcItems(d, 1));
    var item := DcItem(d[0] - previous);
    DcRoundTrip(dc, d[0], previous, acBits + rest);
    assert ItemBits(dc, [item]) + acBits + rest == ItemBits(dc, [item]) + (acBits + rest);
    AcRoundTrip(ac, d, 1, [d[0]] + seq(63, _ => 0), rest);
  }

  lemma DcRoundTrip(dc: CodeBook, v: int, previous: int, rest: seq<bit>)
    requires -0x8000 < v < 0x8000 && -0x8000 < v - previous < 0x8000 && |rest| >= 8
    requires CanEncode(dc, [DcItem(v - previous)])
    ensures DcSpec(ItemBits(dc, [DcItem(v - previous)]) + rest, dc, previous) ==
            if Readable(dc, [DcItem(v - previous)]) then Some((v, rest)) else None
  {
    hide Magnitude, Category, ItemBits, Value, Signed, Extend, CodeBook.Finds, CodeBook.Front, CodeBook.Has;
    var diff := v - previous;
    var item := DcItem(diff);
    NoItems(dc);
    assert [item] + [] == [item];
    FrontOfItems(dc, item, [], rest);
    assert item.extra + ([] + rest) == item.extra + rest;
    if diff == 0 {
      assert item.extra + rest == rest;
    } else {
      SignedMagnitude(diff);
      assert (item.extra + rest)[..Category(diff)] == Magnitude(diff);
      assert (item.extra + rest)[Category(diff)..] == rest;
    }
  }

  lemma SignedMagnitude(v: int)
    requires v != 0 && -0x8000 < v < 0x8000
    ensures Signed(Magnitude(v)) == v
  {
    hide Value, Magnitude, Extend, Signed;
    ExtendMagnitude(v);
    Pow2Small();
    CategoryBound(v, 15);
    SignedSmall(Magnitude(v));
  }
}
