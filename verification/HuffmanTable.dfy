/** tinyjpeg's decoding tables: a 512 entry lookup for code words of up to 9 bits
    and seven lists, searched linearly, for those of 10 to 16 bits. */
module HuffmanTables {
  import opened Bytes
  import opened Bits
  import opened BitReservoir
  import opened Huffman

  datatype Outcome = Symbol(value: nat) | OutOfBits | UnknownCode

  /** HUFFSIZE of a table segment: bits[i] code words of length i. */
  function SizesOf(bits: seq<nat>, n: nat): seq<nat>
    requires n < |bits|
  {
    if n == 0 then [] else SizesOf(bits, n - 1) + seq(bits[n], _ => n)
  }

  /** What the driver expects of a table segment. */
  ghost predicate WellFormedSegment(bits: seq<nat>, vals: bytes) {
    && |bits| == 17
    && (var s := SizesOf(bits, 16);
        && |s| <= 256 && |s| <= |vals|
        && IsSizes(s) && Kraft(s)
        && (forall i, j :: 0 <= i < j < |s| ==> vals[i] != vals[j]))
  }

  /** Code and symbol of the entries below `n` whose code words have `size` bits. */
  function SlowList(s: seq<nat>, vals: bytes, size: nat, n: nat): seq<(nat, nat)>
    requires IsSizes(s) && n <= |s| <= |vals|
  {
    if n == 0 then []
    else SlowList(s, vals, size, n - 1) + if s[n - 1] == size then [(Code(s, n - 1), vals[n - 1] as nat)] else []
  }

  class HuffmanTable {
    const lookup: array<int>
    const codeSize: array<nat>
    const slow: array2<nat>

    constructor ()
      ensures Allocated() && fresh(lookup) && fresh(codeSize) && fresh(slow)
    {
      lookup := new int[512](_ => 0);
      codeSize := new nat[512](_ => 0);
      slow := new nat[7, 256]((_, _) => 0);
    }

    ghost predicate Allocated() {
      && lookup.Length == 512 && codeSize.Length == 512 && slow.Length0 == 7 && slow.Length1 == 256
      && lookup as object != codeSize && lookup as object != slow && codeSize as object != slow
    }

    /** The lookup table after entering the first `n` code words. */
    ghost predicate FastUpTo(s: seq<nat>, vals: bytes, n: nat)
      requires Allocated() && IsSizes(s) && n <= |s| <= |vals|
      reads lookup
    {
      forall h :: 0 <= h < 512 ==> FastEntry(s, vals, n, h, lookup[h])
    }

    ghost predicate SizesUpTo(s: seq<nat>, vals: bytes, n: nat)
      requires Allocated() && n <= |s| <= |vals|
      reads codeSize
    {
      forall k :: 0 <= k < n ==> codeSize[vals[k]] == s[k]
    }

    /** The list for code words of `size` bits starts with those among the first `n` entries. */
    ghost predicate RowHolds(size: nat, s: seq<nat>, vals: bytes, n: nat)
      requires Allocated() && 10 <= size <= 16 && IsSizes(s) && n <= |s| <= |vals|
      reads slow
    {
      var list := SlowList(s, vals, size, n);
      && |list| <= 127
      && forall m :: 0 <= m < |list| ==> slow[size - 10, 2 * m] == list[m].0 && slow[size - 10, 2 * m + 1] == list[m].1
    }

    ghost predicate AllRows(s: seq<nat>, vals: bytes, n: nat)
      requires Allocated() && IsSizes(s) && n <= |s| <= |vals|
      reads slow
    {
      forall size :: 10 <= size <= 16 ==> RowHolds(size, s, vals, n)
    }

    /** ... and a zero ends it. */
    ghost predicate RowEnds(size: nat, s: seq<nat>, vals: bytes)
      requires Allocated() && 10 <= size <= 16 && IsSizes(s) && |s| <= |vals|
      reads slow
    {
      |SlowList(s, vals, size, |s|)| <= 127 && slow[size - 10, 2 * |SlowList(s, vals, size, |s|)|] == 0
    }

    /** The tables describe the code with lengths `s` and symbols `vals`. */
    ghost predicate Represents(s: seq<nat>, vals: bytes)
      reads lookup, codeSize, slow
    {
      && Allocated() && IsSizes(s) && |s| <= |vals|
      && FastUpTo(s, vals, |s|) && SizesUpTo(s, vals, |s|)
      && AllRows(s, vals, |s|) && forall size :: 10 <= size <= 16 ==> RowEnds(size, s, vals)
    }

    /** build_huffman_table; false is the "slow table overflow" error. */
    method Build(bits: seq<nat>, vals: bytes) returns (ok: bool)
      requires Allocated() && WellFormedSegment(bits, vals)
      modifies lookup, codeSize, slow
      ensures ok <==> forall n :: 10 <= n <= 16 ==> bits[n] <= 127
      ensures ok ==> Represents(SizesOf(bits, 16), vals)
    {
      var sizes := ExpandSizes(bits);
      var codes := AssignCodes(sizes);
      forall h | 0 <= h < 512 {
        lookup[h] := -1;
      }
      var used := new nat[7](_ => 0);
      for i := 0 to |sizes|
        invariant Entered(sizes, vals, i) && fresh(used) && Counts(used, sizes, vals, i)
      {
        var entered := Enter(sizes, vals, i, codes[i], used);
        if !entered {
          SlowListLength(bits, vals, sizes[i], i);
          return false;
        }
      }
      EndRows(sizes, vals, used);
      forall n | 10 <= n <= 16 ensures bits[n] <= 127 {
        SlowListLength(bits, vals, n, |sizes|);
        assert RowHolds(n, sizes, vals, |sizes|);
      }
      ok := true;
    }

    ghost predicate Entered(s: seq<nat>, vals: bytes, n: nat)
      requires IsSizes(s) && n <= |s| <= |vals|
      reads lookup, codeSize, slow
    {
      Allocated() && FastUpTo(s, vals, n) && SizesUpTo(s, vals, n) && AllRows(s, vals, n)
    }

    /** slowtable_used[] counts list cells, two for each entry. */
    ghost predicate Counts(used: array<nat>, s: seq<nat>, vals: bytes, n: nat)
      requires IsSizes(s) && n <= |s| <= |vals|
      reads used
    {
      used.Length == 7 && forall size :: 10 <= size <= 16 ==> used[size - 10] == 2 * |SlowList(s, vals, size, n)|
    }

    /** Enter code word `i`; false if its list is full. */
    method Enter(s: seq<nat>, vals: bytes, i: nat, code: nat, used: array<nat>) returns (ok: bool)
      requires IsSizes(s) && Kraft(s) && i < |s| <= |vals| && code == Code(s, i)
      requires forall j, k :: 0 <= j < k < |s| ==> vals[j] != vals[k]
      requires Entered(s, vals, i) && Counts(used, s, vals, i)
      requires used as object != lookup && used != codeSize && used as object != slow
      modifies lookup, codeSize, slow, used
      ensures ok <==> s[i] <= 9 || |SlowList(s, vals, s[i], i)| < 127
      ensures ok ==> Entered(s, vals, i + 1) && Counts(used, s, vals, i + 1)
    {
      codeSize[vals[i]] := s[i];
      if s[i] <= 9 {
        EnterFast(s, vals, i, code);
        RowsKept(s, vals, i);
      } else {
        assert RowHolds(s[i], s, vals, i);
        if used[s[i] - 10] == 254 {
          return false;
        }
        EnterSlow(s, vals, i, code, used[s[i] - 10]);
        used[s[i] - 10] := used[s[i] - 10] + 2;
        FastKept(s, vals, i);
      }
      ghost var n := i + 1;
      forall size | 10 <= size <= 16 ensures used[size - 10] == 2 * |SlowList(s, vals, size, n)| {
        assert |SlowList(s, vals, size, n)| == |SlowList(s, vals, size, i)| + if s[i] == size then 1 else 0;
      }
      ok := true;
    }

    lemma RowsKept(s: seq<nat>, vals: bytes, i: nat)
      requires Allocated() && IsSizes(s) && i < |s| <= |vals| && s[i] <= 9 && AllRows(s, vals, i)
      ensures AllRows(s, vals, i + 1)
    {
      var n := i + 1;
      forall size | 10 <= size <= 16 ensures RowHolds(size, s, vals, n) {
        assert RowHolds(size, s, vals, i) && SlowList(s, vals, size, n) == SlowList(s, vals, size, i);
      }
    }

    lemma FastKept(s: seq<nat>, vals: bytes, i: nat)
      requires Allocated() && IsSizes(s) && i < |s| <= |vals| && s[i] > 9 && FastUpTo(s, vals, i)
      ensures FastUpTo(s, vals, i + 1)
    {
      forall h | 0 <= h < 512 ensures FastEntry(s, vals, i + 1, h, lookup[h]) {
        assert FastEntry(s, vals, i, h, lookup[h]);
      }
    }

    method EndRows(s: seq<nat>, vals: bytes, used: array<nat>)
      requires IsSizes(s) && |s| <= |vals| && Entered(s, vals, |s|) && Counts(used, s, vals, |s|)
      requires used as object != slow
      modifies slow
      ensures Represents(s, vals)
    {
      for j := 0 to 7
        invariant Entered(s, vals, |s|) && Counts(used, s, vals, |s|)
        invariant forall size :: 10 <= size < 10 + j ==> RowEnds(size, s, vals)
      {
        EndRow(10 + j, s, vals, used[j]);
      }
    }

    method EndRow(row: nat, s: seq<nat>, vals: bytes, used: nat)
      requires 10 <= row <= 16 && IsSizes(s) && |s| <= |vals| && Entered(s, vals, |s|)
      requires used == 2 * |SlowList(s, vals, row, |s|)|
      modifies slow
      ensures Entered(s, vals, |s|) && RowEnds(row, s, vals)
      ensures forall size :: 10 <= size <= 16 && size != row && old(RowEnds(size, s, vals)) ==> RowEnds(size, s, vals)
    {
      assert RowHolds(row, s, vals, |s|);
      slow[row - 10, used] := 0;
      forall size | 10 <= size <= 16 ensures RowHolds(size, s, vals, |s|) {
        assert old(RowHolds(size, s, vals, |s|));
      }
    }

    /** Every lookup index that begins with the code word gets the symbol. */
    method EnterFast(s: seq<nat>, vals: bytes, i: nat, code: nat)
      requires Allocated() && IsSizes(s) && Kraft(s) && i < |s| <= |vals|
      requires s[i] <= 9 && code == Code(s, i) && FastUpTo(s, vals, i)
      modifies lookup
      ensures FastUpTo(s, vals, i + 1)
    {
      hide Code, Left, Pow2, FastEntry;
      var repeat := Pow2(9 - s[i]);
      var at := code * repeat;
      ghost var first := at;
      FastRange(s, i);
      while repeat > 0
        invariant at + repeat == first + Pow2(9 - s[i]) && first <= at && repeat >= 0
        invariant forall h :: 0 <= h < 512 ==> lookup[h] == if first <= h < at then vals[i] else old(lookup[h])
      {
        lookup[at] := vals[i];
        at, repeat := at + 1, repeat - 1;
      }
      forall h | 0 <= h < 512 ensures FastEntry(s, vals, i + 1, h, lookup[h]) {
        assert FastEntry(s, vals, i, h, old(lookup[h]));
        FastStep(s, vals, i, h, old(lookup[h]), lookup[h]);
      }
    }

    method EnterSlow(s: seq<nat>, vals: bytes, i: nat, code: nat, used: nat)
      requires Allocated() && IsSizes(s) && i < |s| <= |vals| && s[i] >= 10 && code == Code(s, i)
      requires used == 2 * |SlowList(s, vals, s[i], i)| && used < 254
      requires AllRows(s, vals, i)
      modifies slow
      ensures AllRows(s, vals, i + 1)
    {
      ghost var list := SlowList(s, vals, s[i], i);
      assert RowHolds(s[i], s, vals, i);
      slow[s[i] - 10, used] := code;
      slow[s[i] - 10, used + 1] := vals[i];
      ghost var n := i + 1;
      forall size | 10 <= size <= 16 ensures RowHolds(size, s, vals, n) {
        assert old(RowHolds(size, s, vals, i));
        if size == s[i] {
          assert SlowList(s, vals, size, n) == list + [(code, vals[i] as nat)];
        }
      }
    }

    /** get_next_huffman_code */
    method Next(r: BitReader, ghost s: seq<nat>, ghost vals: bytes) returns (o: Outcome)
      requires r.Valid() && r.Settled() && Represents(s, vals) && Kraft(s)
      requires forall i, j :: 0 <= i < j < |s| ==> vals[i] != vals[j]
      modifies r
      ensures r.Valid() && r.Settled()
      ensures Decodes(old(r.Unread()), s, vals, o) <==> !Hidden(old(r.Unread()), s)
      ensures Hidden(old(r.Unread()), s) ==> o == if old(|r.Unread()|) >= 16 then UnknownCode else OutOfBits
      ensures r.Cursor() == old(r.Cursor()) + if o.Symbol? then s[SymbolIndex(s, vals, o.value)] else 0
    {
      hide Pow2, Code, Left, Kraft, Word, Value, SlowList;
      ghost var u := r.Unread();
      var ok, hcode := r.Look(9);
      if !ok {
        return OutOfBits;
      }
      NineBits(u);
      FastLookup(u, s, vals, hcode, lookup[hcode]);
      if lookup[hcode] >= 0 {
        ShortWordShows(u, s);
        r.Skip(codeSize[lookup[hcode]]);
        return Symbol(lookup[hcode]);
      }
      var nbits := 10;
      while nbits <= 16
        invariant r.Valid() && r.Settled() && r.Unread() == u && 10 <= nbits <= 17
        invariant nbits <= |u| + 1
        invariant forall k :: 0 <= k < |s| && s[k] < nbits && StartsWith(u, s, k) ==> s[k] == s[0] >= 10
      {
        ok, hcode := r.Look(nbits);
        if !ok {
          return OutOfBits;
        }
        var found, value := SearchRow(nbits, hcode, s, vals);
        RowLookup(u, s, vals, nbits, hcode);
        if found {
          LongWordShows(u, s, nbits);
          r.Skip(nbits);
          return Symbol(value);
        }
        nbits := nbits + 1;
      }
      o := UnknownCode;
    }

    /** The linear search through one list. */
    method SearchRow(size: nat, hcode: nat, ghost s: seq<nat>, ghost vals: bytes) returns (found: bool, value: nat)
      requires Represents(s, vals) && 10 <= size <= 16
      ensures s != [] && s[0] == size ==> !found
      ensures found ==> (hcode, value) in SlowList(s, vals, size, |s|)
      ensures !found && (s != [] ==> s[0] != size) ==> forall e :: e in SlowList(s, vals, size, |s|) ==> e.0 != hcode
    {
      ghost var list := SlowList(s, vals, size, |s|);
      assert RowHolds(size, s, vals, |s|) && RowEnds(size, s, vals);
      if s != [] && s[0] == size {
        SlowListFirst(s, vals, |s|);
        assert list[0].0 == 0;
      } else {
        SlowListCodes(s, vals, size, |s|);
      }
      var row, at := size - 10, 0;
      ghost var m := 0;
      while slow[row, at] != 0
        invariant at == 2 * m && 0 <= m <= |list| && (s != [] && s[0] == size ==> m == 0)
        invariant m < |list| ==> (slow[row, at], slow[row, at + 1]) == list[m]
        invariant forall n :: 0 <= n < m ==> list[n].0 != hcode
        decreases |list| - m
      {
        if slow[row, at] == hcode {
          return true, slow[row, at + 1];
        }
        at, m := at + 2, m + 1;
      }
      return false, 0;
    }
  }

  /** Lookup entry `h` after entering the first `n` code words. */
  ghost predicate FastEntry(s: seq<nat>, vals: bytes, n: nat, h: nat, entry: int)
    requires IsSizes(s) && n <= |s| <= |vals|
  {
    && (forall k :: 0 <= k < n && s[k] <= 9 && Owns(s, k, 128 * h) ==> entry == vals[k])
    && ((forall k :: 0 <= k < n && s[k] <= 9 ==> !Owns(s, k, 128 * h)) ==> entry == -1)
  }

  /** The entry with a given symbol. */
  function SymbolIndex(s: seq<nat>, vals: bytes, v: nat): (k: nat)
    requires |s| <= |vals| && exists k :: 0 <= k < |s| && vals[k] == v
    ensures k < |s| && vals[k] == v
  {
    IndexFrom(s, vals, v, 0)
  }

  function IndexFrom(s: seq<nat>, vals: bytes, v: nat, i: nat): (k: nat)
    requires |s| <= |vals| && exists k :: i <= k < |s| && vals[k] == v
    ensures k < |s| && vals[k] == v
    decreases |s| - i
  {
    if vals[i] == v then i else IndexFrom(s, vals, v, i + 1)
  }

  /** Bit-by-bit decoding (DECODE, section F.2.2.3 of ITU-T T.81): the answer for unread bits `u`.
      The driver looks 9 bits ahead, so it can also run out of bits when a shorter code word is there. */
  ghost predicate Decodes(u: seq<bit>, s: seq<nat>, vals: bytes, o: Outcome)
    requires IsSizes(s) && |s| <= |vals|
  {
    match o
    case Symbol(v) => exists k :: 0 <= k < |s| && vals[k] == v && StartsWith(u, s, k) && |u| >= 9
    case OutOfBits => |u| < 9 || (|u| < 16 && forall k :: 0 <= k < |s| ==> !StartsWith(u, s, k))
    case UnknownCode => |u| >= 16 && forall k :: 0 <= k < |s| ==> !StartsWith(u, s, k)
  }

  /** The first code word is all zeros. If it has ten bits or more, its zero code ends the list it
      stands in, and hides every code word of that length. */
  ghost predicate Hidden(u: seq<bit>, s: seq<nat>)
    requires IsSizes(s)
  {
    s != [] && s[0] >= 10 && exists k :: 0 <= k < |s| && s[k] == s[0] && StartsWith(u, s, k)
  }

  /** A string that starts with a word of another length starts with no hidden one. */
  lemma LongWordShows(u: seq<bit>, s: seq<nat>, n: nat)
    requires IsSizes(s) && Kraft(s) && s != [] && s[0] != n
    requires exists k :: 0 <= k < |s| && s[k] == n && StartsWith(u, s, k)
    ensures !Hidden(u, s)
  {
    hide StartsWith, Kraft;
    var k :| 0 <= k < |s| && s[k] == n && StartsWith(u, s, k);
    forall i | 0 <= i < |s| && StartsWith(u, s, i) ensures i == k {
      PrefixFree(u, s, i, k);
    }
  }

  lemma ShortWordShows(u: seq<bit>, s: seq<nat>)
    requires IsSizes(s) && exists k :: 0 <= k < |s| && s[k] <= 9
    ensures !Hidden(u, s)
  {
  }

  /** The tables serve every bit string exactly if the shortest code word has at most nine bits. */
  lemma NothingHiddenIff(s: seq<nat>)
    requires IsSizes(s)
    ensures (forall u: seq<bit> :: !Hidden(u, s)) <==> (s != [] ==> s[0] <= 9)
  {
    if s != [] && s[0] >= 10 {
      var u := Word(s, 0);
      assert u[..s[0]] == u;
      assert Hidden(u, s);
    }
  }

  /** One code word, of ten bits. */
  const LONG: seq<nat> := seq(17, n => if n == 10 then 1 else 0)

  /** Its table is built, for the symbol 5, and sixteen zero bits, which start with the code word, are refused. */
  method RefusesItsOnlyWord() returns (built: bool, o: Outcome)
    ensures built && o == UnknownCode
    ensures SizesOf(LONG, 16) == [10] && Decodes(BitsOf([0, 0]), [10], [5], Symbol(5))
  {
    hide *;
    LongSegment();
    ZeroBits();
    var table := new HuffmanTable();
    built := table.Build(LONG, [5]);
    var reader := new BitReader([0, 0]);
    UnreadAtStart(reader);
    o := table.Next(reader, [10], [5]);
  }

  lemma UnreadAtStart(r: BitReader)
    requires r.Valid() && r.Cursor() == 0
    ensures r.Unread() == BitsOf(r.data)
  {
    hide BitsOf;
  }

  lemma LongSegment()
    ensures SizesOf(LONG, 16) == [10] && WellFormedSegment(LONG, [5]) && Kraft([10])
    ensures |LONG| == 17 && forall n :: 10 <= n <= 16 ==> LONG[n] <= 127
  {
    hide Left, Pow2;
    SizesOfNone(LONG, 0, 9);
    SizesOfNone(LONG, 10, 16);
    assert SizesOf(LONG, 10) == [10];
    OneWordFits();
  }

  lemma OneWordFits()
    ensures Kraft([10])
  {
    Pow2Small();
    assert Left([10], 1) == Left([10], 0) + Pow2(6);
  }

  lemma {:induction false} SizesOfNone(bits: seq<nat>, m: nat, n: nat)
    requires m <= n < |bits| && forall i :: m < i <= n ==> bits[i] == 0
    ensures SizesOf(bits, n) == SizesOf(bits, m)
  {
    if m < n {
      SizesOfNone(bits, m, n - 1);
    }
  }

  lemma ZeroBits()
    ensures |BitsOf([0, 0])| == 16 && Hidden(BitsOf([0, 0]), [10])
    ensures Decodes(BitsOf([0, 0]), [10], [5], Symbol(5))
  {
    hide BitsOf, ToBits;
    AllZeros([0, 0]);
    ZeroToBits(10);
    var u, w := BitsOf([0, 0]), Word([10], 0);
    assert Code([10], 0) == 0;
    assert u[..10] == w;
    assert StartsWith(u, [10], 0);
  }

  lemma {:induction false} AllZeros(data: bytes)
    requires forall i :: 0 <= i < |data| ==> data[i] == 0
    ensures |BitsOf(data)| == 8 * |data| && forall k :: 0 <= k < |BitsOf(data)| ==> BitsOf(data)[k] == 0
  {
    if data != [] {
      AllZeros(data[..|data| - 1]);
      ZeroToBits(8);
    }
  }

  lemma {:induction false} ZeroToBits(n: nat)
    ensures forall k :: 0 <= k < n ==> ToBits(0, n)[k] == 0
  {
    if n > 0 {
      ZeroToBits(n - 1);
    }
  }

  method ExpandSizes(bits: seq<nat>) returns (sizes: seq<nat>)
    requires |bits| == 17
    ensures sizes == SizesOf(bits, 16)
  {
    sizes := [];
    for i := 1 to 17
      invariant sizes == SizesOf(bits, i - 1)
    {
      for j := 0 to bits[i]
        invariant sizes == SizesOf(bits, i - 1) + seq(j, _ => i)
      {
        sizes := sizes + [i];
      }
    }
  }

  method AssignCodes(sizes: seq<nat>) returns (codes: seq<nat>)
    requires IsSizes(sizes)
    ensures |codes| == |sizes| && forall k :: 0 <= k < |sizes| ==> codes[k] == Code(sizes, k)
  {
    hide Code, Pow2, CodeAhead;
    codes := [];
    CodeFirst(sizes);
    var code: nat, hz: nat, nbits: nat := 0, 0, if sizes == [] then 0 else sizes[0];
    while hz < |sizes|
      invariant hz == |codes| <= |sizes|
      invariant forall k :: 0 <= k < hz ==> codes[k] == Code(sizes, k)
      invariant hz < |sizes| ==> CodeAhead(sizes, hz, nbits, code)
      decreases |sizes| - hz, 17 - nbits
    {
      while hz < |sizes| && sizes[hz] == nbits
        invariant hz == |codes| <= |sizes|
        invariant forall k :: 0 <= k < hz ==> codes[k] == Code(sizes, k)
        invariant hz < |sizes| ==> CodeAhead(sizes, hz, nbits, code)
      {
        codes := codes + [code];
        CodeNext(sizes, hz, code);
        code, hz := code + 1, hz + 1;
      }
      if hz < |sizes| {
        CodeShifted(sizes, hz, nbits, code);
      }
      code, nbits := code * 2, nbits + 1;
    }
  }

  /** `code`, shifted to the length of entry `k`, is that entry's code. */
  ghost predicate CodeAhead(s: seq<nat>, k: nat, nbits: nat, code: nat)
    requires IsSizes(s) && k < |s|
  {
    nbits <= s[k] && code * Pow2(s[k] - nbits) == Code(s, k)
  }

  lemma CodeFirst(s: seq<nat>)
    requires IsSizes(s)
    ensures s != [] ==> CodeAhead(s, 0, s[0], 0)
  {
  }

  lemma CodeNext(s: seq<nat>, k: nat, code: nat)
    requires IsSizes(s) && k < |s| && CodeAhead(s, k, s[k], code)
    ensures code == Code(s, k)
    ensures k + 1 < |s| ==> CodeAhead(s, k + 1, s[k], code + 1)
  {
  }

  lemma CodeShifted(s: seq<nat>, k: nat, nbits: nat, code: nat)
    requires IsSizes(s) && k < |s| && CodeAhead(s, k, nbits, code) && nbits != s[k]
    ensures nbits < s[k] && CodeAhead(s, k, nbits + 1, code * 2)
  {
    hide Pow2, Code;
    DoublePow2(s[k] - nbits - 1);
    assert code * 2 * Pow2(s[k] - nbits - 1) == code * (2 * Pow2(s[k] - nbits - 1));
  }

  lemma NineBits(u: seq<bit>)
    requires |u| >= 9
    ensures Value(u[..9]) < 512
  {
    ValueBound(u[..9]);
    Pow2Small();
  }

  lemma FastRange(s: seq<nat>, i: nat)
    requires IsSizes(s) && Kraft(s) && i < |s| && s[i] <= 9
    ensures Code(s, i) * Pow2(9 - s[i]) + Pow2(9 - s[i]) <= 512
    ensures forall h: nat :: Owns(s, i, 128 * h) <==>
      Code(s, i) * Pow2(9 - s[i]) <= h < Code(s, i) * Pow2(9 - s[i]) + Pow2(9 - s[i])
  {
    hide Code, Left, Pow2;
    CodeIsLeft(s, i);
    ShortWidth(s[i]);
    LeftMonotone(s, i, |s|);
    assert Code(s, i) * (128 * Pow2(9 - s[i])) == 128 * (Code(s, i) * Pow2(9 - s[i]));
  }

  lemma FastStep(s: seq<nat>, vals: bytes, i: nat, h: nat, was: int, now: int)
    requires IsSizes(s) && i < |s| <= |vals| && s[i] <= 9
    requires FastEntry(s, vals, i, h, was)
    requires now == if Owns(s, i, 128 * h) then vals[i] else was
    ensures FastEntry(s, vals, i + 1, h, now)
  {
    hide Left, Pow2;
    if Owns(s, i, 128 * h) {
      forall k | 0 <= k < i && Owns(s, k, 128 * h) ensures false {
        OwnsUnique(s, k, i, 128 * h);
      }
    }
  }

  /** What the lookup entry for the next 9 bits says. */
  lemma FastLookup(u: seq<bit>, s: seq<nat>, vals: bytes, hcode: nat, entry: int)
    requires IsSizes(s) && Kraft(s) && |s| <= |vals| && |u| >= 9
    requires hcode == Value(u[..9]) && FastEntry(s, vals, |s|, hcode, entry)
    ensures entry >= 0 ==> exists k :: 0 <= k < |s| && s[k] <= 9 && vals[k] == entry && StartsWith(u, s, k)
    ensures entry < 0 ==> forall k :: 0 <= k < |s| && s[k] <= 9 ==> !StartsWith(u, s, k)
  {
    Pow2Small();
    WindowTop(u, 9);
    assert hcode == Window(u) / 128;
    forall k | 0 <= k < |s| && s[k] <= 9
      ensures StartsWith(u, s, k) <==> Owns(s, k, 128 * hcode)
    {
      StartsWithIffOwns(u, s, k);
      ShortOwns(s, k, Window(u));
    }
  }

  lemma {:induction false} SlowListMembers(s: seq<nat>, vals: bytes, size: nat, n: nat)
    requires IsSizes(s) && n <= |s| <= |vals|
    ensures forall k :: 0 <= k < n && s[k] == size ==> (Code(s, k), vals[k] as nat) in SlowList(s, vals, size, n)
    ensures forall e :: e in SlowList(s, vals, size, n) ==>
      exists k :: 0 <= k < n && s[k] == size && Code(s, k) == e.0 && vals[k] == e.1
  {
    if n > 0 {
      SlowListMembers(s, vals, size, n - 1);
    }
  }

  lemma {:induction false} SlowListFirst(s: seq<nat>, vals: bytes, n: nat)
    requires IsSizes(s) && 0 < n <= |s| <= |vals|
    ensures SlowList(s, vals, s[0], n) != [] && SlowList(s, vals, s[0], n)[0] == (0, vals[0] as nat)
  {
    if n > 1 {
      SlowListFirst(s, vals, n - 1);
    }
  }

  /** In the lists of the longer code words no code is zero, so zero can end them. */
  lemma SlowListCodes(s: seq<nat>, vals: bytes, size: nat, n: nat)
    requires IsSizes(s) && n <= |s| <= |vals| && (s != [] ==> s[0] != size)
    ensures forall m :: 0 <= m < |SlowList(s, vals, size, n)| ==> SlowList(s, vals, size, n)[m].0 != 0
  {
    var list := SlowList(s, vals, size, n);
    SlowListMembers(s, vals, size, n);
    forall m | 0 <= m < |list| ensures list[m].0 != 0 {
      assert list[m] in list;
      var k :| 0 <= k < n && s[k] == size && Code(s, k) == list[m].0 && vals[k] == list[m].1;
      CodePositive(s, k);
    }
  }

  lemma RowLookup(u: seq<bit>, s: seq<nat>, vals: bytes, nbits: nat, hcode: nat)
    requires IsSizes(s) && Kraft(s) && |s| <= |vals| && 10 <= nbits <= 16 && nbits <= |u| && hcode == Value(u[..nbits])
    ensures forall k :: 0 <= k < |s| && s[k] == nbits && StartsWith(u, s, k) ==>
      exists e :: e in SlowList(s, vals, nbits, |s|) && e.0 == hcode
    ensures forall v :: (hcode, v) in SlowList(s, vals, nbits, |s|) ==>
      exists k :: 0 <= k < |s| && s[k] == nbits && vals[k] == v && StartsWith(u, s, k)
  {
    hide Pow2, Code, Left, Word, Value, SlowList;
    SlowListMembers(s, vals, nbits, |s|);
    forall k | 0 <= k < |s| && s[k] == nbits
      ensures StartsWith(u, s, k) <==> Code(s, k) == hcode
    {
      StartsWithIffOwns(u, s, k);
    }
  }

  function CountOf(s: seq<nat>, size: nat): nat {
    if s == [] then 0 else CountOf(s[..|s| - 1], size) + if s[|s| - 1] == size then 1 else 0
  }

  lemma {:induction false} CountOfExpanded(bits: seq<nat>, n: nat, size: nat)
    requires n < |bits| && size >= 1
    ensures CountOf(SizesOf(bits, n), size) == if size <= n then bits[size] else 0
  {
    if n > 0 {
      CountOfExpanded(bits, n - 1, size);
      CountOfRepeat(SizesOf(bits, n - 1), n, bits[n], size);
    }
  }

  lemma {:induction false} CountOfRepeat(s: seq<nat>, x: nat, m: nat, size: nat)
    ensures CountOf(s + seq(m, _ => x), size) == CountOf(s, size) + if x == size then m else 0
  {
    var t := s + seq(m, _ => x);
    if m > 0 {
      CountOfRepeat(s, x, m - 1, size);
      assert t[..|t| - 1] == s + seq(m - 1, _ => x);
    } else {
      assert t == s;
    }
  }

  lemma {:induction false} SlowListCount(s: seq<nat>, vals: bytes, size: nat, n: nat)
    requires IsSizes(s) && n <= |s| <= |vals|
    ensures |SlowList(s, vals, size, n)| == CountOf(s[..n], size)
  {
    if n > 0 {
      SlowListCount(s, vals, size, n - 1);
      assert s[..n][..n - 1] == s[..n - 1];
    }
  }

  lemma {:induction false} CountOfMonotone(s: seq<nat>, size: nat, n: nat)
    requires n <= |s|
    ensures CountOf(s[..n], size) <= CountOf(s, size)
    decreases |s|
  {
    if n < |s| {
      CountOfMonotone(s[..|s| - 1], size, n);
      assert s[..|s| - 1][..n] == s[..n];
    } else {
      assert s[..n] == s;
    }
  }

  /** How long the list for one length is, all in all and before entry `i` of that length. */
  lemma SlowListLength(bits: seq<nat>, vals: bytes, size: nat, i: nat)
    requires |bits| == 17 && IsSizes(SizesOf(bits, 16)) && |SizesOf(bits, 16)| <= |vals| && 1 <= size <= 16
    ensures |SlowList(SizesOf(bits, 16), vals, size, |SizesOf(bits, 16)|)| == bits[size]
    ensures i < |SizesOf(bits, 16)| && SizesOf(bits, 16)[i] == size ==>
      |SlowList(SizesOf(bits, 16), vals, size, i)| < bits[size]
  {
    hide SizesOf, CountOf, Code, IsSizes;
    var s := SizesOf(bits, 16);
    CountOfExpanded(bits, 16, size);
    SlowListCount(s, vals, size, |s|);
    assert s[..|s|] == s;
    if i < |s| && s[i] == size {
      SlowListCount(s, vals, size, i + 1);
      CountOfMonotone(s, size, i + 1);
    }
  }
}
