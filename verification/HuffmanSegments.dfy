/** The Huffman tables in a file: each is stored as its number, the counts of its code lengths and its symbols. */
module HuffmanSegments {
  import opened Bytes
  import opened HuffmanTables
  import opened DataUnits
  import opened Options

  /** The high half of the index is zero for a DC table, the low half is its number. */
  datatype Segment = Segment(index: byte, counts: bytes, symbols: bytes) {
    ghost predicate WellFormed()
      ensures WellFormed() ==> |counts| == 16
    {
      |counts| == 16 && |symbols| == Sum(counts) && WellFormedSegment(Counts(counts), symbols)
    }

    function Stored(): bytes {
      [index] + counts + symbols
    }

    /** DC tables are numbered from 0, AC tables from 4. */
    function Table(): nat {
      (if index / 16 != 0 then 4 else 0) + index % 16
    }

    /** There are four tables of a kind, and 127 entries in the list of a length. */
    predicate Accepted()
      requires |counts| == 16
    {
      index % 16 < 4 && forall n :: 10 <= n <= 16 ==> Counts(counts)[n] <= 127
    }

    function Book(): CodeBook
      requires |counts| == 16
    {
      CodeBook(SizesOf(Counts(counts), 16), symbols)
    }
  }

  /** huff_bits[]: the count for length n is at index n. */
  function Counts(counts: bytes): (bits: seq<nat>)
    ensures |bits| == |counts| + 1
  {
    [0] + seq(|counts|, i requires 0 <= i < |counts| => counts[i] as nat)
  }

  function AllStored(segments: seq<Segment>): bytes {
    if segments == [] then [] else segments[0].Stored() + AllStored(segments[1..])
  }

  ghost predicate AllWellFormed(segments: seq<Segment>) {
    forall k :: 0 <= k < |segments| ==> segments[k].WellFormed()
  }

  /** The code of table `t`: a later segment replaces an earlier one. */
  ghost function BookFor(segments: seq<Segment>, t: nat): Option<CodeBook>
    requires AllWellFormed(segments)
  {
    if segments == [] then None
    else
      var n := |segments| - 1;
      if segments[n].Table() == t then Some(segments[n].Book()) else BookFor(segments[..n], t)
  }

  ghost predicate Separate(tables: seq<HuffmanTable>) {
    && (forall i :: 0 <= i < |tables| ==> tables[i].Allocated())
    && forall i, j :: 0 <= i < j < |tables| ==> Parts(tables[i]) !! Parts(tables[j])
  }

  ghost function Parts(t: HuffmanTable): set<object> {
    {t.lookup, t.codeSize, t.slow}
  }

  ghost function AllParts(tables: seq<HuffmanTable>): set<object> {
    set i, o: object | 0 <= i < |tables| && o in Parts(tables[i]) :: o
  }

  /** Every table that the segments define represents its code. */
  ghost predicate Loaded(tables: seq<HuffmanTable>, segments: seq<Segment>)
    requires |tables| == 8 && AllWellFormed(segments)
    reads AllParts(tables)
  {
    forall t: nat :: t < 8 && BookFor(segments, t).Some? ==>
      Represented(tables[t], BookFor(segments, t).value)
  }

  ghost predicate Represented(t: HuffmanTable, c: CodeBook)
    reads Parts(t)
  {
    t.Represents(c.sizes, c.symbols)
  }

  /** parse_DHT, behind the length: false where a number is too high or a list too long. */
  method ParseDht(payload: bytes, tables: seq<HuffmanTable>, ghost segments: seq<Segment>) returns (ok: bool)
    requires |tables| == 8 && Separate(tables)
    requires payload == AllStored(segments) && AllWellFormed(segments)
    modifies AllParts(tables)
    ensures ok <==> forall k :: 0 <= k < |segments| ==> segments[k].Accepted()
    ensures ok ==> Loaded(tables, segments)
  {
    hide Loaded, AllStored, Segment.Accepted, Segment.WellFormed, AllParts, Separate;
    var at := 0;
    ghost var k := 0;
    assert payload[0..] == payload && segments[0..] == segments;
    NothingLoaded(tables);
    assert segments[..0] == [];
    while at < |payload|
      invariant 0 <= at <= |payload| && 0 <= k <= |segments| && payload[at..] == AllStored(segments[k..])
      invariant forall i :: 0 <= i < k ==> segments[i].Accepted()
      invariant Loaded(tables, segments[..k])
    {
      StoredFirst(payload, at, segments, k);
      ok, at := LoadOne(payload, at, tables, segments, k);
      if !ok {
        return;
      }
      k := k + 1;
    }
    SomethingStored(segments[k..]);
    assert segments[..k] == segments;
    ok := true;
  }

  /** One round of the loop. */
  method LoadOne(payload: bytes, at: nat, tables: seq<HuffmanTable>, ghost segments: seq<Segment>, ghost k: nat)
    returns (ok: bool, next: nat)
    requires |tables| == 8 && Separate(tables) && AllWellFormed(segments) && k < |segments|
    requires var s := segments[k];
      && at + 17 + |s.symbols| <= |payload| && payload[at] == s.index
      && payload[at + 1..at + 17] == s.counts && payload[at + 17..at + 17 + |s.symbols|] == s.symbols
    requires Loaded(tables, segments[..k])
    modifies AllParts(tables)
    ensures ok <==> segments[k].Accepted()
    ensures ok ==> next == at + 17 + |segments[k].symbols| && Loaded(tables, segments[..k + 1])
  {
    hide Segment.Accepted, Segment.Table, Segment.Book, BookFor, Represented, Counts, Sum, SizesOf;
    ghost var s := segments[k];
    next := at;
    var bits, count := ReadCounts(payload, at + 1);
    var index: nat := payload[at];
    TableOf(s);
    if index % 16 >= 4 {
      return false, next;
    }
    var t := (if index / 16 != 0 then 4 else 0) + index % 16;
    ok := BuildTable(tables, t, bits, payload[at + 17..at + 17 + count], s);
    next := at + 17 + count;
    LoadedNext(segments, k);
    forall u: nat | ok && u < 8 && BookFor(segments[..k + 1], u).Some?
      ensures Represented(tables[u], BookFor(segments[..k + 1], u).value)
    {
      assert BookFor(segments[..k + 1], u) == BookAfter(segments, k, u);
      if u != t {
        assert old(Represented(tables[u], BookFor(segments[..k], u).value));
      }
    }
  }

  method ReadCounts(payload: bytes, at: nat) returns (bits: seq<nat>, count: nat)
    requires at + 16 <= |payload|
    ensures bits == Counts(payload[at..at + 16]) && count == Sum(payload[at..at + 16])
  {
    ghost var counts := payload[at..at + 16];
    bits, count := [0], 0;
    for i := 1 to 17
      invariant bits == Counts(counts[..i - 1]) && count == Sum(counts[..i - 1])
    {
      assert counts[..i][..i - 1] == counts[..i - 1] && counts[..i][i - 1] == payload[at + i - 1];
      bits, count := bits + [payload[at + i - 1] as nat], count + payload[at + i - 1];
    }
    assert counts[..16] == counts;
  }

  /** One call of build_huffman_table leaves the other tables alone. */
  method BuildTable(tables: seq<HuffmanTable>, t: nat, bits: seq<nat>, vals: bytes, ghost s: Segment) returns (ok: bool)
    requires |tables| == 8 && Separate(tables) && t < 8
    requires s.WellFormed() && bits == Counts(s.counts) && vals == s.symbols && s.index % 16 < 4
    modifies Parts(tables[t])
    ensures ok <==> s.Accepted()
    ensures ok ==> Represented(tables[t], s.Book())
    ensures forall i, c :: 0 <= i < 8 && i != t && old(Represented(tables[i], c)) ==> Represented(tables[i], c)
  {
    ok := tables[t].Build(bits, vals);
  }

  lemma TableOf(s: Segment)
    requires s.WellFormed()
    ensures s.index % 16 < 4 ==> s.Table() < 8
    ensures s.Table() == (if (s.index as nat) / 16 != 0 then 4 else 0) + (s.index as nat) % 16
    ensures s.Accepted() ==> s.index % 16 < 4
  {
  }

  lemma StoredFirst(payload: bytes, at: nat, segments: seq<Segment>, k: nat)
    requires at < |payload| && k <= |segments| && payload[at..] == AllStored(segments[k..]) && AllWellFormed(segments)
    ensures k < |segments|
    ensures var s := segments[k]; var n := Sum(s.counts);
      && s.WellFormed() && n == |s.symbols| && at + 17 + n <= |payload|
      && payload[at] == s.index && payload[at + 1..at + 17] == s.counts && payload[at + 17..at + 17 + n] == s.symbols
      && payload[at + 17 + n..] == AllStored(segments[k + 1..])
  {
    hide Sum, Counts, SizesOf;
    var rest := segments[k..];
    assert rest != [];
    assert rest[0] == segments[k] && rest[1..] == segments[k + 1..];
    var s := segments[k];
    Pieces([s.index], s.counts, s.symbols, AllStored(rest[1..]));
    Shifted(payload, at, 0, 1);
    Shifted(payload, at, 1, 17);
    Shifted(payload, at, 17, 17 + |s.symbols|);
    assert payload[at..][17 + |s.symbols|..] == payload[at + 17 + |s.symbols|..];
    assert payload[at..][0] == payload[at];
  }

  lemma Pieces(a: bytes, b: bytes, c: bytes, d: bytes)
    requires |a| == 1 && |b| == 16
    ensures var s := a + b + c + d;
      s[0..1] == a && s[1..17] == b && s[17..17 + |c|] == c && s[17 + |c|..] == d
  {
  }

  lemma Shifted(s: bytes, at: nat, i: nat, j: nat)
    requires at + j <= |s| && i <= j
    ensures s[at..][i..j] == s[at + i..at + j]
  {
  }

  lemma NothingLoaded(tables: seq<HuffmanTable>)
    requires |tables| == 8
    ensures AllWellFormed([]) && Loaded(tables, [])
  {
  }

  lemma SomethingStored(segments: seq<Segment>)
    ensures segments != [] ==> AllStored(segments) != []
  {
    if segments != [] {
      assert |segments[0].Stored()| >= 1;
    }
  }

  lemma LoadedNext(segments: seq<Segment>, k: nat)
    requires k < |segments| && AllWellFormed(segments)
    ensures AllWellFormed(segments[..k]) && AllWellFormed(segments[..k + 1])
    ensures forall t: nat :: BookFor(segments[..k + 1], t) == BookAfter(segments, k, t)
  {
    hide Segment.WellFormed, Segment.Table, Segment.Book;
    var next := segments[..k + 1];
    assert next[..k] == segments[..k] && next[k] == segments[k] && |next| - 1 == k;
    forall t: nat ensures BookFor(next, t) == BookAfter(segments, k, t) {
    }
  }

  ghost function BookAfter(segments: seq<Segment>, k: nat, t: nat): Option<CodeBook>
    requires k < |segments| && AllWellFormed(segments)
  {
    if segments[k].Table() == t then Some(segments[k].Book()) else BookFor(segments[..k], t)
  }
}
