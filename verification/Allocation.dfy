/** What the first-fit allocator and the defragmenter promise, on values. */
module Allocation {
  import opened Bytes
  import opened SectorCaches
  import opened AbfsFormat
  import opened Options
  import opened AbfsStore

  /** Sizes the encoders hand to the store. */
  predicate Storable(c: Config, size: nat) {
    && size > 0
    && (c.FixedSize() ==> size == c.fileSize)
    && (c.version.Ax3003? ==> size % 0x100 == 0)
  }

  /** Those of them that a table entry can express. */
  predicate Expressible(c: Config, size: nat) {
    Storable(c, size) && (c.version.Ax206? ==> size < 0x10000)
  }

  /** A picture may start where another one of the frame's size ends. */
  predicate Aligned(c: Config) {
    c.FixedSize() ==> c.fileSize % 0x100 == 0
  }

  ghost predicate HasHole(c: Config, img: bytes, size: nat)
    requires c.Valid() && |img| == c.memSize
  {
    FirstHole(UsedTable(c, img), size, 1) < |UsedTable(c, img)|
  }

  /** Start of the lowest hole of at least `size` bytes. */
  ghost function HoleStart(c: Config, img: bytes, size: nat): int
    requires c.Valid() && |img| == c.memSize && HasHole(c, img, size)
  {
    UsedTable(c, img)[FirstHole(UsedTable(c, img), size, 1) - 1].End()
  }

  ghost function FreeMemory(c: Config, img: bytes): int
    requires WellFormed(c, img)
  {
    Capacity(c) - TotalSize(View(c, img))
  }

  /** Only the first picture of an album. */
  function FirstUsed(a: Album): (f: nat)
    ensures f <= |a|
    ensures f < |a| ==> a[f].Some?
    ensures forall i :: 0 <= i < f ==> a[i] == None
  {
    if a == [] || a[0].Some? then 0 else 1 + FirstUsed(a[1..])
  }

  function FirstOnly(a: Album): (b: Album)
    ensures |b| == |a|
  {
    seq(|a|, i requires 0 <= i < |a| => if i == FirstUsed(a) then a[i] else None)
  }

  /** Slot `idx` got a picture of which `kept` is left; an entry for an empty one is not a well-formed store. */
  ghost predicate Got(c: Config, img: bytes, img': bytes, idx: nat, kept: bytes)
    requires WellFormed(c, img) && idx < c.MaxCount()
  {
    if kept == [] then HollowAt(c, img', idx, View(c, img))
    else WellFormed(c, img') && View(c, img') == View(c, img)[idx := Some(kept)]
  }

  /** The outcome of entering a picture at a given free address. */
  ghost predicate Entered(c: Config, img: bytes, img': bytes, idx: nat, address: int, p: bytes, r: Status)
    requires WellFormed(c, img) && idx < c.MaxCount()
  {
    if c.version.Ax206? || address % 0x100 == 0 then
      r == Ok && address >= 0 && Placed(c, img, img', idx, address, p) && Got(c, img, img', idx, Kept(c, p))
    else r == BadParameters && img' == img
  }

  /** The outcome of storing a picture in an empty slot. */
  ghost predicate Written(c: Config, img: bytes, img': bytes, idx: nat, p: bytes, r: Status)
    requires WellFormed(c, img) && idx < c.MaxCount()
  {
    if HasHole(c, img, |p|) then Entered(c, img, img', idx, HoleStart(c, img, |p|), p, r)
    else if FreeMemory(c, img) < |p| then r == NoSpace && img' == img
    else if Aligned(c) then r == Ok && Got(c, img, img', idx, Kept(c, p))
    else r == BadParameters && WellFormed(c, img') && View(c, img') == FirstOnly(View(c, img))
  }

  /** `img` is what defragmenting `was` for a picture of `size` bytes gave. */
  ghost predicate Defragmented(c: Config, was: bytes, img: bytes, size: nat)
    requires WellFormed(c, was) && WellFormed(c, img)
  {
    && !HasHole(c, was, size) && FreeMemory(c, was) >= size
    && Packed(c, img) && View(c, img) == View(c, was)
    && (Aligned(c) || FirstOnly(View(c, was)) == View(c, was))
  }

  /** One more than the highest occupied slot below `n`. */
  function UsedSlots(c: Config, img: bytes, n: nat): nat
    requires c.Valid() && |img| == c.memSize && n <= c.MaxCount()
  {
    if n == 0 then 0 else if Slot(c, img, n - 1).present then n else UsedSlots(c, img, n - 1)
  }

  /** What decoding guarantees about an occupied slot of a well-formed store. */
  lemma StoredEntries(c: Config, img: bytes, i: nat)
    requires WellFormed(c, img) && i < c.MaxCount() && Slot(c, img, i).present
    ensures Expressible(c, Slot(c, img, i).size)
    ensures !c.version.Ax206? ==> Slot(c, img, i).address % 0x100 == 0
    ensures !c.version.Ax206? && Aligned(c) ==> Slot(c, img, i).End() % 0x100 == 0
  {
    DecodedEntry(c, img[c.SlotOffset(i)..c.SlotOffset(i) + c.SlotWidth()]);
  }

  lemma DecodedEntry(c: Config, raw: bytes)
    requires c.Valid() && |raw| == c.SlotWidth() && DecodeInfo(c, raw).size > 0
    ensures Expressible(c, DecodeInfo(c, raw).size)
    ensures !c.version.Ax206? ==> DecodeInfo(c, raw).address % 0x100 == 0
    ensures !c.version.Ax206? && Aligned(c) ==> DecodeInfo(c, raw).End() % 0x100 == 0
  {
  }

  // ---- holes ----

  lemma {:induction false} HoleWithinSum(t: seq<FileInfo>, h: nat, n: nat)
    requires 1 <= h < n <= |t| && forall i :: 1 <= i < |t| ==> Hole(t, i) >= 0
    ensures Hole(t, h) <= SumHoles(t, n)
  {
    HolesNonNegative(t, n - 1);
    if h < n - 1 {
      HoleWithinSum(t, h, n - 1);
    }
  }

  lemma {:induction false} HolesNonNegative(t: seq<FileInfo>, n: nat)
    requires 1 <= n <= |t| && forall i :: 1 <= i < |t| ==> Hole(t, i) >= 0
    ensures SumHoles(t, n) >= 0
  {
    if n > 1 {
      HolesNonNegative(t, n - 1);
    }
  }

  /** A store never holds more than fits, and a hole is part of the free memory. */
  lemma FreeMemoryBounds(c: Config, img: bytes, size: nat)
    requires WellFormed(c, img)
    ensures FreeMemory(c, img) >= 0
    ensures HasHole(c, img, size) ==> FreeMemory(c, img) >= size
  {
    var t := UsedTable(c, img);
    UsedTableProperties(c, img);
    HolesNonNegative(t, |t|);
    if HasHole(c, img, size) {
      HoleWithinSum(t, FirstHole(t, size, 1), |t|);
    }
  }

  /** In a packed store all free memory is one hole, right behind the pictures. */
  lemma PackedHasRoom(c: Config, img: bytes, size: nat)
    requires WellFormed(c, img) && Packed(c, img) && 0 < size <= FreeMemory(c, img)
    ensures HasHole(c, img, size)
    ensures HoleStart(c, img, size) == c.HeaderEnd() + TotalSize(View(c, img))
  {
    PackedHoles(c, img);
  }

  /** Where sizes are multiples of 256, so are the ends of all pictures. */
  lemma HoleStartAligned(c: Config, img: bytes, size: nat)
    requires WellFormed(c, img) && HasHole(c, img, size) && Aligned(c) && !c.version.Ax206?
    ensures HoleStart(c, img, size) % 0x100 == 0
  {
    var t := UsedTable(c, img);
    var all := [HeaderEntry(c)] + PresentList(c, img, c.MaxCount());
    var e := t[FirstHole(t, size, 1) - 1];
    SortProperties(all);
    assert e in SortByAddress(all);
    EntryAligned(c, img, e);
  }

  lemma EntryAligned(c: Config, img: bytes, e: FileInfo)
    requires WellFormed(c, img) && Aligned(c) && !c.version.Ax206?
    requires e == HeaderEntry(c) || e in PresentList(c, img, c.MaxCount())
    ensures e.End() % 0x100 == 0
  {
    if e != HeaderEntry(c) {
      PresentListMembers(c, img, c.MaxCount());
      var i :| 0 <= i < c.MaxCount() && Slot(c, img, i).present && Slot(c, img, i) == e;
      StoredEntries(c, img, i);
    }
  }

  /** The table entries around the first hole bound free memory; without a hole, all of it is in pieces. */
  lemma HolesOf(c: Config, img: bytes, size: nat)
    requires WellFormed(c, img)
    ensures var t := UsedTable(c, img); SumHoles(t, |t|) == FreeMemory(c, img)
    ensures HasHole(c, img, size) ==>
              HoleStart(c, img, size) >= 0 && IsFree(c, img, HoleStart(c, img, size), HoleStart(c, img, size) + size)
  {
    UsedTableProperties(c, img);
  }

  // ---- writing ----

  /** Entering the slot and then storing the bytes adds one picture to the album. */
  lemma SlotAndPicture(c: Config, img: bytes, edited: bytes, idx: nat, address: nat, p: bytes)
    requires WellFormed(c, img) && idx < c.MaxCount() && !Slot(c, img, idx).present
    requires IsFree(c, img, address, address + |p|)
    requires OnlySlotChanged(c, img, edited, idx) && Slot(c, edited, idx) == FileInfo(address, true, |Kept(c, p)|)
    ensures var img' := Splice(edited, address, p);
      Placed(c, img, img', idx, address, p) && Got(c, img, img', idx, Kept(c, p))
  {
    hide View, DecodeInfo, HollowAt, WellFormed, Kept;
    FormGivesValid(c, img);
    var img' := Splice(edited, address, p);
    PictureWritten(c, edited, address, p);
    assert Placed(c, img, img', idx, address, p);
    if Kept(c, p) == [] {
      PlacedHollow(c, img, img', idx, address, p);
    } else {
      PlacedExtendsView(c, img, img', idx, address, p);
    }
  }

  lemma FormGivesValid(c: Config, img: bytes)
    requires WellFormed(c, img)
    ensures c.Valid() && |img| == c.memSize
  {
  }

  /** An aligned frame behaves like an album of limited total size: fragmentation is invisible. */
  lemma AlignedWrite(c: Config, img: bytes, img': bytes, idx: nat, p: bytes, r: Status)
    requires WellFormed(c, img) && idx < c.MaxCount() && Aligned(c) && Storable(c, |p|)
    requires Written(c, img, img', idx, p, r)
    ensures r == Ok <==> TotalSize(View(c, img)) + |p| <= Capacity(c)
    ensures r == Ok ==> Got(c, img, img', idx, Kept(c, p))
    ensures r != Ok ==> r == NoSpace && img' == img
  {
    FreeMemoryBounds(c, img, |p|);
    if HasHole(c, img, |p|) && !c.version.Ax206? {
      HoleStartAligned(c, img, |p|);
    }
  }

  /** Exactly when storing a picture works, and exactly when it costs other pictures. */
  lemma WriteSucceedsIff(c: Config, img: bytes, img': bytes, idx: nat, p: bytes, r: Status)
    requires WellFormed(c, img) && idx < c.MaxCount() && Storable(c, |p|)
    requires Written(c, img, img', idx, p, r) && View(c, img)[idx] == None
    ensures r == Ok <==>
      (FreeMemory(c, img) >= |p| && (Aligned(c) || (HasHole(c, img, |p|) && HoleStart(c, img, |p|) % 0x100 == 0)))
    ensures r == Ok ==> Got(c, img, img', idx, Kept(c, p))
    ensures WellFormed(c, img') <==> r != Ok || Kept(c, p) != []
    ensures WellFormed(c, img') ==> ((forall i :: 0 <= i < c.MaxCount() && i != idx ==> View(c, img')[i] == View(c, img)[i]) <==>
      (Aligned(c) || HasHole(c, img, |p|) || FreeMemory(c, img) < |p| || FirstOnly(View(c, img)) == View(c, img)))
  {
    FreeMemoryBounds(c, img, |p|);
    if HasHole(c, img, |p|) && !c.version.Ax206? && Aligned(c) {
      HoleStartAligned(c, img, |p|);
    }
    if !Aligned(c) && !HasHole(c, img, |p|) && FreeMemory(c, img) >= |p| && View(c, img') != View(c, img) {
      var i :| 0 <= i < c.MaxCount() && View(c, img')[i] != View(c, img)[i];
    }
  }

  lemma EmptyStorePacked(c: Config, img: bytes)
    requires c.Valid() && |img| == c.memSize
    requires forall i :: 0 <= i < c.MaxCount() ==> !Slot(c, img, i).present
    ensures WellFormed(c, img) && Packed(c, img)
    ensures forall i :: 0 <= i < c.MaxCount() ==> View(c, img)[i] == None
    ensures TotalSize(View(c, img)) == 0
  {
    TotalSizeOfEmpty(View(c, img));
  }

  lemma SingleTotal(a: Album, f: nat)
    requires f < |a| && forall i :: 0 <= i < |a| && i != f ==> a[i] == None
    ensures TotalSize(a) == PictureSize(a[f])
  {
    TotalSizeUpdate(a, f, None);
    TotalSizeOfEmpty(a[f := None]);
  }

  /** With sizes that are not multiples of 256, a second picture finds no address it may start at. */
  lemma UnalignedHoleStart(c: Config, img: bytes, size: nat)
    requires WellFormed(c, img) && Packed(c, img) && 0 < size <= FreeMemory(c, img) && !Aligned(c)
    requires FirstOnly(View(c, img)) == View(c, img)
    ensures HasHole(c, img, size)
    ensures HoleStart(c, img, size) % 0x100 == 0 <==> FirstUsed(View(c, img)) == c.MaxCount()
  {
    hide Packed, View, FirstOnly, UsedTable, TotalSize;
    PackedHasRoom(c, img, size);
    OnlyPictureSize(c, img);
    UnalignedEnd(c);
  }

  lemma UnalignedEnd(c: Config)
    requires c.Valid() && !Aligned(c)
    ensures c.HeaderEnd() % 0x100 == 0 && (c.HeaderEnd() + c.fileSize) % 0x100 != 0
  {
  }

  lemma OnlyPictureSize(c: Config, img: bytes)
    requires WellFormed(c, img) && FirstOnly(View(c, img)) == View(c, img) && c.FixedSize()
    ensures TotalSize(View(c, img)) == if FirstUsed(View(c, img)) == c.MaxCount() then 0 else c.fileSize
  {
    var a := View(c, img);
    var f := FirstUsed(a);
    if f == |a| {
      TotalSizeOfEmpty(a);
    } else {
      assert forall i :: 0 <= i < |a| && i != f ==> FirstOnly(a)[i] == None;
      SingleTotal(a, f);
      StoredEntries(c, img, f);
    }
  }

  lemma NoHoleMeansUsed(c: Config, img: bytes, size: nat)
    requires WellFormed(c, img) && !HasHole(c, img, size) && 0 < size <= FreeMemory(c, img)
    ensures FirstUsed(View(c, img)) < c.MaxCount()
  {
    if FirstUsed(View(c, img)) == c.MaxCount() {
      forall i | 0 <= i < c.MaxCount() ensures !Slot(c, img, i).present {
        assert View(c, img)[i] == None;
      }
      EmptyStorePacked(c, img);
      PackedHasRoom(c, img, size);
    }
  }

  lemma WrittenInHole(c: Config, was: bytes, before: bytes, after: bytes, idx: nat, p: bytes, r: Status)
    requires WellFormed(c, was) && WellFormed(c, before)
    requires idx < c.MaxCount() && Storable(c, |p|) && HasHole(c, before, |p|)
    requires before == was || Defragmented(c, was, before, |p|)
    requires Entered(c, before, after, idx, HoleStart(c, before, |p|), p, r)
    ensures Written(c, was, after, idx, p, r)
  {
    if before != was {
      if Aligned(c) {
        if !c.version.Ax206? {
          HoleStartAligned(c, before, |p|);
        }
      } else {
        NoHoleMeansUsed(c, was, |p|);
        UnalignedHoleStart(c, before, |p|);
      }
    }
  }

  lemma SameSlots(c: Config, img: bytes, img': bytes, i: nat)
    requires WellFormed(c, img) && WellFormed(c, img') && i < c.MaxCount() && View(c, img) == View(c, img')
    ensures Slot(c, img, i).present <==> Slot(c, img', i).present
  {
    assert View(c, img)[i] == View(c, img')[i];
  }

  lemma NotWritten(c: Config, img: bytes, idx: nat, p: bytes)
    requires WellFormed(c, img) && idx < c.MaxCount() && !HasHole(c, img, |p|) && FreeMemory(c, img) < |p|
    ensures Written(c, img, img, idx, p, NoSpace)
  {
  }

  lemma DefragRefused(c: Config, img: bytes, img': bytes, idx: nat, p: bytes)
    requires WellFormed(c, img) && WellFormed(c, img') && idx < c.MaxCount()
    requires !HasHole(c, img, |p|) && FreeMemory(c, img) >= |p|
    requires !Aligned(c) && View(c, img') == FirstOnly(View(c, img))
    ensures Written(c, img, img', idx, p, BadParameters)
  {
  }

  // ---- writing back after emptying the store ----

  /** The pictures below slot `n` are back. */
  ghost predicate WrittenBack(c: Config, img: bytes, album: Album, n: nat)
    requires WellFormed(c, img) && n <= c.MaxCount()
  {
    && |album| == c.MaxCount()
    && TotalSize(album) <= Capacity(c)
    && (forall i :: 0 <= i < |album| && album[i].Some? ==> Expressible(c, |album[i].value|))
    && Packed(c, img)
    && View(c, img)[..n] == album[..n]
    && (forall i :: n <= i < c.MaxCount() ==> View(c, img)[i] == None)
    && (Aligned(c) || FirstOnly(View(c, img)) == View(c, img))
  }

  lemma StoredPictures(c: Config, img: bytes)
    requires WellFormed(c, img)
    ensures TotalSize(View(c, img)) <= Capacity(c)
    ensures forall i :: 0 <= i < c.MaxCount() && View(c, img)[i].Some? ==> Expressible(c, |View(c, img)[i].value|)
  {
    FreeMemoryBounds(c, img, 0);
    forall i | 0 <= i < c.MaxCount() && View(c, img)[i].Some? ensures Expressible(c, |View(c, img)[i].value|) {
      StoredEntries(c, img, i);
    }
  }

  lemma EmptyStore(c: Config, img: bytes, album: Album)
    requires c.Valid() && |img| == c.memSize && |album| == c.MaxCount()
    requires TotalSize(album) <= Capacity(c)
    requires forall i :: 0 <= i < |album| && album[i].Some? ==> Expressible(c, |album[i].value|)
    requires forall i :: 0 <= i < c.MaxCount() ==> !Slot(c, img, i).present
    ensures WellFormed(c, img) && WrittenBack(c, img, album, 0)
  {
    EmptyStorePacked(c, img);
  }

  lemma SkipBack(c: Config, img: bytes, album: Album, n: nat)
    requires WellFormed(c, img) && n < c.MaxCount() && WrittenBack(c, img, album, n) && album[n] == None
    ensures WrittenBack(c, img, album, n + 1)
  {
    assert album[..n + 1] == album[..n] + [None];
    assert View(c, img)[..n + 1] == View(c, img)[..n] + [None];
  }

  lemma {:induction false} TotalOfPrefix(a: Album, n: nat)
    requires n <= |a| && forall i :: n <= i < |a| ==> a[i] == None
    ensures TotalSize(a) == TotalSize(a[..n])
  {
    if n < |a| {
      TotalOfPrefix(a[..|a| - 1], n);
      assert a[..|a| - 1][..n] == a[..n];
    } else {
      assert a[..n] == a;
    }
  }

  lemma NextFits(c: Config, img: bytes, album: Album, n: nat)
    requires WellFormed(c, img) && n < c.MaxCount() && WrittenBack(c, img, album, n) && album[n].Some?
    ensures 0 < |album[n].value| <= FreeMemory(c, img)
    ensures HasHole(c, img, |album[n].value|) && !Slot(c, img, n).present
    ensures HoleStart(c, img, |album[n].value|) == c.HeaderEnd() + TotalSize(album[..n])
  {
    TotalOfPrefix(View(c, img), n);
    TotalSizeMonotone(album, n + 1, |album|);
    assert album[..n + 1][..n] == album[..n];
    assert album[..|album|] == album;
    assert View(c, img)[n] == None;
    PackedHasRoom(c, img, |album[n].value|);
  }

  /** Entering the next picture behind a packed store leaves it packed. */
  lemma PackedExtends(c: Config, img: bytes, img': bytes, n: nat, p: bytes)
    requires WellFormed(c, img) && WellFormed(c, img') && n < c.MaxCount() && Packed(c, img)
    requires forall i :: n <= i < c.MaxCount() ==> !Slot(c, img, i).present
    requires Placed(c, img, img', n, c.HeaderEnd() + TotalSize(View(c, img)[..n]), p)
    ensures Packed(c, img')
  {
    PresentListTotal(c, img, n);
    forall i | 0 <= i <= n ensures PresentList(c, img', i) == PresentList(c, img, i) {
      PresentListDependsOnSlots(c, img, img', i);
    }
  }

  /** One step of the write-back: done, or refused because the frame cannot address a second picture. */
  lemma OneBack(c: Config, img: bytes, img': bytes, album: Album, n: nat, r: Status)
    requires WellFormed(c, img) && n < c.MaxCount()
    requires WrittenBack(c, img, album, n) && album[n].Some?
    requires Written(c, img, img', n, album[n].value, r)
    ensures WellFormed(c, img')
    ensures r == Ok ==> WrittenBack(c, img', album, n + 1)
    ensures r != Ok ==> r == BadParameters && !Aligned(c) && View(c, img') == FirstOnly(album) != album
  {
    hide View, Packed, TotalSize, FirstOnly, HollowAt, WellFormed, Storable;
    NextFits(c, img, album, n);
    KeptWhole(c, album[n].value);
    OneEntered(c, img, img', n, album[n].value, r);
    if r == Ok {
      OneMore(c, img, img', album, n);
    } else {
      SecondRefused(View(c, img), album, n);
    }
  }

  lemma OneEntered(c: Config, img: bytes, img': bytes, n: nat, p: bytes, r: Status)
    requires WellFormed(c, img) && Packed(c, img) && n < c.MaxCount()
    requires Storable(c, |p|) && |p| <= FreeMemory(c, img) && HasHole(c, img, |p|)
    requires Aligned(c) || FirstOnly(View(c, img)) == View(c, img)
    requires Entered(c, img, img', n, HoleStart(c, img, |p|), p, r)
    ensures r == if Aligned(c) || FirstUsed(View(c, img)) == c.MaxCount() then Ok else BadParameters
  {
    if !Aligned(c) {
      UnalignedHoleStart(c, img, |p|);
    } else if !c.version.Ax206? {
      HoleStartAligned(c, img, |p|);
    }
  }

  lemma OneMore(c: Config, img: bytes, img': bytes, album: Album, n: nat)
    requires WellFormed(c, img) && WellFormed(c, img') && n < c.MaxCount()
    requires WrittenBack(c, img, album, n) && album[n].Some?
    requires Placed(c, img, img', n, c.HeaderEnd() + TotalSize(album[..n]), album[n].value)
    requires View(c, img') == View(c, img)[n := album[n]]
    requires Aligned(c) || FirstUsed(View(c, img)) == c.MaxCount()
    ensures WrittenBack(c, img', album, n + 1)
  {
    hide Packed, TotalSize, Capacity, Storable, FirstOnly;
    var v := View(c, img);
    forall i | n <= i < c.MaxCount() ensures !Slot(c, img, i).present {
      assert v[i] == None;
    }
    PackedExtends(c, img, img', n, album[n].value);
    assert album[..n + 1] == album[..n] + [album[n]];
    assert View(c, img')[..n + 1] == v[..n] + [album[n]];
    if !Aligned(c) {
      FirstOnlyOfOne(v, n, album[n]);
    }
  }

  lemma FirstOnlyOfOne(v: Album, n: nat, p: Option<bytes>)
    requires n < |v| && p.Some? && FirstUsed(v) == |v|
    ensures FirstOnly(v[n := p]) == v[n := p]
  {
    var w := v[n := p];
    var f := FirstUsed(w);
    assert w[n] == p;
    assert forall i :: 0 <= i < n ==> w[i] == v[i] == None;
    assert f == n;
  }

  lemma SecondRefused(v: Album, album: Album, n: nat)
    requires |v| == |album| && n < |v| && album[n].Some? && v[..n] == album[..n]
    requires forall i :: n <= i < |v| ==> v[i] == None
    requires FirstOnly(v) == v && FirstUsed(v) < |v|
    ensures v == FirstOnly(album) != album
  {
    var f := FirstUsed(v);
    assert v[f] == v[..n][f] == album[..n][f] == album[f];
    forall i | 0 <= i < f ensures album[i] == None {
      assert v[i] == v[..n][i] == album[..n][i] == album[i];
    }
    assert FirstUsed(album) == f;
    assert v[n] != album[n];
  }
}
