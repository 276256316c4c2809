/** What a flash image means as a picture store, and the reasoning behind the hole allocator:
    everything here is about values. */
module AbfsStore {
  import opened Bytes
  import opened AbfsFormat
  import opened Options

  /** The store as its user sees it: per table slot, the picture in it. */
  type Album = seq<Option<bytes>>

  function TotalSize(a: Album): nat {
    if a == [] then 0
    else TotalSize(a[..|a| - 1]) + match a[|a| - 1] case None => 0 case Some(p) => |p|
  }

  function Slot(c: Config, img: bytes, i: nat): FileInfo
    requires c.Valid() && |img| == c.memSize && i < c.MaxCount()
  {
    DecodeInfo(c, img[c.SlotOffset(i)..c.SlotOffset(i) + c.SlotWidth()])
  }

  predicate InPictureArea(c: Config, f: FileInfo) {
    f.size > 0 && c.HeaderEnd() <= f.address && f.End() <= c.MemEnd()
  }

  predicate Disjoint(f: FileInfo, g: FileInfo) {
    f.End() <= g.address || g.End() <= f.address
  }

  /** Pictures lie in the picture area and do not overlap. */
  ghost predicate WellFormed(c: Config, img: bytes) {
    && c.Valid() && |img| == c.memSize
    && (forall i :: 0 <= i < c.MaxCount() && Slot(c, img, i).present ==> InPictureArea(c, Slot(c, img, i)))
    && (forall i, j :: 0 <= i < j < c.MaxCount() && Slot(c, img, i).present && Slot(c, img, j).present ==>
          Disjoint(Slot(c, img, i), Slot(c, img, j)))
  }

  function SlotPicture(c: Config, img: bytes, i: nat): Option<bytes>
    requires WellFormed(c, img) && i < c.MaxCount()
  {
    var f := Slot(c, img, i);
    if f.present then Some(img[f.address..f.End()]) else None
  }

  ghost function View(c: Config, img: bytes): (a: Album)
    requires WellFormed(c, img)
    ensures |a| == c.MaxCount()
  {
    seq(c.MaxCount(), i requires 0 <= i < c.MaxCount() => SlotPicture(c, img, i))
  }

  /** Bytes a frame has for pictures. */
  function Capacity(c: Config): nat
    requires c.Valid()
  {
    c.MemEnd() - c.HeaderEnd()
  }

  // ---- changes to the image ----

  /** `img'` is `img` with a picture `p` at `address` entered in slot `idx`, and nothing else changed
      outside the table. */
  ghost predicate Placed(c: Config, img: bytes, img': bytes, idx: nat, address: nat, p: bytes)
    requires c.Valid() && |img| == c.memSize && idx < c.MaxCount()
  {
    && |img'| == |img| && c.HeaderEnd() <= address && address + |p| <= c.MemEnd()
    && Slot(c, img', idx) == FileInfo(address, true, |Kept(c, p)|)
    && (forall j :: 0 <= j < c.MaxCount() && j != idx ==> Slot(c, img', j) == Slot(c, img, j))
    && img'[address..address + |p|] == p
    && (forall k :: 0 <= k < |img| && !(c.fsStart <= k < c.fsStart + 0x1000) && !(address <= k < address + |p|) ==>
          img'[k] == img[k])
  }

  /** `img'` is `img` with slot `idx` emptied. */
  ghost predicate Cleared(c: Config, img: bytes, img': bytes, idx: nat)
    requires c.Valid() && |img| == c.memSize && idx < c.MaxCount()
  {
    && |img'| == |img|
    && !Slot(c, img', idx).present
    && (forall j :: 0 <= j < c.MaxCount() && j != idx ==> Slot(c, img', j) == Slot(c, img, j))
    && (forall k :: 0 <= k < |img| && !(c.fsStart <= k < c.fsStart + 0x1000) ==> img'[k] == img[k])
  }

  /** No picture touches [lo, hi). */
  ghost predicate IsFree(c: Config, img: bytes, lo: int, hi: int)
    requires c.Valid() && |img| == c.memSize
  {
    && c.HeaderEnd() <= lo <= hi <= c.MemEnd()
    && forall i :: 0 <= i < c.MaxCount() && Slot(c, img, i).present ==>
         Slot(c, img, i).End() <= lo || hi <= Slot(c, img, i).address
  }

  lemma PlacedKeepsForm(c: Config, img: bytes, img': bytes, idx: nat, address: nat, p: bytes)
    requires WellFormed(c, img) && idx < c.MaxCount() && !Slot(c, img, idx).present && Kept(c, p) != []
    requires IsFree(c, img, address, address + |p|) && Placed(c, img, img', idx, address, p)
    ensures WellFormed(c, img')
  {
    hide DecodeInfo;
  }

  lemma PlacedExtendsView(c: Config, img: bytes, img': bytes, idx: nat, address: nat, p: bytes)
    requires WellFormed(c, img) && idx < c.MaxCount() && !Slot(c, img, idx).present && Kept(c, p) != []
    requires IsFree(c, img, address, address + |p|) && Placed(c, img, img', idx, address, p)
    ensures WellFormed(c, img')
    ensures View(c, img') == View(c, img)[idx := Some(Kept(c, p))]
  {
    hide DecodeInfo;
    PlacedKeepsForm(c, img, img', idx, address, p);
    var n := |Kept(c, p)|;
    assert img'[address..address + n] == img'[address..address + |p|][..n];
    forall i | 0 <= i < c.MaxCount() && i != idx ensures SlotPicture(c, img', i) == SlotPicture(c, img, i) {
      var f := Slot(c, img, i);
      if f.present {
        assert img'[f.address..f.End()] == img[f.address..f.End()];
      }
    }
  }

  /** Slot `idx` is taken but empty; the other slots hold the pictures of `a`. */
  ghost predicate HollowAt(c: Config, img: bytes, idx: nat, a: Album) {
    && c.Valid() && |img| == c.memSize && idx < c.MaxCount() == |a|
    && Slot(c, img, idx).present && Slot(c, img, idx).size == 0
    && (forall i :: 0 <= i < c.MaxCount() && i != idx ==> Holds(c, img, i, a[i]))
    && (forall i, j :: 0 <= i < j < c.MaxCount() && i != idx && j != idx && Slot(c, img, i).present && Slot(c, img, j).present ==>
          Disjoint(Slot(c, img, i), Slot(c, img, j)))
  }

  ghost predicate Holds(c: Config, img: bytes, i: nat, p: Option<bytes>)
    requires c.Valid() && |img| == c.memSize && i < c.MaxCount()
  {
    var f := Slot(c, img, i);
    if f.present then InPictureArea(c, f) && p == Some(img[f.address..f.End()]) else p == None
  }

  /** A picture of which nothing is kept leaves an empty entry, and all others as they were. */
  lemma PlacedHollow(c: Config, img: bytes, img': bytes, idx: nat, address: nat, p: bytes)
    requires WellFormed(c, img) && idx < c.MaxCount() && !Slot(c, img, idx).present && Kept(c, p) == []
    requires IsFree(c, img, address, address + |p|) && Placed(c, img, img', idx, address, p)
    ensures HollowAt(c, img', idx, View(c, img))
  {
    hide DecodeInfo;
    forall i | 0 <= i < c.MaxCount() && i != idx ensures Holds(c, img', i, View(c, img)[i]) {
      var f := Slot(c, img, i);
      if f.present {
        assert img'[f.address..f.End()] == img[f.address..f.End()];
      }
    }
  }

  /** Deleting the empty entry repairs the store. */
  lemma HollowCleared(c: Config, img: bytes, img': bytes, idx: nat, a: Album)
    requires HollowAt(c, img, idx, a) && a[idx] == None && Cleared(c, img, img', idx)
    ensures WellFormed(c, img') && View(c, img') == a
  {
    hide DecodeInfo;
    forall i | 0 <= i < c.MaxCount() && i != idx
      ensures Slot(c, img', i).present ==> InPictureArea(c, Slot(c, img', i))
      ensures a[i] == if Slot(c, img', i).present then Some(img'[Slot(c, img', i).address..Slot(c, img', i).End()]) else None
    {
      assert Holds(c, img, i, a[i]);
      var f := Slot(c, img, i);
      if f.present {
        assert img'[f.address..f.End()] == img[f.address..f.End()];
      }
    }
    assert View(c, img') == a;
  }

  lemma ClearedShrinksView(c: Config, img: bytes, img': bytes, idx: nat)
    requires WellFormed(c, img) && idx < c.MaxCount() && Cleared(c, img, img', idx)
    ensures WellFormed(c, img')
    ensures View(c, img') == View(c, img)[idx := None]
  {
    forall i | 0 <= i < c.MaxCount() && i != idx ensures SlotPicture(c, img', i) == SlotPicture(c, img, i) {
      var f := Slot(c, img, i);
      if f.present {
        assert img'[f.address..f.End()] == img[f.address..f.End()];
      }
    }
  }

  // ---- the table of used memory ----

  /** Entries of the occupied slots below `n`, in slot order. */
  function PresentList(c: Config, img: bytes, n: nat): seq<FileInfo>
    requires c.Valid() && |img| == c.memSize && n <= c.MaxCount()
  {
    if n == 0 then []
    else if Slot(c, img, n - 1).present then PresentList(c, img, n - 1) + [Slot(c, img, n - 1)]
    else PresentList(c, img, n - 1)
  }

  function SumSizes(s: seq<FileInfo>): int {
    if s == [] then 0 else SumSizes(s[..|s| - 1]) + s[|s| - 1].size
  }

  predicate Apart(s: seq<FileInfo>) {
    forall i, j :: 0 <= i < j < |s| ==> Disjoint(s[i], s[j])
  }

  predicate Sorted(s: seq<FileInfo>) {
    forall i, j :: 0 <= i < j < |s| ==> s[i].address <= s[j].address
  }

  function InsertPos(s: seq<FileInfo>, e: FileInfo): (p: nat)
    ensures p <= |s|
    ensures forall k :: 0 <= k < p ==> s[k].address <= e.address
    ensures p < |s| ==> e.address < s[p].address
  {
    if s == [] || e.address < s[0].address then 0 else 1 + InsertPos(s[1..], e)
  }

  /** qsort by address. Stored pictures have distinct addresses, so every sort gives this table. */
  function SortByAddress(s: seq<FileInfo>): (r: seq<FileInfo>)
    ensures |r| == |s|
  {
    if s == [] then []
    else
      Insert(SortByAddress(s[..|s| - 1]), s[|s| - 1])
  }

  function HeaderEntry(c: Config): FileInfo {
    FileInfo(0, true, c.HeaderEnd())
  }

  function UsedTable(c: Config, img: bytes): (t: seq<FileInfo>)
    requires c.Valid() && |img| == c.memSize
    ensures |t| >= 2
  {
    SortByAddress([HeaderEntry(c)] + PresentList(c, img, c.MaxCount())) + [FileInfo(c.MemEnd(), true, 0)]
  }

  function Hole(t: seq<FileInfo>, i: nat): int
    requires 1 <= i < |t|
  {
    t[i].address - t[i - 1].End()
  }

  /** The first hole at or after `i` that takes `size` bytes; |t| if there is none. */
  function FirstHole(t: seq<FileInfo>, size: nat, i: nat): (h: nat)
    requires 1 <= i <= |t|
    ensures i <= h <= |t|
    ensures forall k :: i <= k < h ==> Hole(t, k) < size
    ensures h < |t| ==> Hole(t, h) >= size
    decreases |t| - i
  {
    if i == |t| || Hole(t, i) >= size then i else FirstHole(t, size, i + 1)
  }

  /** Sum of the holes before entry `n`. */
  function SumHoles(t: seq<FileInfo>, n: nat): int
    requires 1 <= n <= |t|
  {
    if n == 1 then 0 else SumHoles(t, n - 1) + Hole(t, n - 1)
  }

  // ---- its properties ----

  function Insert(r: seq<FileInfo>, e: FileInfo): (q: seq<FileInfo>)
    ensures |q| == |r| + 1
  {
    r[..InsertPos(r, e)] + [e] + r[InsertPos(r, e)..]
  }

  lemma InsertKeepsSorted(r: seq<FileInfo>, e: FileInfo)
    requires Sorted(r)
    ensures Sorted(Insert(r, e))
  {
  }

  lemma InsertKeepsApart(r: seq<FileInfo>, e: FileInfo)
    requires Apart(r) && forall k :: 0 <= k < |r| ==> Disjoint(r[k], e)
    ensures Apart(Insert(r, e))
  {
    var p, q := InsertPos(r, e), Insert(r, e);
    forall i, j | 0 <= i < j < |q| ensures Disjoint(q[i], q[j]) {
      if i != p && j != p {
        assert q[i] == r[if i < p then i else i - 1] && q[j] == r[if j < p then j else j - 1];
      }
    }
  }

  lemma InsertKeepsContents(r: seq<FileInfo>, e: FileInfo)
    ensures forall x :: x in Insert(r, e) <==> x in r || x == e
    ensures SumSizes(Insert(r, e)) == SumSizes(r) + e.size
  {
    var p := InsertPos(r, e);
    assert r == r[..p] + r[p..];
    SumSizesConcat(r[..p], r[p..]);
    SumSizesConcat(r[..p] + [e], r[p..]);
    assert (r[..p] + [e])[..p] == r[..p];
  }

  lemma {:induction false} SortProperties(s: seq<FileInfo>)
    ensures Sorted(SortByAddress(s))
    ensures forall e :: e in SortByAddress(s) <==> e in s
    ensures SumSizes(SortByAddress(s)) == SumSizes(s)
    ensures Apart(s) ==> Apart(SortByAddress(s))
  {
    if s != [] {
      var init, e := s[..|s| - 1], s[|s| - 1];
      assert s == init + [e];
      SortProperties(init);
      var r := SortByAddress(init);
      InsertKeepsSorted(r, e);
      InsertKeepsContents(r, e);
      if Apart(s) {
        forall k | 0 <= k < |r| ensures Disjoint(r[k], e) {
          assert r[k] in r;
          var i :| 0 <= i < |init| && init[i] == r[k];
          assert Disjoint(s[i], s[|init|]);
        }
        InsertKeepsApart(r, e);
      }
    }
  }

  lemma {:induction false} SumSizesConcat(a: seq<FileInfo>, b: seq<FileInfo>)
    ensures SumSizes(a + b) == SumSizes(a) + SumSizes(b)
  {
    if b == [] {
      assert a + b == a;
    } else {
      SumSizesConcat(a, b[..|b| - 1]);
      assert (a + b)[..|a + b| - 1] == a + b[..|b| - 1];
    }
  }

  lemma {:induction false} SortOfSorted(s: seq<FileInfo>)
    requires forall i, j :: 0 <= i < j < |s| ==> s[i].address < s[j].address
    ensures SortByAddress(s) == s
  {
    if s != [] {
      SortOfSorted(s[..|s| - 1]);
      assert s == s[..|s| - 1] + [s[|s| - 1]];
    }
  }

  /** The list holds exactly the occupied slots. */
  lemma {:induction false} PresentListMembers(c: Config, img: bytes, n: nat)
    requires WellFormed(c, img) && n <= c.MaxCount()
    ensures Apart(PresentList(c, img, n))
    ensures forall i :: 0 <= i < n && Slot(c, img, i).present ==> Slot(c, img, i) in PresentList(c, img, n)
    ensures forall e :: e in PresentList(c, img, n) ==> exists i :: 0 <= i < n && Slot(c, img, i).present && Slot(c, img, i) == e
    ensures forall e :: e in PresentList(c, img, n) ==> InPictureArea(c, e)
  {
    if n > 0 {
      PresentListMembers(c, img, n - 1);
      var l := PresentList(c, img, n - 1);
      if Slot(c, img, n - 1).present {
        forall k | 0 <= k < |l| ensures Disjoint(l[k], Slot(c, img, n - 1)) {
          assert l[k] in l;
          var i :| 0 <= i < n - 1 && Slot(c, img, i).present && Slot(c, img, i) == l[k];
        }
      }
    }
  }

  lemma {:induction false} PresentListTotal(c: Config, img: bytes, n: nat)
    requires WellFormed(c, img) && n <= c.MaxCount()
    ensures SumSizes(PresentList(c, img, n)) == TotalSize(View(c, img)[..n])
  {
    if n > 0 {
      PresentListTotal(c, img, n - 1);
      assert View(c, img)[..n][..n - 1] == View(c, img)[..n - 1];
      var l := PresentList(c, img, n - 1);
      assert (l + [Slot(c, img, n - 1)])[..|l|] == l;
    }
  }

  /** Holes telescope. */
  lemma {:induction false} SumHolesTelescopes(t: seq<FileInfo>, n: nat)
    requires 1 <= n <= |t|
    ensures SumHoles(t, n) == t[n - 1].address - t[0].address - SumSizes(t[..n - 1])
  {
    if n > 1 {
      SumHolesTelescopes(t, n - 1);
      assert t[..n - 1][..n - 2] == t[..n - 2];
    }
  }

  lemma UsedTableOrder(c: Config, img: bytes)
    requires WellFormed(c, img)
    ensures var t := UsedTable(c, img);
      && t[0] == HeaderEntry(c)
      && (forall i, j :: 0 <= i < j < |t| ==> t[i].End() <= t[j].address)
      && (forall k :: 0 <= k < |t| ==> t[k].size >= 0)
      && (forall k :: 0 <= k < c.MaxCount() && Slot(c, img, k).present ==> Slot(c, img, k) in t[..|t| - 1])
  {
    var list := PresentList(c, img, c.MaxCount());
    PresentListMembers(c, img, c.MaxCount());
    HeaderFirst(c, list);
    var t := UsedTable(c, img);
    assert t[..|t| - 1] == SortByAddress([HeaderEntry(c)] + list);
  }

  lemma HeaderFirst(c: Config, list: seq<FileInfo>)
    requires c.Valid() && Apart(list) && forall e :: e in list ==> InPictureArea(c, e)
    ensures var s := SortByAddress([HeaderEntry(c)] + list);
      && s[0] == HeaderEntry(c)
      && (forall e :: e in list ==> e in s)
      && (forall i, j :: 0 <= i < j < |s| ==> s[i].End() <= s[j].address)
      && (forall i :: 0 <= i < |s| ==> s[i].End() <= c.MemEnd() && s[i].size > 0)
  {
    var all := [HeaderEntry(c)] + list;
    assert forall k :: 0 <= k < |list| ==> list[k] in list && InPictureArea(c, list[k]);
    SortProperties(all);
    assert all[1..] == list;
    TableInOrder(c, all, SortByAddress(all));
  }

  lemma UsedTableSum(c: Config, img: bytes)
    requires WellFormed(c, img)
    ensures var t := UsedTable(c, img); SumSizes(t[..|t| - 1]) == c.HeaderEnd() + TotalSize(View(c, img))
  {
    var list := PresentList(c, img, c.MaxCount());
    var all, t := [HeaderEntry(c)] + list, UsedTable(c, img);
    SortProperties(all);
    assert t[..|t| - 1] == SortByAddress(all);
    SumSizesConcat([HeaderEntry(c)], list);
    PresentListTotal(c, img, c.MaxCount());
    assert View(c, img)[..c.MaxCount()] == View(c, img);
  }

  /** In a well-formed store, the used-memory table starts with the header, is in memory order,
      and its holes are exactly the free memory. */
  lemma UsedTableProperties(c: Config, img: bytes)
    requires WellFormed(c, img)
    ensures var t := UsedTable(c, img);
      && t[0] == HeaderEntry(c)
      && (forall i, j :: 0 <= i < j < |t| ==> t[i].End() <= t[j].address)
      && SumHoles(t, |t|) == Capacity(c) - TotalSize(View(c, img))
      && (forall i :: 1 <= i < |t| ==> IsFree(c, img, t[i - 1].End(), t[i].address))
  {
    var t := UsedTable(c, img);
    UsedTableOrder(c, img);
    SumHolesTelescopes(t, |t|);
    UsedTableSum(c, img);
    forall i | 1 <= i < |t| ensures IsFree(c, img, t[i - 1].End(), t[i].address) {
      HolesAreFree(c, img, t, i);
    }
  }

  lemma HolesAreFree(c: Config, img: bytes, t: seq<FileInfo>, i: nat)
    requires WellFormed(c, img) && 1 <= i < |t|
    requires t[0] == HeaderEntry(c) && t[|t| - 1].address == c.MemEnd()
    requires forall i, j :: 0 <= i < j < |t| ==> t[i].End() <= t[j].address
    requires forall k :: 0 <= k < c.MaxCount() && Slot(c, img, k).present ==> Slot(c, img, k) in t[..|t| - 1]
    requires forall k :: 0 <= k < |t| ==> t[k].size >= 0
    ensures IsFree(c, img, t[i - 1].End(), t[i].address)
  {
    forall k | 0 <= k < c.MaxCount() && Slot(c, img, k).present
      ensures Slot(c, img, k).End() <= t[i - 1].End() || t[i].address <= Slot(c, img, k).address
    {
      var at :| 0 <= at < |t| - 1 && t[at] == Slot(c, img, k);
    }
  }

  lemma TableInOrder(c: Config, all: seq<FileInfo>, s: seq<FileInfo>)
    requires c.Valid() && |all| >= 1 && all[0] == HeaderEntry(c) && |s| == |all|
    requires forall e :: e in all[1..] ==> InPictureArea(c, e)
    requires Sorted(s) && Apart(s) && forall e :: e in s <==> e in all
    ensures s[0] == HeaderEntry(c)
    ensures forall i, j :: 0 <= i < j < |s| ==> s[i].End() <= s[j].address
    ensures forall i :: 0 <= i < |s| ==> s[i].End() <= c.MemEnd() && s[i].size > 0
  {
    assert all == [all[0]] + all[1..];
    forall k | 0 <= k < |s| ensures s[k] == HeaderEntry(c) || InPictureArea(c, s[k]) {
      assert s[k] in s;
    }
    assert HeaderEntry(c) in s;
    var h :| 0 <= h < |s| && s[h] == HeaderEntry(c);
    assert s[0].address <= s[h].address;
  }

  // ---- packed stores ----

  /** Pictures stand in slot order, back to back, right behind the header. */
  ghost predicate Packed(c: Config, img: bytes)
    requires c.Valid() && |img| == c.memSize
  {
    forall i :: 0 <= i < c.MaxCount() && Slot(c, img, i).present ==>
      Slot(c, img, i).address == c.HeaderEnd() + SumSizes(PresentList(c, img, i))
  }

  /** `l` lists pictures standing back to back from `start`. */
  ghost predicate Contiguous(l: seq<FileInfo>, start: int) {
    forall k :: 0 <= k < |l| ==> l[k].address == start + SumSizes(l[..k])
  }

  lemma {:induction false} PackedList(c: Config, img: bytes, n: nat)
    requires WellFormed(c, img) && Packed(c, img) && n <= c.MaxCount()
    ensures Contiguous(PresentList(c, img, n), c.HeaderEnd())
  {
    if n > 0 {
      PackedList(c, img, n - 1);
      var l, l' := PresentList(c, img, n - 1), PresentList(c, img, n);
      forall k | 0 <= k < |l'| ensures l'[k].address == c.HeaderEnd() + SumSizes(l'[..k]) {
        assert l'[..k] == l[..k];
        assert l[..|l|] == l;
      }
    }
  }

  lemma ContiguousSteps(l: seq<FileInfo>, start: int)
    requires Contiguous(l, start)
    ensures forall k :: 0 < k < |l| ==> l[k].address == l[k - 1].End()
    ensures l != [] ==> l[0].address == start && l[|l| - 1].End() == start + SumSizes(l)
  {
    forall k | 0 < k < |l| ensures l[k].address == l[k - 1].End() {
      assert l[..k][..k - 1] == l[..k - 1];
    }
  }

  /** The only hole of a packed store is the one behind the last picture. */
  lemma PackedHoles(c: Config, img: bytes)
    requires WellFormed(c, img) && Packed(c, img)
    ensures var t := UsedTable(c, img);
      && (forall i :: 1 <= i < |t| - 1 ==> Hole(t, i) == 0)
      && Hole(t, |t| - 1) == Capacity(c) - TotalSize(View(c, img))
      && t[|t| - 2].End() == c.HeaderEnd() + TotalSize(View(c, img))
  {
    hide Packed, TotalSize, SumSizes, InPictureArea, SortByAddress, InsertPos;
    var l, n := PresentList(c, img, c.MaxCount()), c.MaxCount();
    PackedList(c, img, n);
    PresentListMembers(c, img, n);
    ContiguousSteps(l, c.HeaderEnd());
    BackToBack(c, l);
    PresentListTotal(c, img, n);
    assert View(c, img)[..n] == View(c, img);
    SortOfPictures(c, l);
    PackedTable(c, l, UsedTable(c, img));
  }

  lemma PackedTable(c: Config, l: seq<FileInfo>, t: seq<FileInfo>)
    requires c.Valid()
    requires forall k :: 0 < k < |l| ==> l[k].address == l[k - 1].End()
    requires l != [] ==> l[0].address == c.HeaderEnd() && l[|l| - 1].End() == c.HeaderEnd() + SumSizes(l)
    requires t == [HeaderEntry(c)] + l + [FileInfo(c.MemEnd(), true, 0)]
    ensures forall i :: 1 <= i < |t| - 1 ==> Hole(t, i) == 0
    ensures t[|t| - 2].End() == c.HeaderEnd() + SumSizes(l)
    ensures Hole(t, |t| - 1) == Capacity(c) - SumSizes(l)
  {
    forall i | 1 <= i < |t| - 1 ensures Hole(t, i) == 0 {
      assert t[i] == l[i - 1];
      assert t[i - 1] == if i == 1 then HeaderEntry(c) else l[i - 2];
    }
    assert t[|t| - 2] == if l == [] then HeaderEntry(c) else l[|l| - 1];
  }

  lemma SortOfPictures(c: Config, l: seq<FileInfo>)
    requires c.Valid() && forall e :: e in l ==> InPictureArea(c, e)
    requires forall i, j :: 0 <= i < j < |l| ==> l[i].address < l[j].address
    ensures SortByAddress([HeaderEntry(c)] + l) == [HeaderEntry(c)] + l
  {
    hide SortByAddress, InsertPos;
    var s := [HeaderEntry(c)] + l;
    forall i, j | 0 <= i < j < |s| ensures s[i].address < s[j].address {
      assert s[j] == l[j - 1] && l[j - 1] in l;
      if i > 0 {
        assert s[i] == l[i - 1];
      }
    }
    SortOfSorted(s);
  }

  lemma {:induction false} BackToBack(c: Config, l: seq<FileInfo>)
    requires c.Valid() && forall e :: e in l ==> InPictureArea(c, e)
    requires forall k :: 0 < k < |l| ==> l[k].address == l[k - 1].End()
    ensures forall i, j :: 0 <= i < j < |l| ==> l[i].address < l[j].address
  {
    if |l| > 0 {
      var init := l[..|l| - 1];
      assert forall e :: e in init ==> e in l;
      BackToBack(c, init);
      forall i | 0 <= i < |init| ensures l[i].address < l[|init|].address {
        assert l[|init| - 1] in l;
        assert init[|init| - 1] == l[|init| - 1];
      }
    }
  }

  lemma PresentListDependsOnSlots(c: Config, img: bytes, img': bytes, n: nat)
    requires c.Valid() && |img| == |img'| == c.memSize && n <= c.MaxCount()
    requires forall i :: 0 <= i < n ==> Slot(c, img, i) == Slot(c, img', i)
    ensures PresentList(c, img, n) == PresentList(c, img', n)
  {
    if n > 0 {
      PresentListDependsOnSlots(c, img, img', n - 1);
    }
  }

  // ---- albums ----

  function PictureSize(p: Option<bytes>): nat {
    match p case None => 0 case Some(b) => |b|
  }

  lemma {:induction false} TotalSizeUpdate(a: Album, i: nat, p: Option<bytes>)
    requires i < |a|
    ensures TotalSize(a[i := p]) == TotalSize(a) - PictureSize(a[i]) + PictureSize(p)
  {
    if i == |a| - 1 {
      assert a[i := p][..|a| - 1] == a[..|a| - 1];
    } else {
      TotalSizeUpdate(a[..|a| - 1], i, p);
      assert a[i := p][..|a| - 1] == a[..|a| - 1][i := p];
    }
  }

  lemma {:induction false} TotalSizeMonotone(a: Album, i: nat, j: nat)
    requires i <= j <= |a|
    ensures TotalSize(a[..i]) <= TotalSize(a[..j])
  {
    if i < j {
      TotalSizeMonotone(a, i, j - 1);
      assert a[..j][..j - 1] == a[..j - 1];
    }
  }

  lemma TotalSizeOfEmpty(a: Album)
    requires forall i :: 0 <= i < |a| ==> a[i] == None
    ensures TotalSize(a) == 0
  {
  }

  // ---- edits of the table ----

  /** Slot `idx` was edited; pictures and other slots were not. */
  ghost predicate OnlySlotChanged(c: Config, img: bytes, img': bytes, idx: nat)
    requires c.Valid() && |img| == c.memSize
  {
    && |img'| == |img|
    && (forall j :: 0 <= j < c.MaxCount() && j != idx ==> Slot(c, img', j) == Slot(c, img, j))
    && (forall k :: 0 <= k < |img| && !(c.fsStart <= k < c.fsStart + 0x1000) ==> img'[k] == img[k])
  }

  lemma SlotsAreSeparate(c: Config, i: nat, j: nat)
    requires i != j
    ensures c.SlotOffset(i) + c.SlotWidth() <= c.SlotOffset(j) || c.SlotOffset(j) + c.SlotWidth() <= c.SlotOffset(i)
  {
  }

  /** Overwriting the bytes of one slot. */
  lemma SlotWritten(c: Config, img: bytes, idx: nat, raw: bytes)
    requires c.Valid() && |img| == c.memSize && idx < c.MaxCount() && |raw| == c.SlotWidth()
    ensures var img' := Splice(img, c.SlotOffset(idx), raw);
      OnlySlotChanged(c, img, img', idx) && Slot(c, img', idx) == DecodeInfo(c, raw)
  {
    var img' := Splice(img, c.SlotOffset(idx), raw);
    SpliceReads(img, c.SlotOffset(idx), raw, c.SlotOffset(idx), c.SlotOffset(idx) + c.SlotWidth());
    forall j | 0 <= j < c.MaxCount() && j != idx ensures Slot(c, img', j) == Slot(c, img, j) {
      SlotsAreSeparate(c, idx, j);
      SpliceReads(img, c.SlotOffset(idx), raw, c.SlotOffset(j), c.SlotOffset(j) + c.SlotWidth());
    }
  }

  /** The picture count lies in front of the slots. */
  lemma CountWritten(c: Config, img: bytes, b: byte)
    requires c.Valid() && |img| == c.memSize
    ensures var img' := Splice(img, c.fsStart + 5, [b]);
      OnlySlotChanged(c, img, img', c.MaxCount())
  {
    forall j | 0 <= j < c.MaxCount() ensures Slot(c, Splice(img, c.fsStart + 5, [b]), j) == Slot(c, img, j) {
      SpliceReads(img, c.fsStart + 5, [b], c.SlotOffset(j), c.SlotOffset(j) + c.SlotWidth());
    }
  }

  /** Pictures lie behind the table. */
  lemma PictureWritten(c: Config, img: bytes, address: nat, p: bytes)
    requires c.Valid() && |img| == c.memSize && c.HeaderEnd() <= address && address + |p| <= c.MemEnd()
    ensures forall j :: 0 <= j < c.MaxCount() ==> Slot(c, Splice(img, address, p), j) == Slot(c, img, j)
    ensures Splice(img, address, p)[address..address + |p|] == p
  {
    forall j | 0 <= j < c.MaxCount() ensures Slot(c, Splice(img, address, p), j) == Slot(c, img, j) {
      SpliceReads(img, address, p, c.SlotOffset(j), c.SlotOffset(j) + c.SlotWidth());
    }
  }

  /** Zeroing all slots empties the store. */
  lemma SlotsZeroed(c: Config, img: bytes, i: nat)
    requires c.Valid() && |img| == c.memSize && i < c.MaxCount()
    requires forall k :: c.fsStart + c.TableOffset() <= k < c.fsStart + 0x1000 ==> img[k] == 0
    ensures !Slot(c, img, i).present
  {
    var raw := img[c.SlotOffset(i)..c.SlotOffset(i) + c.SlotWidth()];
    assert forall k :: 0 <= k < |raw| ==> raw[k] == 0;
  }
}
