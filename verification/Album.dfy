/** The picture frame as its user sees it: numbered slots and a total capacity.
    Where a picture lies in the flash chip does not show. */
module Albums {
  import opened Bytes
  import opened SectorCaches
  import opened AbfsFormat
  import opened Options
  import opened AbfsStore
  import opened Allocation

  datatype Request = Upload(picture: bytes) | Delete(idx: int) | DeleteAll

  predicate Acceptable(c: Config, q: Request) {
    q.Upload? ==> Storable(c, |q.picture|)
  }

  function FirstFree(a: Album): (f: nat)
    ensures f <= |a|
    ensures f < |a| ==> a[f] == None
    ensures forall i :: 0 <= i < f ==> a[i].Some?
  {
    if a == [] || a[0] == None then 0 else 1 + FirstFree(a[1..])
  }

  function NoPictures(n: nat): (a: Album)
    ensures |a| == n && forall i :: 0 <= i < n ==> a[i] == None
  {
    seq(n, _ => None)
  }

  /** One request against an album of limited capacity. */
  function Serve(c: Config, a: Album, q: Request): (Album, Status)
    requires c.Valid()
  {
    match q
    case Upload(p) =>
      if FirstFree(a) == |a| || TotalSize(a) + |p| > Capacity(c) then (a, NoSpace)
      else (a[FirstFree(a) := Some(Kept(c, p))], Ok)
    case Delete(idx) =>
      if 0 <= idx < |a| && a[idx].Some? then (a[idx := None], Ok) else (a, BadParameters)
    case DeleteAll => (NoPictures(|a|), Ok)
  }

  function ServeAll(c: Config, a: Album, qs: seq<Request>): (Album, seq<Status>)
    requires c.Valid()
  {
    if qs == [] then (a, [])
    else
      var n := |qs| - 1;
      var before := ServeAll(c, a, qs[..n]);
      var after := Serve(c, before.0, qs[n]);
      (after.0, before.1 + [after.1])
  }

  /** No run of requests overfills the frame, and each answer is there. */
  lemma {:induction false} ServeAllBounds(c: Config, a: Album, qs: seq<Request>)
    requires c.Valid() && TotalSize(a) <= Capacity(c)
    ensures var (b, rs) := ServeAll(c, a, qs);
      |b| == |a| && |rs| == |qs| && TotalSize(b) <= Capacity(c)
  {
    if qs != [] {
      var n := |qs| - 1;
      ServeAllBounds(c, a, qs[..n]);
      var b := ServeAll(c, a, qs[..n]).0;
      match qs[n]
      case Upload(p) =>
        if FirstFree(b) < |b| {
          TotalSizeUpdate(b, FirstFree(b), Some(Kept(c, p)));
        }
      case Delete(idx) =>
        if 0 <= idx < |b| {
          TotalSizeUpdate(b, idx, None);
        }
      case DeleteAll =>
        TotalSizeOfEmpty(NoPictures(|b|));
    }
  }

  /** Upload then delete gives back the room, and the album, there was before. */
  lemma UploadDelete(c: Config, a: Album, p: bytes)
    requires c.Valid() && Serve(c, a, Upload(p)).1 == Ok
    ensures var b := Serve(c, a, Upload(p)).0;
      && TotalSize(b) == TotalSize(a) + |Kept(c, p)|
      && Serve(c, b, Delete(FirstFree(a))) == (a, Ok)
  {
    var f := FirstFree(a);
    TotalSizeUpdate(a, f, Some(Kept(c, p)));
    assert a[f := Some(Kept(c, p))][f := None] == a;
  }

  // ---- what one request does to a flash image ----

  ghost predicate Served(c: Config, img: bytes, img': bytes, q: Request, r: Status)
    requires WellFormed(c, img)
  {
    match q
    case Upload(p) =>
      var free := FirstFree(View(c, img));
      if free == c.MaxCount() then r == NoSpace && img' == img else Written(c, img, img', free, p, r)
    case Delete(idx) =>
      if 0 <= idx < c.MaxCount() && View(c, img)[idx].Some? then
        r == Ok && WellFormed(c, img') && View(c, img') == View(c, img)[idx := None]
      else r == BadParameters && img' == img
    case DeleteAll => r == Ok && WellFormed(c, img') && View(c, img') == NoPictures(c.MaxCount())
  }

  /** An upload of which nothing is kept. */
  predicate Vanishes(c: Config, q: Request) {
    q.Upload? && Kept(c, q.picture) == []
  }

  /** The store stays well formed except when such an upload is served. */
  lemma ServedForm(c: Config, img: bytes, img': bytes, q: Request, r: Status)
    requires WellFormed(c, img) && Acceptable(c, q) && Served(c, img, img', q, r)
    ensures if r == Ok && Vanishes(c, q) then HollowAt(c, img', FirstFree(View(c, img)), View(c, img)) else WellFormed(c, img')
  {
    hide WellFormed, View, HasHole, FreeMemory, HollowAt;
    if q.Upload? && FirstFree(View(c, img)) < c.MaxCount() {
      WriteSucceedsIff(c, img, img', FirstFree(View(c, img)), q.picture, r);
    }
  }

  /** The images a run of requests goes through. */
  ghost predicate Run(c: Config, trace: seq<bytes>, qs: seq<Request>, rs: seq<Status>) {
    && |trace| == |qs| + 1 && |rs| == |qs|
    && (forall i :: 0 <= i < |trace| ==> WellFormed(c, trace[i]))
    && forall i :: 0 <= i < |qs| ==> Served(c, trace[i], trace[i + 1], qs[i], rs[i])
  }

  lemma RunPrefix(c: Config, trace: seq<bytes>, qs: seq<Request>, rs: seq<Status>)
    requires Run(c, trace, qs, rs) && qs != []
    ensures var n := |qs| - 1; Run(c, trace[..n + 1], qs[..n], rs[..n])
  {
    hide Served, WellFormed;
    var n := |qs| - 1;
    forall i | 0 <= i < n ensures Served(c, trace[..n + 1][i], trace[..n + 1][i + 1], qs[..n][i], rs[..n][i]) {
      assert Served(c, trace[i], trace[i + 1], qs[i], rs[i]);
    }
  }

  lemma ServedAligned(c: Config, img: bytes, img': bytes, q: Request, r: Status)
    requires WellFormed(c, img) && Aligned(c) && Acceptable(c, q) && Served(c, img, img', q, r)
    ensures r == Serve(c, View(c, img), q).1
    ensures WellFormed(c, img') ==> View(c, img') == Serve(c, View(c, img), q).0
  {
    hide View, Written, HollowAt;
    if q.Upload? && FirstFree(View(c, img)) < c.MaxCount() {
      AlignedWrite(c, img, img', FirstFree(View(c, img)), q.picture, r);
      HollowIsNotForm(c, img', FirstFree(View(c, img)), View(c, img));
    }
  }

  lemma HollowIsNotForm(c: Config, img: bytes, idx: nat, a: Album)
    ensures HollowAt(c, img, idx, a) ==> !WellFormed(c, img)
  {
  }

  /** In an aligned frame a run is a run of the album. */
  lemma {:induction false} RunAligned(c: Config, trace: seq<bytes>, qs: seq<Request>, rs: seq<Status>)
    requires Run(c, trace, qs, rs) && Aligned(c) && forall q :: q in qs ==> Acceptable(c, q)
    ensures c.Valid() && (View(c, trace[|qs|]), rs) == ServeAll(c, View(c, trace[0]), qs)
    decreases |qs|
  {
    hide Served, View, Serve, WellFormed;
    FormGivesValid(c, trace[0]);
    if qs != [] {
      var n := |qs| - 1;
      RunPrefix(c, trace, qs, rs);
      RunAligned(c, trace[..n + 1], qs[..n], rs[..n]);
      assert Served(c, trace[n], trace[n + 1], qs[n], rs[n]) && qs[n] in qs;
      ServedAligned(c, trace[n], trace[n + 1], qs[n], rs[n]);
      assert rs == rs[..n] + [rs[n]];
    }
  }

  // ---- frames that are not aligned ----

  /** Such a frame refuses a second picture for which there is room. */
  function ServeLone(c: Config, a: Album, q: Request): (Album, Status)
    requires c.Valid()
  {
    if q.Upload? && FirstUsed(a) < |a| && FirstFree(a) < |a| && TotalSize(a) + |q.picture| <= Capacity(c) then
      (a, BadParameters)
    else Serve(c, a, q)
  }

  function ServeAllLone(c: Config, a: Album, qs: seq<Request>): (Album, seq<Status>)
    requires c.Valid()
  {
    if qs == [] then (a, [])
    else
      var n := |qs| - 1;
      var before := ServeAllLone(c, a, qs[..n]);
      var after := ServeLone(c, before.0, qs[n]);
      (after.0, before.1 + [after.1])
  }

  /** At most one picture, at the front of the picture area. */
  ghost predicate Lone(c: Config, img: bytes)
    requires WellFormed(c, img)
  {
    Packed(c, img) && FirstOnly(View(c, img)) == View(c, img)
  }

  lemma EmptyIsLone(c: Config, img: bytes)
    requires WellFormed(c, img) && forall i :: 0 <= i < c.MaxCount() ==> View(c, img)[i] == None
    ensures Lone(c, img)
  {
    forall i | 0 <= i < c.MaxCount() ensures !Slot(c, img, i).present {
      assert View(c, img)[i] == None;
    }
    EmptyStorePacked(c, img);
    assert FirstOnly(View(c, img)) == View(c, img);
  }

  /** Deleting the only picture leaves none. */
  lemma LoneDeleted(a: Album, idx: nat)
    requires idx < |a| && FirstOnly(a) == a && a[idx].Some?
    ensures forall i :: 0 <= i < |a| && i != idx ==> a[i] == None
  {
    assert idx == FirstUsed(a);
  }

  lemma ServedLone(c: Config, img: bytes, img': bytes, q: Request, r: Status)
    requires WellFormed(c, img) && WellFormed(c, img') && !Aligned(c) && Acceptable(c, q) && Lone(c, img)
    requires Served(c, img, img', q, r)
    ensures Lone(c, img') && (View(c, img'), r) == ServeLone(c, View(c, img), q)
  {
    hide WellFormed, View, Packed, FirstOnly, TotalSize, Written;
    match q
    case Upload(p) =>
      if FirstFree(View(c, img)) < c.MaxCount() {
        UploadedLone(c, img, img', p, r);
      }
    case Delete(idx) =>
      if 0 <= idx < c.MaxCount() && View(c, img)[idx].Some? {
        LoneDeleted(View(c, img), idx);
        EmptyIsLone(c, img');
      }
    case DeleteAll =>
      EmptyIsLone(c, img');
  }

  lemma UploadedLone(c: Config, img: bytes, img': bytes, p: bytes, r: Status)
    requires WellFormed(c, img) && WellFormed(c, img') && !Aligned(c) && Storable(c, |p|) && Lone(c, img)
    requires var free := FirstFree(View(c, img)); free < c.MaxCount() && Written(c, img, img', free, p, r)
    ensures Lone(c, img') && (View(c, img'), r) == ServeLone(c, View(c, img), Upload(p))
  {
    hide WellFormed, View, Packed, FirstOnly, TotalSize;
    var a := View(c, img);
    FreeMemoryBounds(c, img, |p|);
    if |p| <= FreeMemory(c, img) {
      UnalignedHoleStart(c, img, |p|);
      if FirstUsed(a) == c.MaxCount() {
        assert FirstFree(a) == 0;
        FirstPlaced(c, img, img', p);
      }
    }
  }

  /** The first picture goes to the front. */
  lemma FirstPlaced(c: Config, img: bytes, img': bytes, p: bytes)
    requires WellFormed(c, img) && WellFormed(c, img') && Lone(c, img) && HasHole(c, img, |p|) && |p| > 0
    requires FirstUsed(View(c, img)) == c.MaxCount() && HoleStart(c, img, |p|) >= 0
    requires Placed(c, img, img', 0, HoleStart(c, img, |p|), p) && View(c, img') == View(c, img)[0 := Some(p)]
    ensures Lone(c, img')
  {
    hide Packed, FirstOnly, TotalSize, HasHole, HoleStart, UsedTable;
    forall i | 0 <= i < c.MaxCount() ensures !Slot(c, img, i).present {
      assert View(c, img)[i] == None;
    }
    EmptyStorePacked(c, img);
    FreeMemoryBounds(c, img, |p|);
    PackedHasRoom(c, img, |p|);
    TotalOfNone(View(c, img)[..0]);
    PackedExtends(c, img, img', 0, p);
    FirstOnlyOfOne(View(c, img), 0, Some(p));
  }

  lemma TotalOfNone(a: Album)
    requires a == []
    ensures TotalSize(a) == 0
  {
  }

  /** A run of an unaligned frame that starts with at most one picture never holds two: the whole run is
      determined, and every upload to a frame that is not empty is refused. */
  lemma {:induction false} RunLone(c: Config, trace: seq<bytes>, qs: seq<Request>, rs: seq<Status>)
    requires Run(c, trace, qs, rs) && !Aligned(c) && (forall q :: q in qs ==> Acceptable(c, q)) && Lone(c, trace[0])
    ensures Lone(c, trace[|qs|])
    ensures (View(c, trace[|qs|]), rs) == ServeAllLone(c, View(c, trace[0]), qs)
    decreases |qs|
  {
    hide Served, WellFormed, View, ServeLone, Lone;
    if qs != [] {
      var n := |qs| - 1;
      RunPrefix(c, trace, qs, rs);
      RunLone(c, trace[..n + 1], qs[..n], rs[..n]);
      assert Served(c, trace[n], trace[n + 1], qs[n], rs[n]) && qs[n] in qs;
      ServedLone(c, trace[n], trace[n + 1], qs[n], rs[n]);
      assert rs == rs[..n] + [rs[n]];
    }
  }
}
