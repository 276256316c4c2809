/** The AX203 driver's file operations: allocate, delete, defragment, read. */
module PictureFrames {
  import opened Bytes
  import opened SectorCaches
  import opened AbfsFormat
  import opened Options
  import opened AbfsStore
  import opened Allocation
  import opened Albums

  class PictureFrame {
    const cfg: Config
    const cache: SectorCache

    constructor (cfg: Config, cache: SectorCache)
      requires cache.Valid() && cfg.Valid() && cache.eeprom.size == cfg.memSize
      ensures Valid() && this.cfg == cfg && this.cache == cache
    {
      this.cfg, this.cache := cfg, cache;
    }

    ghost predicate Valid()
      reads this, cache, cache.mem, cache.isPresent, cache.isDirty, cache.eeprom
    {
      cache.Valid() && cfg.Valid() && cache.eeprom.size == cfg.memSize
    }

    method ReadFileinfo(idx: int) returns (r: Status, info: FileInfo)
      requires Valid()
      modifies cache.mem, cache.isPresent
      ensures Valid()
      ensures r == if 0 <= idx < cfg.MaxCount() then Ok else BadParameters
      ensures r == Ok ==> info == Slot(cfg, cache.image, idx)
    {
      info := FileInfo(0, false, 0);
      if idx < 0 || idx >= cfg.MaxCount() {
        return BadParameters, info;
      }
      var raw;
      r, raw := cache.ReadMem(cfg.SlotOffset(idx), cfg.SlotWidth());
      info := DecodeInfo(cfg, raw);
    }

    method WriteFileinfo(idx: nat, info: FileInfo) returns (r: Status)
      requires Valid() && idx < cfg.MaxCount()
      modifies cache`image, cache.mem, cache.isPresent, cache.isDirty
      ensures Valid()
      ensures r == if EncodeInfo(cfg, info, 0).Some? then Ok else BadParameters
      ensures r != Ok ==> cache.image == old(cache.image)
      ensures r == Ok ==> OnlySlotChanged(cfg, old(cache.image), cache.image, idx)
      ensures r == Ok ==> Slot(cfg, cache.image, idx) == DecodeInfo(cfg, EncodeInfo(cfg, info, 0).value)
      ensures r == Ok && info.present && Representable(cfg, info) ==> Slot(cfg, cache.image, idx) == info
      ensures r == Ok && !info.present ==> !Slot(cfg, cache.image, idx).present
    {
      var pad: byte := *;
      var raw := EncodeInfo(cfg, info, pad);
      PadIgnored(cfg, info, pad);
      if raw == None {
        return BadParameters;
      }
      r := cache.WriteMem(cfg.SlotOffset(idx), raw.value);
      SlotWritten(cfg, old(cache.image), idx, raw.value);
      if info.present {
        EntryRoundTrip(cfg, info, pad);
      } else {
        AbsentRoundTrip(cfg, info, pad);
      }
    }

    /** The firmware does not look at the count; like the original software we keep it anyway. */
    method UpdateFilecount() returns (r: Status)
      requires Valid()
      modifies cache`image, cache.mem, cache.isPresent, cache.isDirty
      ensures Valid() && r == Ok
      ensures OnlySlotChanged(cfg, old(cache.image), cache.image, cfg.MaxCount())
      ensures cfg.FixedSize() ==> cache.image[cfg.fsStart + 5] == UsedSlots(cfg, old(cache.image), cfg.MaxCount()) % 0x100
      ensures !cfg.FixedSize() ==> cache.image == old(cache.image)
    {
      hide DecodeInfo;
      var count := 0;
      for i := 0 to cfg.MaxCount()
        invariant Valid() && cache.image == old(cache.image)
        invariant count == UsedSlots(cfg, cache.image, i)
      {
        var info;
        r, info := ReadFileinfo(i);
        if info.present {
          count := i + 1;
        }
      }
      r := Ok;
      if cfg.FixedSize() {
        r := cache.WriteMem(cfg.fsStart + 5, [count % 0x100]);
        CountWritten(cfg, old(cache.image), count % 0x100);
      }
    }

    method BuildUsedMemTable() returns (r: Status, table: seq<FileInfo>)
      requires Valid()
      modifies cache.mem, cache.isPresent
      ensures Valid() && r == Ok
      ensures table == UsedTable(cfg, cache.image)
    {
      table := [HeaderEntry(cfg)];
      for i := 0 to cfg.MaxCount()
        invariant Valid()
        invariant table == [HeaderEntry(cfg)] + PresentList(cfg, cache.image, i)
      {
        var info;
        r, info := ReadFileinfo(i);
        if !info.present {
          continue;
        }
        table := table + [info];
      }
      table := SortByAddress(table);
      table := table + [FileInfo(cfg.MemEnd(), true, 0)];
      r := Ok;
    }

    method GetFreeMemSize() returns (r: Status, free: int)
      requires Valid() && WellFormed(cfg, cache.image)
      modifies cache.mem, cache.isPresent
      ensures Valid() && r == Ok
      ensures free == Capacity(cfg) - TotalSize(View(cfg, cache.image)) >= 0
    {
      var table;
      r, table := BuildUsedMemTable();
      free := 0;
      UsedTableProperties(cfg, cache.image);
      for i := 1 to |table|
        invariant free == SumHoles(table, i) >= 0
      {
        var prevEnd := table[i - 1].End();
        free := free + table[i].address - prevEnd;
      }
    }

    method FindFreeAbfsSlot() returns (r: Status, slot: nat)
      requires Valid()
      modifies cache.mem, cache.isPresent
      ensures Valid()
      ensures r == Ok ==> slot < cfg.MaxCount() && !Slot(cfg, cache.image, slot).present
                          && forall j :: 0 <= j < slot ==> Slot(cfg, cache.image, j).present
      ensures r != Ok ==> r == NoSpace && forall j :: 0 <= j < cfg.MaxCount() ==> Slot(cfg, cache.image, j).present
    {
      slot := 0;
      for i := 0 to cfg.MaxCount()
        invariant Valid()
        invariant forall j :: 0 <= j < i ==> Slot(cfg, cache.image, j).present
      {
        var info;
        r, info := ReadFileinfo(i);
        if !info.present {
          slot := i;
          return;
        }
      }
      r := NoSpace;
    }

    method ReadRawFile(idx: int) returns (r: Status, raw: bytes)
      requires Valid() && WellFormed(cfg, cache.image)
      modifies cache.mem, cache.isPresent
      ensures Valid()
      ensures r == Ok <==> 0 <= idx < cfg.MaxCount() && View(cfg, cache.image)[idx].Some?
      ensures r == Ok ==> raw == View(cfg, cache.image)[idx].value
      ensures r != Ok ==> r == BadParameters
    {
      raw := [];
      var info;
      r, info := ReadFileinfo(idx);
      if r != Ok {
        return;
      }
      if !info.present {
        return BadParameters, raw;
      }
      r, raw := cache.ReadMem(info.address, info.size);
    }

    method DeleteFile(idx: int) returns (r: Status)
      requires Valid() && WellFormed(cfg, cache.image)
      modifies cache`image, cache.mem, cache.isPresent, cache.isDirty
      ensures Valid() && WellFormed(cfg, cache.image)
      ensures r == Ok <==> 0 <= idx < cfg.MaxCount() && View(cfg, old(cache.image))[idx].Some?
      ensures r == Ok ==> View(cfg, cache.image) == View(cfg, old(cache.image))[idx := None]
      ensures r != Ok ==> r == BadParameters && cache.image == old(cache.image)
    {
      var info;
      r, info := ReadFileinfo(idx);
      if r != Ok {
        return;
      }
      if !info.present {
        return BadParameters;
      }
      StoredEntries(cfg, cache.image, idx);
      r := WriteFileinfo(idx, info.(present := false));
      r := UpdateFilecount();
      ClearedShrinksView(cfg, old(cache.image), cache.image, idx);
    }

    method DeleteAll() returns (r: Status)
      requires Valid()
      modifies cache`image, cache.mem, cache.isPresent, cache.isDirty
      ensures Valid() && r == Ok
      ensures forall i :: 0 <= i < cfg.MaxCount() ==> !Slot(cfg, cache.image, i).present
    {
      var zeros := Repeat(0, 0x1000 - cfg.TableOffset());
      r := cache.WriteMem(cfg.fsStart + cfg.TableOffset(), zeros);
      forall i | 0 <= i < cfg.MaxCount() ensures !Slot(cfg, cache.image, i).present {
        SlotsZeroed(cfg, cache.image, i);
      }
      r := UpdateFilecount();
    }

    /** Enter a picture in the table and store its bytes in free memory. */
    method PlaceFile(idx: nat, address: nat, buf: bytes) returns (r: Status)
      requires Valid() && WellFormed(cfg, cache.image)
      requires idx < cfg.MaxCount() && !Slot(cfg, cache.image, idx).present && Storable(cfg, |buf|)
      requires IsFree(cfg, cache.image, address, address + |buf|)
      modifies cache`image, cache.mem, cache.isPresent, cache.isDirty
      ensures Valid() && Entered(cfg, old(cache.image), cache.image, idx, address, buf, r)
    {
      r := WriteFileinfo(idx, FileInfo(address, true, |buf|));
      if r != Ok {
        return;
      }
      r := UpdateFilecount();
      ghost var edited := cache.image;
      r := cache.WriteMem(address, buf);
      EntryOfPicture(cfg, address, buf, 0);
      SlotAndPicture(cfg, old(cache.image), edited, idx, address, buf);
    }

    /** Look for the first hole that takes `size` bytes, adding up the holes passed over. */
    method FindHole(table: seq<FileInfo>, size: nat) returns (i: nat, free: int)
      requires |table| >= 1
      ensures i == FirstHole(table, size, 1)
      ensures free == SumHoles(table, if i < |table| then i else |table|)
    {
      i, free := 1, 0;
      while i < |table|
        invariant 1 <= i <= |table|
        invariant FirstHole(table, size, 1) == FirstHole(table, size, i)
        invariant free == SumHoles(table, i)
      {
        var prevEnd := table[i - 1].End();
        var holeSize := table[i].address - prevEnd;
        if holeSize >= size {
          return;
        }
        i, free := i + 1, free + holeSize;
      }
    }

    /** The branch of the allocator that found a hole; `was` is the image it started from. */
    method WriteIntoHole(idx: nat, address: int, buf: bytes, ghost was: bytes) returns (r: Status)
      requires Valid() && WellFormed(cfg, cache.image) && WellFormed(cfg, was)
      requires idx < cfg.MaxCount() && !Slot(cfg, cache.image, idx).present && Storable(cfg, |buf|)
      requires cache.image == was || Defragmented(cfg, was, cache.image, |buf|)
      requires HasHole(cfg, cache.image, |buf|) && address == HoleStart(cfg, cache.image, |buf|)
      modifies cache`image, cache.mem, cache.isPresent, cache.isDirty
      ensures Valid() && Written(cfg, was, cache.image, idx, buf, r)
    {
      ghost var before := cache.image;
      HolesOf(cfg, before, |buf|);
      r := PlaceFile(idx, address, buf);
      WrittenInHole(cfg, was, before, cache.image, idx, buf, r);
    }

    /** One pass of the allocator over the holes; not done if only defragmenting can help. */
    method TryWrite(idx: nat, buf: bytes, ghost was: bytes) returns (done: bool, r: Status)
      requires Valid() && WellFormed(cfg, cache.image) && WellFormed(cfg, was)
      requires idx < cfg.MaxCount() && !Slot(cfg, cache.image, idx).present && Storable(cfg, |buf|)
      requires cache.image == was ||
        (Defragmented(cfg, was, cache.image, |buf|) && HasHole(cfg, cache.image, |buf|))
      modifies cache`image, cache.mem, cache.isPresent, cache.isDirty
      ensures Valid() && (done ==> Written(cfg, was, cache.image, idx, buf, r))
      ensures !done ==> cache.image == old(cache.image) == was && !HasHole(cfg, was, |buf|) && FreeMemory(cfg, was) >= |buf|
    {
      var table, i, free;
      r, table := BuildUsedMemTable();
      i, free := FindHole(table, |buf|);
      HolesOf(cfg, cache.image, |buf|);
      if i < |table| {
        r := WriteIntoHole(idx, table[i - 1].End(), buf, was);
        return true, r;
      }
      if free >= |buf| {
        return false, Ok;
      }
      NotWritten(cfg, was, idx, buf);
      return true, NoSpace;
    }

    /** First fit; when only the sum of the holes is large enough, defragment and try again. */
    method WriteRawFile(idx: nat, buf: bytes) returns (r: Status)
      requires Valid() && WellFormed(cfg, cache.image)
      requires idx < cfg.MaxCount() && !Slot(cfg, cache.image, idx).present && Storable(cfg, |buf|)
      modifies cache`image, cache.mem, cache.isPresent, cache.isDirty
      ensures Valid() && Written(cfg, old(cache.image), cache.image, idx, buf, r)
      decreases if HasHole(cfg, cache.image, |buf|) then 0 else 2
    {
      hide WellFormed, Packed, UsedTable, TotalSize, FirstHole, Written, FirstOnly;
      ghost var was := cache.image;
      while true
        invariant Valid() && WellFormed(cfg, cache.image) && !Slot(cfg, cache.image, idx).present
        invariant cache.image == was ||
          (Defragmented(cfg, was, cache.image, |buf|) && HasHole(cfg, cache.image, |buf|))
        decreases if HasHole(cfg, cache.image, |buf|) then 0 else 1
      {
        var done;
        done, r := TryWrite(idx, buf, was);
        if done {
          return;
        }
        r := DefragMemory();
        if r != Ok {
          DefragRefused(cfg, was, cache.image, idx, buf);
          return;
        }
        PackedHasRoom(cfg, cache.image, |buf|);
        SameSlots(cfg, was, cache.image, idx);
      }
    }

    /** The first half of defragmenting: copy all pictures into memory. */
    method ReadAll() returns (r: Status, pictures: seq<Option<bytes>>)
      requires Valid() && WellFormed(cfg, cache.image)
      modifies cache.mem, cache.isPresent
      ensures Valid() && r == Ok && pictures == View(cfg, cache.image)
    {
      pictures := [];
      for i := 0 to cfg.MaxCount()
        invariant Valid() && |pictures| == i
        invariant forall j :: 0 <= j < i ==> pictures[j] == View(cfg, cache.image)[j]
      {
        var info, raw;
        r, info := ReadFileinfo(i);
        if !info.present {
          pictures := pictures + [None];
          continue;
        }
        r, raw := ReadRawFile(i);
        pictures := pictures + [Some(raw)];
      }
      r := Ok;
    }

    /** Read every picture, empty the store, and write the pictures back one after the other. */
    method DefragMemory() returns (r: Status)
      requires Valid() && WellFormed(cfg, cache.image)
      modifies cache`image, cache.mem, cache.isPresent, cache.isDirty
      ensures Valid() && WellFormed(cfg, cache.image)
      ensures if Aligned(cfg) || FirstOnly(View(cfg, old(cache.image))) == View(cfg, old(cache.image)) then
                r == Ok && Packed(cfg, cache.image) && View(cfg, cache.image) == View(cfg, old(cache.image))
              else
                r == BadParameters && View(cfg, cache.image) == FirstOnly(View(cfg, old(cache.image)))
      decreases 1, 1
    {
      hide Packed, TotalSize, FirstOnly, Storable;
      ghost var album := View(cfg, cache.image);
      var pictures;
      r, pictures := ReadAll();
      StoredPictures(cfg, cache.image);
      r := DeleteAll();
      EmptyStore(cfg, cache.image, album);
      r := WriteBack(pictures);
    }

    /** The last part of defragmenting. */
    method WriteBack(pictures: seq<Option<bytes>>) returns (r: Status)
      requires Valid() && WellFormed(cfg, cache.image) && WrittenBack(cfg, cache.image, pictures, 0)
      modifies cache`image, cache.mem, cache.isPresent, cache.isDirty
      ensures Valid() && WellFormed(cfg, cache.image)
      ensures r == Ok ==> WrittenBack(cfg, cache.image, pictures, cfg.MaxCount())
      ensures r != Ok ==> r == BadParameters && !Aligned(cfg) && View(cfg, cache.image) == FirstOnly(pictures) != pictures
      decreases 1, 0
    {
      hide View, Packed, TotalSize, FirstOnly, WellFormed, Storable, Written;
      r := Ok;
      for i := 0 to cfg.MaxCount()
        invariant Valid() && WellFormed(cfg, cache.image) && r == Ok
        invariant WrittenBack(cfg, cache.image, pictures, i)
      {
        if pictures[i] == None {
          SkipBack(cfg, cache.image, pictures, i);
          continue;
        }
        ghost var before := cache.image;
        NextFits(cfg, before, pictures, i);
        r := WriteRawFile(i, pictures[i].value);
        OneBack(cfg, before, cache.image, pictures, i, r);
        if r != Ok {
          return;
        }
      }
    }

    /** ax203_write_file, from the encoded picture on. */
    method WriteFile(p: bytes) returns (r: Status)
      requires Valid() && WellFormed(cfg, cache.image) && Storable(cfg, |p|)
      modifies cache`image, cache.mem, cache.isPresent, cache.isDirty
      ensures Valid() && Served(cfg, old(cache.image), cache.image, Upload(p), r)
    {
      var slot;
      r, slot := FindFreeAbfsSlot();
      FreeSlotIsFirstFree(cfg, cache.image, if r == Ok then slot else cfg.MaxCount());
      if r != Ok {
        return;
      }
      r := WriteRawFile(slot, p);
    }

    method Commit() returns (r: Status)
      requires Valid()
      modifies cache.mem, cache.isPresent, cache.isDirty, cache`protectionRemoved
      modifies cache.eeprom`flash, cache.eeprom`writeEnabled, cache.eeprom`busy, cache.eeprom`isProtected
      ensures Valid() && r == Ok && cache.eeprom.flash == cache.image
    {
      r := cache.Commit();
    }

    method ServeRequest(q: Request) returns (r: Status)
      requires Valid() && WellFormed(cfg, cache.image) && Acceptable(cfg, q)
      modifies cache`image, cache.mem, cache.isPresent, cache.isDirty
      ensures Valid() && Served(cfg, old(cache.image), cache.image, q, r)
    {
      match q {
        case Upload(p) =>
          r := WriteFile(p);
        case Delete(idx) =>
          r := DeleteFile(idx);
        case DeleteAll =>
          r := DeleteAll();
          EmptyStorePacked(cfg, cache.image);
          assert View(cfg, cache.image) == NoPictures(cfg.MaxCount());
      }
    }

    /** A whole session: any requests, then commit. The flash chip ends up with the last image of a run of these
        requests; in an aligned frame that is the album they describe, however often the store had to be
        defragmented on the way. An upload of which nothing is kept leaves an empty entry, with which the table of
        used memory is no longer reliable (see `TruncatedPictures.HollowEntryHides`): the session is followed up to there. */
    method Session(qs: seq<Request>) returns (served: nat, rs: seq<Status>, ghost trace: seq<bytes>)
      requires Valid() && WellFormed(cfg, cache.image) && forall q :: q in qs ==> Acceptable(cfg, q)
      modifies cache, cache.mem, cache.isPresent, cache.isDirty, cache.eeprom
      ensures Valid() && cache.eeprom.flash == cache.image && served <= |qs| && served <= |rs|
      ensures Run(cfg, trace, qs[..served], rs[..served]) && trace[0] == old(cache.image)
      ensures served == |qs| ==> |rs| == served && cache.image == trace[served]
      ensures served < |qs| ==>
        && |rs| == served + 1 && rs[served] == Ok && Vanishes(cfg, qs[served])
        && HollowAt(cfg, cache.image, FirstFree(View(cfg, trace[served])), View(cfg, trace[served]))
      ensures Aligned(cfg) ==>
        (View(cfg, trace[served]), rs[..served]) == ServeAll(cfg, View(cfg, old(cache.image)), qs[..served])
    {
      hide Served, WellFormed, Acceptable, Vanishes, HollowAt;
      served, rs, trace := 0, [], [cache.image];
      var hollow := false;
      while served < |qs| && !hollow
        invariant Valid() && 0 <= served <= |qs| && (hollow ==> served < |qs|)
        invariant |rs| == if hollow then served + 1 else served
        invariant Run(cfg, trace, qs[..served], rs[..served]) && trace[0] == old(cache.image)
        invariant !hollow ==> WellFormed(cfg, cache.image) && trace[served] == cache.image
        invariant hollow ==>
          && rs[served] == Ok && Vanishes(cfg, qs[served])
          && HollowAt(cfg, cache.image, FirstFree(View(cfg, trace[served])), View(cfg, trace[served]))
        decreases |qs| - served, !hollow
      {
        assert qs[served] in qs;
        ghost var was, before := trace, rs;
        assert rs[..served] == rs;
        var r := ServeRequest(qs[served]);
        ServedForm(cfg, was[served], cache.image, qs[served], r);
        rs := rs + [r];
        assert rs[..served] == before;
        if r == Ok && Vanishes(cfg, qs[served]) {
          hollow := true;
        } else {
          trace := trace + [cache.image];
          RunGrows(cfg, was, qs, served, before, r, cache.image);
          served := served + 1;
          assert rs[..served] == rs;
        }
      }
      if Aligned(cfg) {
        forall q | q in qs[..served] ensures Acceptable(cfg, q) {
        }
        RunAligned(cfg, trace, qs[..served], rs[..served]);
      }
      var _ := Commit();
    }
  }

  lemma RunGrows(c: Config, trace: seq<bytes>, qs: seq<Request>, i: nat, rs: seq<Status>, r: Status, img: bytes)
    requires i < |qs| && Run(c, trace, qs[..i], rs) && WellFormed(c, img) && Served(c, trace[i], img, qs[i], r)
    ensures Run(c, trace + [img], qs[..i + 1], rs + [r])
  {
    hide Served, WellFormed;
    var t, q, s := trace + [img], qs[..i + 1], rs + [r];
    forall k | 0 <= k < |q| ensures Served(c, t[k], t[k + 1], q[k], s[k]) {
      if k < i {
        assert Served(c, trace[k], trace[k + 1], qs[..i][k], rs[k]);
      }
    }
  }

  lemma FreeSlotIsFirstFree(c: Config, img: bytes, slot: nat)
    requires WellFormed(c, img) && slot <= c.MaxCount()
    requires slot < c.MaxCount() ==> !Slot(c, img, slot).present
    requires forall j :: 0 <= j < slot ==> Slot(c, img, j).present
    ensures FirstFree(View(c, img)) == slot
  {
    assert slot < c.MaxCount() ==> View(c, img)[slot] == None;
    assert forall j :: 0 <= j < slot ==> View(c, img)[j].Some?;
  }
}
