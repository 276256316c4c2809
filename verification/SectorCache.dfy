/** The driver's lazily filled, write-back copy of the flash chip.
    `image` is the flat memory the rest of the driver believes it is editing. */
module SectorCaches {
  import opened Bytes
  import opened EepromDevice

  datatype Status = Ok | NoSpace | BadParameters | CorruptedData | ChecksumMismatch

  class SectorCache {
    const mem: array<byte>
    const isPresent: array<bool>
    const isDirty: array<bool>
    const eeprom: Eeprom
    /** The chip takes a whole 64K block in one program command. */
    const programs64k: bool
    /** The bridge adds up what it programmed (every firmware but the AX3003's). */
    const hasChecksum: bool
    var protectionRemoved: bool

    ghost var image: bytes

    ghost const Repr: set<object> := {this, mem, isPresent, isDirty, eeprom}

    /** The flash chip agrees with the image wherever no write-back is owed. */
    ghost predicate Valid()
      reads this, mem, isPresent, isDirty, eeprom
    {
      && Cached()
      && (forall s :: 0 <= s < isDirty.Length && !isDirty[s] ==> Agrees(eeprom.flash, image, s))
    }

    /** The in-memory half of `Valid`. */
    ghost predicate Cached()
      reads this, mem, isPresent, isDirty, eeprom
    {
      && isPresent != isDirty
      && eeprom.Valid() && isPresent.Length == isDirty.Length && isPresent.Length % 16 == 0
      && mem.Length == |image| == eeprom.size == isPresent.Length * 4096
      && !eeprom.busy
      && (eeprom.isProtected ==> programs64k && !protectionRemoved)
      && (forall s :: 0 <= s < isDirty.Length && isDirty[s] ==> isPresent[s])
      && (forall s :: 0 <= s < isPresent.Length && isPresent[s] ==> Agrees(mem[..], image, s))
    }

    constructor (eeprom: Eeprom, programs64k: bool, hasChecksum: bool)
      requires eeprom.Valid() && eeprom.size % 65536 == 0 && !eeprom.busy
      requires eeprom.isProtected ==> programs64k
      ensures Valid() && this.eeprom == eeprom && image == eeprom.flash
      ensures fresh(Repr - {eeprom})
    {
      hide Agrees;
      SectorCount(eeprom.size);
      this.eeprom, this.programs64k, this.hasChecksum := eeprom, programs64k, hasChecksum;
      mem := new byte[eeprom.size](_ => 0);
      isPresent := new bool[eeprom.size / 4096](_ => false);
      isDirty := new bool[eeprom.size / 4096](_ => false);
      protectionRemoved := false;
      image := eeprom.flash;
      new;
      SameImage(eeprom.flash);
    }

    static lemma SectorCount(size: nat)
      requires size % 65536 == 0
      ensures size / 4096 % 16 == 0 && size / 4096 * 4096 == size
    {
      var blocks := size / 65536;
      assert size == 4096 * (16 * blocks);
    }

    lemma SameImage(img: bytes)
      ensures forall s: nat :: 4096 * s + 4096 <= |img| ==> Agrees(img, img, s)
    {
    }

    method CheckSectorPresent(sector: nat) returns (r: Status)
      requires Valid()
      modifies mem, isPresent
      ensures Valid()
      ensures r == if sector < isPresent.Length then Ok else CorruptedData
      ensures forall s :: 0 <= s < isPresent.Length ==> isPresent[s] == (old(isPresent[s]) || s == sector)
    {
      if (sector + 1) * 4096 > eeprom.size {
        return CorruptedData;
      }
      if isPresent[sector] {
        return Ok;
      }
      var base := sector * 4096;
      var data := eeprom.Read(base, 4096);
      CopyIn(base, data);
      isPresent[sector] := true;
      AgreesAfterCopy(old(mem[..]), mem[..], data, sector, image);
      return Ok;
    }

    /** memcpy into the cached copy */
    method CopyIn(offset: nat, data: bytes)
      requires offset + |data| <= mem.Length
      modifies mem
      ensures mem[..] == Splice(old(mem[..]), offset, data)
    {
      forall k | 0 <= k < |data| {
        mem[offset + k] := data[k];
      }
    }

    /** The body of the read loop. */
    method ReadInSector(sector: nat, at: nat, len: nat) returns (piece: bytes)
      requires Valid() && sector < isPresent.Length && isPresent[sector]
      requires sector * 4096 <= at && at + len <= (sector + 1) * 4096
      ensures piece == image[at..at + len]
    {
      assert Agrees(mem[..], image, sector);
      piece := mem[at..at + len];
    }

    /** One round of the read loop. */
    method ReadRound(sector: nat, at: nat, left: nat) returns (r: Status, piece: bytes)
      requires Valid() && left > 0 && InSector(sector, at)
      modifies mem, isPresent
      ensures Valid()
      ensures r == if sector < isPresent.Length then Ok else CorruptedData
      ensures r == Ok ==> 0 < |piece| <= left && at + |piece| <= eeprom.size && piece == image[at..at + |piece|]
      ensures r == Ok && |piece| < left ==> InSector(sector + 1, at + |piece|)
      ensures r != Ok ==> at >= eeprom.size
    {
      piece := [];
      r := CheckSectorPresent(sector);
      if r != Ok {
        return;
      }
      piece := ReadInSector(sector, at, UpToSectorEnd(at, left, sector));
    }

    method ReadMem(offset: nat, len: nat) returns (r: Status, buf: bytes)
      requires Valid()
      modifies mem, isPresent
      ensures Valid()
      ensures r == if len == 0 || offset + len <= eeprom.size then Ok else CorruptedData
      ensures r == Ok && len > 0 ==> buf == image[offset..offset + len]
      ensures len == 0 ==> buf == []
    {
      var at, left, sector := offset, len, offset / 4096;
      buf := [];
      while left > 0
        invariant Valid() && at + left == offset + len && 0 <= left <= len && sector >= 0
        invariant left == len || at <= eeprom.size
        invariant left > 0 ==> InSector(sector, at)
        invariant buf == if left == len then [] else image[offset..at]
      {
        var piece;
        r, piece := ReadRound(sector, at, left);
        if r != Ok {
          return;
        }
        buf := buf + piece;
        left, at, sector := left - |piece|, at + |piece|, sector + 1;
      }
      r := Ok;
    }

    /** The body of the write loop: change cached bytes of one sector and mark it dirty. */
    method WriteInSector(sector: nat, at: nat, data: bytes, ghost was: bytes, ghost offset: nat, ghost earlier: bytes)
      requires at == offset + |earlier| && image == Stored(was, offset, earlier)
      requires Valid() && sector < isPresent.Length && isPresent[sector]
      requires sector * 4096 <= at && at + |data| <= (sector + 1) * 4096
      modifies this`image, mem, isDirty
      ensures Valid() && image == Stored(was, offset, earlier + data)
    {
      CopyIn(at, data);
      isDirty[sector] := true;
      image := Splice(image, at, data);
      AgreesAfterWrite(old(mem[..]), old(image), at, data, sector);
      StoredAppend(was, offset, earlier, data);
    }

    /** One round of the write loop: copy up to the end of the sector. */
    method WriteRound(sector: nat, offset: nat, data: bytes, done: nat, ghost was: bytes) returns (r: Status, toCopy: nat)
      requires Valid() && done < |data| && InSector(sector, offset + done)
      requires image == Stored(was, offset, data[..done]) && (done == 0 || offset + done <= eeprom.size)
      modifies this`image, mem, isPresent, isDirty
      ensures Valid()
      ensures r == Ok ==> 0 < toCopy <= |data| - done && offset + done + toCopy <= eeprom.size
      ensures r == Ok && done + toCopy < |data| ==> InSector(sector + 1, offset + done + toCopy)
      ensures r == Ok ==> image == Stored(was, offset, data[..done + toCopy])
      ensures r != Ok ==> r == CorruptedData && offset + |data| > eeprom.size && image == Stored(was, offset, data)
    {
      toCopy := UpToSectorEnd(offset + done, |data| - done, sector);
      r := CheckSectorPresent(sector);
      if r != Ok {
        StoredBeyondEnd(was, offset, data, done);
        return;
      }
      var piece := data[done..done + toCopy];
      WriteInSector(sector, offset + done, piece, was, offset, data[..done]);
      assert data[..done] + piece == data[..done + toCopy];
    }

    method WriteMem(offset: nat, data: bytes) returns (r: Status)
      requires Valid()
      modifies this`image, mem, isPresent, isDirty
      ensures Valid()
      ensures r == if data == [] || offset + |data| <= eeprom.size then Ok else CorruptedData
      // a write that runs off the end has already stored the part that fits
      ensures image == Stored(old(image), offset, data)
    {
      hide *;
      var done, sector := 0, offset / 4096;
      SectorOf(offset);
      while done < |data|
        invariant Valid() && 0 <= done <= |data| && sector >= 0
        invariant done == 0 || offset + done <= eeprom.size
        invariant done < |data| ==> InSector(sector, offset + done)
        invariant image == Stored(old(image), offset, data[..done])
      {
        var toCopy;
        r, toCopy := WriteRound(sector, offset, data, done, old(image));
        if r != Ok {
          return;
        }
        done, sector := done + toCopy, sector + 1;
      }
      assert data[..done] == data;
      r := Ok;
    }

    /** Program an erased sector, one 256 byte page at a time. */
    method WriteSector(sector: nat, data: bytes)
      requires eeprom.Valid() && !eeprom.busy && !eeprom.isProtected
      requires |data| == 4096 && (sector + 1) * 4096 <= eeprom.size
      requires Erased(eeprom.flash, sector * 4096, 4096)
      modifies eeprom`flash, eeprom`writeEnabled, eeprom`busy
      ensures eeprom.Valid() && !eeprom.busy
      ensures eeprom.flash == Splice(old(eeprom.flash), sector * 4096, data)
    {
      var i, base := 0, sector * 4096;
      while i < 4096
        invariant 0 <= i <= 4096 && i % 256 == 0 && eeprom.Valid() && !eeprom.busy
        invariant eeprom.flash == Splice(old(eeprom.flash), base, data[..i])
      {
        eeprom.WriteEnable();
        PageAligned(sector, i);
        ProgramErased(base + i, data[i..i + 256]);
        eeprom.WaitReady();
        SpliceAppend(old(eeprom.flash), base, data[..i], data[i..i + 256]);
        assert data[..i] + data[i..i + 256] == data[..i + 256];
        i := i + 256;
      }
      assert data[..i] == data;
    }

    static lemma PageAligned(sector: nat, i: nat)
      requires i % 256 == 0
      ensures (sector * 4096 + i) % 256 == 0 && (i < 4096 ==> i + 256 <= 4096) && (i + 256) % 256 == 0
    {
      var k := i / 256;
      assert sector * 4096 + i == 256 * (16 * sector + k);
    }

    /** Programming erased cells stores the data as given. */
    method ProgramErased(address: nat, data: bytes)
      requires eeprom.Valid() && eeprom.writeEnabled && !eeprom.busy && !eeprom.isProtected
      requires |data| == 256 || |data| == 65536
      requires address % |data| == 0 && address + |data| <= eeprom.size
      requires Erased(eeprom.flash, address, |data|)
      modifies eeprom`flash, eeprom`writeEnabled, eeprom`busy
      ensures eeprom.Valid() && eeprom.flash == Splice(old(eeprom.flash), address, data)
    {
      eeprom.ProgramPage(address, data);
    }

    /** Erasing is only ever asked for what the cache could write back. */
    method Erase4kSector(sector: nat)
      requires Valid() && eeprom.has4kSectors && !eeprom.isProtected
      requires sector < isPresent.Length && isPresent[sector]
      modifies eeprom`flash, eeprom`writeEnabled, eeprom`busy
      ensures eeprom.Valid() && !eeprom.busy
      ensures eeprom.flash == Splice(old(eeprom.flash), sector * 4096, Repeat(0xff, 4096))
    {
      eeprom.WriteEnable();
      eeprom.Erase(sector * 4096, 4096);
      eeprom.WaitReady();
    }

    method Erase64kSector(bss: nat)
      requires Valid() && !eeprom.isProtected
      requires bss % 16 == 0 && bss + 16 <= isPresent.Length
      requires forall s :: bss <= s < bss + 16 ==> isPresent[s]
      modifies eeprom`flash, eeprom`writeEnabled, eeprom`busy
      ensures eeprom.Valid() && !eeprom.busy
      ensures eeprom.flash == Splice(old(eeprom.flash), bss * 4096, Repeat(0xff, 65536))
    {
      eeprom.WriteEnable();
      eeprom.Erase(bss * 4096, 65536);
      eeprom.WaitReady();
    }

    ghost predicate IsCached(bss: nat)
      reads isPresent
      requires bss + 16 <= isPresent.Length
    {
      forall s :: bss <= s < bss + 16 ==> isPresent[s]
    }

    /** Bring one whole 64K block into the cache. */
    method FillBlock(bss: nat)
      requires Valid() && bss + 16 <= isPresent.Length
      modifies mem, isPresent
      ensures Valid() && IsCached(bss)
    {
      for i := 0 to 16
        invariant Valid() && forall s :: bss <= s < bss + i ==> isPresent[s]
      {
        var _ := CheckSectorPresent(bss + i);
      }
    }

    method CommitBlock4k(bss: nat)
      requires Valid() && eeprom.has4kSectors && !eeprom.isProtected && bss + 16 <= isDirty.Length
      modifies isDirty, eeprom`flash, eeprom`writeEnabled, eeprom`busy
      ensures Valid()
      ensures forall s :: 0 <= s < isDirty.Length ==>
        isDirty[s] == (old(isDirty[s]) && !(bss <= s < bss + 16))
    {
      for i := 0 to 16
        invariant Valid()
        invariant forall s :: 0 <= s < isDirty.Length ==> isDirty[s] == (old(isDirty[s]) && !(bss <= s < bss + i))
      {
        if !isDirty[bss + i] {
          continue;
        }
        RewriteSector(bss + i);
      }
    }

    method RewriteSector(sector: nat)
      requires Valid() && eeprom.has4kSectors && !eeprom.isProtected && sector < isDirty.Length && isDirty[sector]
      modifies isDirty, eeprom`flash, eeprom`writeEnabled, eeprom`busy
      ensures Valid()
      ensures forall s :: 0 <= s < isDirty.Length ==> isDirty[s] == (old(isDirty[s]) && s != sector)
    {
      var base := sector * 4096;
      Erase4kSector(sector);
      ghost var erased := eeprom.flash;
      WriteSector(sector, mem[base..base + 4096]);
      isDirty[sector] := false;
      AgreesAfterCopy(old(eeprom.flash), erased, Repeat(0xff, 4096), sector, image);
      AgreesAfterCopy(erased, eeprom.flash, mem[base..base + 4096], sector, image);
    }

    method CommitBlock64k(bss: nat)
      requires Valid() && !eeprom.isProtected
      requires bss % 16 == 0 && bss + 16 <= isDirty.Length
      modifies mem, isPresent, isDirty, eeprom`flash, eeprom`writeEnabled, eeprom`busy
      ensures Valid()
      ensures forall s :: 0 <= s < isDirty.Length ==>
        isDirty[s] == (old(isDirty[s]) && !(bss <= s < bss + 16))
    {
      FillBlock(bss);
      Erase64kSector(bss);
      ghost var erased := eeprom.flash;
      RestoreBlock(bss);
      BlockRewritten(old(eeprom.flash), erased, eeprom.flash, image, bss);
    }

    /** Re-program all sectors of an erased block. */
    method RestoreBlock(bss: nat)
      requires Cached() && !eeprom.isProtected && bss + 16 <= isPresent.Length && IsCached(bss)
      requires Erased(eeprom.flash, bss * 4096, 65536)
      modifies isDirty, eeprom`flash, eeprom`writeEnabled, eeprom`busy
      ensures Cached()
      ensures forall s :: 0 <= s < isDirty.Length ==>
        isDirty[s] == (old(isDirty[s]) && !(bss <= s < bss + 16))
      ensures eeprom.flash == Splice(old(eeprom.flash), bss * 4096,
                                     image[bss * 4096..bss * 4096 + 65536])
    {
      ghost var base := bss * 4096;
      for i := 0 to 16
        invariant Cached() && IsCached(bss)
        invariant forall s :: 0 <= s < isDirty.Length ==> isDirty[s] == (old(isDirty[s]) && !(bss <= s < bss + i))
        invariant eeprom.flash == Splice(old(eeprom.flash), base, image[base..base + i * 4096])
      {
        RestoreSector(bss, i, old(eeprom.flash));
        isDirty[bss + i] := false;
      }
    }

    /** Re-program sector `i` of an erased block of which the first `i` sectors are back. */
    method RestoreSector(bss: nat, i: nat, ghost was: bytes)
      requires Cached() && !eeprom.isProtected && i < 16
      requires bss + 16 <= isPresent.Length && isPresent[bss + i]
      requires |was| == |image| && Erased(was, bss * 4096, 65536)
      requires eeprom.flash == Splice(was, bss * 4096, image[bss * 4096..(bss + i) * 4096])
      modifies eeprom`flash, eeprom`writeEnabled, eeprom`busy
      ensures Cached()
      ensures eeprom.flash == Splice(was, bss * 4096, image[bss * 4096..(bss + i + 1) * 4096])
    {
      ghost var base := bss * 4096;
      var at := (bss + i) * 4096;
      assert Agrees(mem[..], image, bss + i);
      assert mem[at..at + 4096] == image[at..at + 4096];
      WriteSector(bss + i, mem[at..at + 4096]);
      SpliceAppend(was, base, image[base..at], image[at..at + 4096]);
      assert image[base..at] + image[at..at + 4096] == image[base..at + 4096];
    }

    method CommitBlock64kAtOnce(bss: nat) returns (r: Status)
      requires Valid() && programs64k
      requires bss % 16 == 0 && bss + 16 <= isDirty.Length
      modifies mem, isPresent, isDirty, this`protectionRemoved
      modifies eeprom`flash, eeprom`writeEnabled, eeprom`busy, eeprom`isProtected
      ensures Valid() && r == Ok
      ensures forall s :: 0 <= s < isDirty.Length ==>
        isDirty[s] == (old(isDirty[s]) && !(bss <= s < bss + 16))
    {
      FillBlock(bss);
      Unprotect();
      ReplaceBlock(bss);
      if hasChecksum {
        var expected := AddUp(bss * 4096);
        var sum := eeprom.Checksum(bss * 4096);
        if sum != expected {
          return ChecksumMismatch;
        }
      }
      for i := 0 to 16
        invariant Valid()
        invariant forall s :: bss <= s < bss + 16 ==> Agrees(eeprom.flash, image, s)
        invariant forall s :: 0 <= s < isDirty.Length ==> isDirty[s] == (old(isDirty[s]) && !(bss <= s < bss + i))
      {
        isDirty[bss + i] := false;
      }
      r := Ok;
    }

    method Unprotect()
      requires Valid() && programs64k
      modifies this`protectionRemoved, eeprom`writeEnabled, eeprom`busy, eeprom`isProtected
      ensures Valid() && !eeprom.isProtected
    {
      if !protectionRemoved {
        eeprom.WriteEnable();
        eeprom.ClearBlockProtection();
        eeprom.WaitReady();
        protectionRemoved := true;
      }
    }

    /** Erase a cached block and program it in one large page write. */
    method ReplaceBlock(bss: nat)
      requires Valid() && !eeprom.isProtected
      requires bss % 16 == 0 && bss + 16 <= isPresent.Length && IsCached(bss)
      modifies eeprom`flash, eeprom`writeEnabled, eeprom`busy
      ensures Valid()
      ensures forall s :: bss <= s < bss + 16 ==> Agrees(eeprom.flash, image, s)
      ensures eeprom.flash[bss * 4096..bss * 4096 + 65536] == mem[bss * 4096..bss * 4096 + 65536]
    {
      var address := bss * 4096;
      BlockIsImage(mem[..], image, bss);
      Erase64kSector(bss);
      ghost var erased := eeprom.flash;
      eeprom.WriteEnable();
      ProgramErased(address, mem[address..address + 65536]);
      eeprom.WaitReady();
      BlockRewritten(old(eeprom.flash), erased, eeprom.flash, image, bss);
    }

    method AddUp(address: nat) returns (sum: nat)
      requires address + 65536 <= mem.Length
      ensures sum == Sum(mem[address..address + 65536]) % 0x10000
    {
      var total := 0;
      for i := address to address + 65536
        invariant total == Sum(mem[address..i])
      {
        assert mem[address..i + 1][..i - address] == mem[address..i];
        total := total + mem[i] as int;
      }
      sum := total % 0x10000;
    }

    /** Write every dirty sector back to the chip. */
    method Commit() returns (r: Status)
      requires Valid()
      modifies mem, isPresent, isDirty, this`protectionRemoved
      modifies eeprom`flash, eeprom`writeEnabled, eeprom`busy, eeprom`isProtected
      ensures Valid() && r == Ok
      ensures eeprom.flash == image
      ensures forall s :: 0 <= s < isDirty.Length ==> !isDirty[s]
    {
      var i := 0;
      while i < eeprom.size / 4096
        invariant Valid() && 0 <= i <= isDirty.Length && i % 16 == 0
        invariant forall s :: 0 <= s < i ==> !isDirty[s]
      {
        var dirtySectors := CountDirty(i);
        if dirtySectors == 0 {
        } else if programs64k {
          r := CommitBlock64kAtOnce(i);
        } else if dirtySectors < 12 && eeprom.has4kSectors {
          CommitBlock4k(i);
        } else {
          CommitBlock64k(i);
        }
        i := i + 16;
      }
      AllAgree(eeprom.flash, image);
      r := Ok;
    }

    method CountDirty(bss: nat) returns (n: nat)
      requires bss + 16 <= isDirty.Length
      ensures n == 0 <==> forall s :: bss <= s < bss + 16 ==> !isDirty[s]
    {
      n := 0;
      for j := 0 to 16
        invariant n == 0 <==> forall s :: bss <= s < bss + j ==> !isDirty[s]
      {
        if isDirty[bss + j] {
          n := n + 1;
        }
      }
    }
  }

  /** Rewriting one block from the image repairs that block and touches no other. */
  lemma BlockRewritten(was: bytes, erased: bytes, now: bytes, image: bytes, bss: nat)
    requires |was| == |erased| == |image| && bss * 4096 + 65536 <= |image|
    requires erased == was || erased == Splice(was, bss * 4096, Repeat(0xff, 65536))
    requires now == Splice(erased, bss * 4096, image[bss * 4096..bss * 4096 + 65536])
    ensures forall s :: bss <= s < bss + 16 ==> Agrees(now, image, s)
    ensures forall s: nat :: !(bss <= s < bss + 16) && Agrees(was, image, s) ==> Agrees(now, image, s)
  {
  }

  lemma BlockIsImage(mem: bytes, image: bytes, bss: nat)
    requires |mem| == |image| && bss * 4096 + 65536 <= |image|
    requires forall s :: bss <= s < bss + 16 ==> Agrees(mem, image, s)
    ensures mem[bss * 4096..bss * 4096 + 65536] == image[bss * 4096..bss * 4096 + 65536]
  {
    forall k | bss * 4096 <= k < bss * 4096 + 65536 ensures mem[k] == image[k] {
      assert Agrees(mem, image, k / 4096);
    }
  }

  lemma AllAgree(a: bytes, b: bytes)
    requires |a| == |b| && |a| % 4096 == 0
    requires forall s :: 0 <= s < |a| / 4096 ==> Agrees(a, b, s)
    ensures a == b
  {
    forall k | 0 <= k < |a| ensures a[k] == b[k] {
      assert Agrees(a, b, k / 4096);
    }
  }


  ghost predicate Erased(flash: bytes, address: nat, len: nat)
    requires address + len <= |flash|
  {
    forall k :: address <= k < address + len ==> flash[k] == 0xff
  }


  /** `s` after storing `data` at `offset`; bytes past the end are lost. */
  ghost function Stored(s: bytes, offset: nat, data: bytes): (r: bytes)
    ensures |r| == |s|
    ensures offset + |data| <= |s| ==> r == Splice(s, offset, data)
    ensures data == [] ==> r == s
  {
    if offset >= |s| then s
    else if offset + |data| <= |s| then Splice(s, offset, data)
    else Splice(s, offset, data[..|s| - offset])
  }

  lemma StoredAppend(s: bytes, offset: nat, a: bytes, b: bytes)
    requires offset + |a| + |b| <= |s|
    ensures Splice(Stored(s, offset, a), offset + |a|, b) == Stored(s, offset, a + b)
  {
    if offset < |s| {
      SpliceAppend(s, offset, a, b);
    }
  }

  lemma StoredBeyondEnd(s: bytes, offset: nat, data: bytes, done: nat)
    requires done <= |data| && offset + done >= |s| && (done == 0 || offset + done <= |s|)
    ensures Stored(s, offset, data[..done]) == Stored(s, offset, data)
  {
    assert data[..done][..done] == data[..done];
  }

  /** `at` lies in sector `sector`. */
  predicate InSector(sector: int, at: int) {
    sector * 4096 <= at < (sector + 1) * 4096
  }

  lemma SectorOf(at: nat)
    ensures InSector(at / 4096, at)
  {
  }

  /** How much of `left` bytes at `at` lies in the sector that `at` is in. */
  function UpToSectorEnd(at: nat, left: nat, ghost sector: nat): (n: nat)
    requires left > 0 && InSector(sector, at)
    ensures n == if (sector + 1) * 4096 - at > left then left else (sector + 1) * 4096 - at
  {
    assert at % 4096 == at - sector * 4096;
    var toCopy := 4096 - at % 4096;
    if toCopy > left then left else toCopy
  }

  /** `a` and `b` hold the same bytes in sector `s`. */
  ghost predicate Agrees(a: bytes, b: bytes, s: nat)
    requires |a| == |b|
  {
    (s + 1) * 4096 <= |a| &&
    forall k :: s * 4096 <= k < (s + 1) * 4096 ==> a[k] == b[k]
  }

  lemma AgreesAfterCopy(was: bytes, now: bytes, data: bytes, sector: nat, image: bytes)
    requires |was| == |image| && (sector + 1) * 4096 <= |image| && |data| == 4096
    requires now == Splice(was, sector * 4096, data)
    ensures |now| == |image|
    ensures data == image[sector * 4096..(sector + 1) * 4096] ==> Agrees(now, image, sector)
    ensures forall s: nat :: s != sector && Agrees(was, image, s) ==> Agrees(now, image, s)
  {
    forall s: nat | s != sector && Agrees(was, image, s) ensures Agrees(now, image, s) {
      SpliceReads(was, sector * 4096, data, s * 4096, (s + 1) * 4096);
    }
  }

  lemma AgreesAfterWrite(was: bytes, image: bytes, at: nat, data: bytes, sector: nat)
    requires |was| == |image| && (sector + 1) * 4096 <= |image|
    requires sector * 4096 <= at && at + |data| <= (sector + 1) * 4096
    ensures Agrees(was, image, sector) ==> Agrees(Splice(was, at, data), Splice(image, at, data), sector)
    ensures forall s: nat :: s != sector && Agrees(was, image, s) ==> Agrees(Splice(was, at, data), Splice(image, at, data), s)
    ensures forall x: bytes, s: nat :: |x| == |image| && s != sector && Agrees(x, image, s) ==> Agrees(x, Splice(image, at, data), s)
  {
  }
}
