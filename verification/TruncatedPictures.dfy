/** AX206 pictures of 65536 bytes or more: the table has 16 bits for a size, the driver's buffer is larger. */
module TruncatedPictures {
  import opened Bytes
  import opened SectorCaches
  import opened AbfsFormat
  import opened FrameParameters
  import opened Options
  import opened AbfsStore
  import opened Allocation

  /** A picture reads back as it was stored exactly if its size fits the table. */
  lemma ReadsBackIff(c: Config, img: bytes, img': bytes, idx: nat, p: bytes)
    requires WellFormed(c, img) && idx < c.MaxCount() && p != [] && Got(c, img, img', idx, Kept(c, p))
    ensures WellFormed(c, img') && View(c, img')[idx] == Some(p) <==> (c.version.Ax206? ==> |p| < 0x10000)
    ensures WellFormed(c, img') <==> (c.version.Ax206? ==> |p| % 0x10000 != 0)
  {
    hide View;
    KeptWhole(c, p);
  }

  /** A 1M chip (AMIC A25L080), table in its page 7. */
  const CONFIG := Config(Ax206, 0, 0x70000, 0x100000)

  /** 240x320 pixels. */
  const PARAMETERS: bytes := [0, 0, 7, 0xf0, 0x00, 0x40, 0x01, 0xd8]

  function EmptyFrame(): (img: bytes)
    ensures |img| == 0x100000
  {
    Splice(Splice(Repeat(0, 0x100000), 0x20, PARAMETERS), 0x70000, MAGIC)
  }

  /** The driver opens a frame with this image. */
  lemma Opened(answers: Answers)
    ensures ReadParameterBlock(Ax206, EmptyFrame(), answers) == Some(Frame(CONFIG, Compression.Ax206Jpeg, 240, 320))
  {
    hide EmptyFrame;
    var b := Block(Ax206, EmptyFrame());
    BlockRead();
    assert b[..8] == PARAMETERS;
    PartOfPrefix(b, 8, 3);
    PartOfPrefix(b, 8, 5);
    assert PARAMETERS[3..5] == [0xf0, 0x00] && PARAMETERS[5..7] == [0x40, 0x01];
    assert b[2] == b[..8][2] && b[7] == b[..8][7];
    assert RESOLUTIONS[7] == (240, 320);
  }

  lemma PartOfPrefix(s: bytes, n: nat, i: nat)
    requires i + 2 <= n <= |s|
    ensures s[i..i + 2] == s[..n][i..i + 2]
  {
  }

  lemma BlockRead()
    ensures EmptyFrame()[0x20..0x40][..8] == PARAMETERS && EmptyFrame()[0x70000..0x70004] == MAGIC
  {
    hide Splice;
    var plain := Splice(Repeat(0, 0x100000), 0x20, PARAMETERS);
    SpliceReads(plain, 0x70000, MAGIC, 0x20, 0x28);
    SpliceReads(Repeat(0, 0x100000), 0x20, PARAMETERS, 0x20, 0x28);
    SpliceReads(plain, 0x70000, MAGIC, 0x70000, 0x70004);
    assert EmptyFrame()[0x20..0x40][..8] == EmptyFrame()[0x20..0x28];
  }

  lemma TableIsBlank()
    ensures forall k :: 0x70010 <= k < 0x71000 ==> EmptyFrame()[k] == 0
  {
  }

  lemma EmptyForm()
    ensures WellFormed(CONFIG, EmptyFrame()) && Packed(CONFIG, EmptyFrame())
    ensures FreeMemory(CONFIG, EmptyFrame()) == 0x8f000
  {
    hide EmptyFrame, TotalSize, Packed, View, DecodeInfo;
    TableIsBlank();
    forall i | 0 <= i < CONFIG.MaxCount() ensures !Slot(CONFIG, EmptyFrame(), i).present {
      SlotsZeroed(CONFIG, EmptyFrame(), i);
    }
    EmptyStorePacked(CONFIG, EmptyFrame());
  }

  /** Of a picture of 70000 bytes, 4464 are left. */
  lemma KeepsPrefix(answers: Answers, img': bytes, p: bytes, r: Status)
    requires |p| == 70000 && WellFormed(CONFIG, EmptyFrame()) && Written(CONFIG, EmptyFrame(), img', 0, p, r)
    ensures ReadParameterBlock(Ax206, EmptyFrame(), answers) == Some(Frame(CONFIG, Compression.Ax206Jpeg, 240, 320))
    ensures r == Ok && WellFormed(CONFIG, img') && View(CONFIG, img')[0] == Some(p[..4464])
  {
    hide EmptyFrame, WellFormed, View, HasHole, HoleStart, FreeMemory, Packed, ReadParameterBlock, HollowAt;
    Opened(answers);
    EmptyForm();
    PackedHasRoom(CONFIG, EmptyFrame(), 70000);
    assert Kept(CONFIG, p) == p[..4464];
  }

  /** Of one of 65536 bytes nothing is, and the slot is taken. */
  lemma KeepsNothing(img': bytes, p: bytes, r: Status)
    requires |p| == 65536 && WellFormed(CONFIG, EmptyFrame()) && Written(CONFIG, EmptyFrame(), img', 0, p, r)
    ensures r == Ok && HollowAt(CONFIG, img', 0, View(CONFIG, EmptyFrame()))
  {
    hide EmptyFrame, WellFormed, View, HasHole, HoleStart, FreeMemory, Packed, HollowAt;
    EmptyForm();
    PackedHasRoom(CONFIG, EmptyFrame(), 65536);
    assert Kept(CONFIG, p) == [];
  }

  /** Why nothing is claimed about a store with an empty entry: when a picture has come to stand at the same address and
      is listed first, the hole that the allocator sees behind the empty entry covers that picture. */
  lemma HollowEntryHides(c: Config, img: bytes, f: FileInfo, size: nat)
    requires c.Valid() && |img| == c.memSize && InPictureArea(c, f)
    requires PresentList(c, img, c.MaxCount()) == [f, FileInfo(f.address, true, 0)]
    requires f.address - c.HeaderEnd() < size <= c.MemEnd() - f.address
    ensures HasHole(c, img, size) && HoleStart(c, img, size) == f.address
  {
    hide InsertPos;
    var h, z := HeaderEntry(c), FileInfo(f.address, true, 0);
    BothInOrder(h, f, z);
    assert [h] + [f, z] == [h, f, z];
    OnlyTheLast(h, f, z, FileInfo(c.MemEnd(), true, 0), size);
    assert UsedTable(c, img) == [h, f, z, FileInfo(c.MemEnd(), true, 0)];
  }

  lemma BothInOrder(h: FileInfo, f: FileInfo, z: FileInfo)
    requires h.address < f.address == z.address
    ensures SortByAddress([h, f, z]) == [h, f, z]
  {
    hide InsertPos, Insert;
    var s := [h, f, z];
    SortOfSorted([h, f]);
    assert s[..2] == [h, f] && s[2] == z;
    InsertedBehind([h, f], z);
    assert SortByAddress(s) == Insert(SortByAddress(s[..2]), s[2]);
  }

  lemma InsertedBehind(s: seq<FileInfo>, e: FileInfo)
    requires forall k :: 0 <= k < |s| ==> s[k].address <= e.address
    ensures Insert(s, e) == s + [e]
  {
    hide InsertPos;
    assert InsertPos(s, e) == |s|;
  }

  lemma OnlyTheLast(h: FileInfo, f: FileInfo, z: FileInfo, end: FileInfo, size: nat)
    requires f.address - h.End() < size <= end.address - z.End() && z.address - f.End() < size
    ensures FirstHole([h, f, z, end], size, 1) == 3
  {
    var t := [h, f, z, end];
    assert FirstHole(t, size, 1) == FirstHole(t, size, 2) == FirstHole(t, size, 3) == 3;
  }
}
