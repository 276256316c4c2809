/** A 132x132 frame with two pictures and enough free memory for a third, none of it in one piece:
    the upload fails and the second picture is lost. */
module UnalignedFrames {
  import opened Bytes
  import opened SectorCaches
  import opened AbfsFormat
  import opened FrameParameters
  import opened Options
  import opened AbfsStore
  import opened Allocation

  /** A 512K chip (AMIC A25L040) with the pictures in its last 64K. */
  const CONFIG := Config(V33, 17424, 0x70000, 0x80000)

  /** 132x132 pixels, table in page 7. */
  const PARAMETERS: bytes := [0x13, 0x15, 132, 132, 0x02, 0x01, 0x02, 0x01] + Repeat(0, 8) + [7]

  function Blank(): (img: bytes)
    ensures |img| == 0x80000
  {
    Splice(Splice(Repeat(0, 0x80000), 0x50, PARAMETERS), 0x70000, MAGIC)
  }

  /** Pictures at 0x73d00 and 0x79d00. */
  function TwoPictures(): (img: bytes)
    ensures |img| == 0x80000
  {
    Splice(Splice(Blank(), 0x70020, ToLe16(0x73d)), 0x70022, ToLe16(0x79d))
  }

  const FIRST := FileInfo(0x73d00, true, 17424)
  const SECOND := FileInfo(0x79d00, true, 17424)

  /** The driver opens a frame with this image. */
  lemma Opened(answers: Answers)
    ensures ReadParameterBlock(V33, TwoPictures(), answers) == Some(Frame(CONFIG, Yuv, 132, 132))
  {
    hide TwoPictures, Blank;
    var b := Block(V33, TwoPictures());
    BlockRead();
    assert Expected(V33, b) == PARAMETERS[..16];
    assert b[..16] == b[..17][..16];
    assert b[16] == b[..17][16] == 7;
    assert RESOLUTIONS[3] == (132, 132);
  }

  lemma BlockRead()
    ensures TwoPictures()[0x50..0x70][..17] == PARAMETERS && TwoPictures()[0x70000..0x70004] == MAGIC
  {
    hide Splice;
    var img, one, plain := TwoPictures(), Splice(Blank(), 0x70020, ToLe16(0x73d)), Splice(Repeat(0, 0x80000), 0x50, PARAMETERS);
    SpliceReads(one, 0x70022, ToLe16(0x79d), 0x50, 0x61);
    SpliceReads(Blank(), 0x70020, ToLe16(0x73d), 0x50, 0x61);
    SpliceReads(plain, 0x70000, MAGIC, 0x50, 0x61);
    SpliceReads(Repeat(0, 0x80000), 0x50, PARAMETERS, 0x50, 0x61);
    SpliceReads(one, 0x70022, ToLe16(0x79d), 0x70000, 0x70004);
    SpliceReads(Blank(), 0x70020, ToLe16(0x73d), 0x70000, 0x70004);
    SpliceReads(plain, 0x70000, MAGIC, 0x70000, 0x70004);
    assert img[0x50..0x70][..17] == img[0x50..0x61];
  }

  lemma Slots(i: nat)
    requires i < 2032
    ensures Slot(CONFIG, TwoPictures(), 0) == FIRST && Slot(CONFIG, TwoPictures(), 1) == SECOND
    ensures i >= 2 ==> !Slot(CONFIG, TwoPictures(), i).present
  {
    hide Blank;
    var one := Splice(Blank(), 0x70020, ToLe16(0x73d));
    SlotWritten(CONFIG, Blank(), 0, ToLe16(0x73d));
    SlotWritten(CONFIG, one, 1, ToLe16(0x79d));
    BlankTable();
    SlotsZeroed(CONFIG, Blank(), i);
  }

  lemma BlankTable()
    ensures forall k :: 0x70020 <= k < 0x71000 ==> Blank()[k] == 0
  {
  }

  lemma Form()
    ensures WellFormed(CONFIG, TwoPictures())
    ensures View(CONFIG, TwoPictures())[0].Some? && View(CONFIG, TwoPictures())[1].Some?
    ensures View(CONFIG, TwoPictures())[2] == None
  {
    hide TwoPictures, DecodeInfo;
    forall i | 0 <= i < 2032
      ensures Slot(CONFIG, TwoPictures(), 0) == FIRST && Slot(CONFIG, TwoPictures(), 1) == SECOND
      ensures i >= 2 ==> !Slot(CONFIG, TwoPictures(), i).present
    {
      Slots(i);
    }
  }

  lemma {:induction false} Occupied(n: nat)
    requires 2 <= n <= 2032
    ensures PresentList(CONFIG, TwoPictures(), n) == [FIRST, SECOND]
  {
    hide TwoPictures, DecodeInfo;
    Slots(n - 1);
    if n == 2 {
      assert PresentList(CONFIG, TwoPictures(), 1) == [FIRST];
    } else {
      Occupied(n - 1);
    }
  }

  lemma InPieces()
    ensures !HasHole(CONFIG, TwoPictures(), 17424)
    ensures WellFormed(CONFIG, TwoPictures()) && FreeMemory(CONFIG, TwoPictures()) == 22496
  {
    hide TwoPictures;
    Form();
    Occupied(2032);
    var all := [HeaderEntry(CONFIG), FIRST, SECOND];
    SortOfSorted(all);
    var t := UsedTable(CONFIG, TwoPictures());
    assert [HeaderEntry(CONFIG)] + [FIRST, SECOND] == all;
    assert t == all + [FileInfo(0x80000, true, 0)];
    assert Hole(t, 1) == 7424 && Hole(t, 2) == 7152 && Hole(t, 3) == 7920;
    HolesOf(CONFIG, TwoPictures(), 17424);
    assert SumHoles(t, 2) == 7424 && SumHoles(t, 3) == 14576;
  }

  /** The driver opens the frame, and every upload to it, to the first free slot, is refused and costs
      the second picture. */
  lemma UploadLosesSecondPicture(answers: Answers, img': bytes, p: bytes, r: Status)
    requires |p| == 17424 && WellFormed(CONFIG, TwoPictures()) && WellFormed(CONFIG, img')
    requires Written(CONFIG, TwoPictures(), img', 2, p, r)
    ensures ReadParameterBlock(V33, TwoPictures(), answers) == Some(Frame(CONFIG, Yuv, 132, 132))
    ensures r == BadParameters
    ensures View(CONFIG, TwoPictures())[1].Some? && View(CONFIG, img')[1] == None
  {
    hide UsedTable, HasHole, View, TwoPictures, TotalSize, WellFormed, ReadParameterBlock;
    Opened(answers);
    Form();
    InPieces();
    var a := View(CONFIG, TwoPictures());
    assert !Aligned(CONFIG);
    assert FirstUsed(a) == 0;
    assert FirstOnly(a)[1] == None;
  }
}
