/** The picture table (ABFS) of an AX203 picture frame: where its slots are
    and how each firmware encodes an entry. */
module AbfsFormat {
  import opened Bytes
  import opened Options

  datatype Version = V33 | V34 | Ax206 | Ax3003

  datatype Compression = Yuv | YuvDelta | Ax206Jpeg | Ax3003Jpeg

  /** What the driver learned when it opened the frame. `fileSize` is 0 where sizes vary. */
  datatype Config = Config(version: Version, fileSize: nat, fsStart: nat, memSize: nat) {

    /** Firmware whose table holds no sizes, so that all pictures are equally long. */
    predicate FixedSize() {
      version.V33? || version.V34?
    }

    predicate Valid() {
      && memSize % 65536 == 0 && memSize <= 4194304
      && fsStart % 0x100 == 0
      && HeaderEnd() <= MemEnd()
      && (FixedSize() <==> fileSize > 0)
    }

    /** End of the CD image, the firmware and the table: pictures start here. */
    function HeaderEnd(): nat {
      fsStart + if FixedSize() then 0x2000 else 0x1000
    }

    /** The AX3003 keeps its boot loader in the last 64K. */
    function MemEnd(): int {
      if version.Ax3003? then memSize - 0x10000 else memSize
    }

    function MaxCount(): nat {
      match version
      case V33 | V34 => 2032
      case Ax206 => 510
      case Ax3003 => 1016
    }

    function TableOffset(): nat {
      if version.Ax206? then 0x10 else 0x20
    }

    function SlotWidth(): nat {
      match version
      case V33 | V34 => 2
      case Ax206 => 8
      case Ax3003 => 4
    }

    function SlotOffset(i: nat): (at: nat)
      ensures i < MaxCount() ==> fsStart + TableOffset() <= at && at + SlotWidth() <= fsStart + 0x1000 <= HeaderEnd()
    {
      fsStart + TableOffset() +
      match version
      case V33 | V34 => 2 * i
      case Ax206 => 8 * i
      case Ax3003 => 4 * i
    }
  }

  /** Bytes of one picture; 0 where the encoder decides. */
  function EncodedSize(c: Compression, width: nat, height: nat): nat {
    match c
    case Yuv => width * height
    case YuvDelta => width * height * 3 / 4
    case Ax206Jpeg | Ax3003Jpeg => 0
  }

  /** Resolutions the driver accepts. */
  const RESOLUTIONS: seq<(nat, nat)> :=
    [(96, 64), (120, 160), (128, 128), (132, 132), (128, 160), (160, 120), (160, 128), (240, 320), (320, 240)]

  datatype FileInfo = FileInfo(address: int, present: bool, size: int) {
    function End(): int {
      address + size
    }
  }

  function Signed32(v: nat): int {
    if v < 0x8000_0000 then v else v - 0x1_0000_0000
  }

  function DecodeInfo(c: Config, raw: bytes): FileInfo
    requires |raw| == c.SlotWidth()
  {
    match c.version
    case V33 | V34 =>
      var address := Le16(raw) * 0x100;
      FileInfo(address, address != 0, c.fileSize)
    case Ax206 =>
      FileInfo(Signed32(Le16(raw[1..3]) + 0x10000 * Le16(raw[3..5])), raw[0] == 1, Le16(raw[5..7]))
    case Ax3003 =>
      var address, size := Be16(raw[0..2]), Be16(raw[2..4]);
      if address == 0xffff || size == 0xffff then FileInfo(0, false, 0)
      else FileInfo(address * 0x100, address != 0 && size != 0, size * 0x100)
  }

  /** None is the driver's BAD_PARAMETERS. The AX206 writer leaves the last byte uninitialised. */
  function EncodeInfo(c: Config, info: FileInfo, pad: byte): (raw: Option<bytes>)
    ensures raw.Some? ==> |raw.value| == c.SlotWidth()
  {
    match c.version
    case V33 | V34 =>
      if info.address % 0x100 != 0 then None
      else Some(ToLe16(if info.present then info.address / 0x100 % 0x10000 else 0))
    case Ax206 =>
      var address := info.address % 0x1_0000_0000;
      Some([if info.present then 1 else 0] + ToLe16(address % 0x10000) + ToLe16(address / 0x10000)
           + ToLe16(info.size % 0x10000) + [pad])
    case Ax3003 =>
      if info.address % 0x100 != 0 || info.size % 0x100 != 0 then None
      else if info.present then
        Some(ToBe16(info.address / 0x100 % 0x10000) + ToBe16(info.size / 0x100 % 0x10000))
      else Some([0, 0, 0, 0])
  }

  /** What is left of a stored picture: an AX206 entry has 16 bits for its size. */
  function Kept(c: Config, p: bytes): (k: bytes)
    ensures k <= p
  {
    if c.version.Ax206? then p[..|p| % 0x10000] else p
  }

  lemma KeptWhole(c: Config, p: bytes)
    ensures Kept(c, p) == p <==> (c.version.Ax206? ==> |p| < 0x10000)
  {
    assert |p| < 0x10000 ==> p[..|p| % 0x10000] == p;
  }

  /** What a table entry of this firmware can express. */
  predicate Representable(c: Config, info: FileInfo) {
    match c.version
    case V33 | V34 => info.address % 0x100 == 0 && 0 < info.address < 0x100_0000 && info.size == c.fileSize
    case Ax206 => -0x8000_0000 <= info.address < 0x8000_0000 && 0 <= info.size < 0x10000
    case Ax3003 => info.address % 0x100 == 0 && info.size % 0x100 == 0 &&
                   0 < info.address < 0xff_ff00 && 0 < info.size < 0xff_ff00
  }

  lemma Le16RoundTrip(v: nat)
    requires v < 0x10000
    ensures Le16(ToLe16(v)) == v && Be16(ToBe16(v)) == v
  {
  }

  lemma WordRoundTrip(v: int)
    ensures v % 0x100 == 0 ==> (v / 0x100 % 0x10000 * 0x100 == v <==> 0 <= v < 0x100_0000)
    ensures Signed32(v % 0x1_0000_0000) == v <==> -0x8000_0000 <= v < 0x8000_0000
    ensures v % 0x10000 == v <==> 0 <= v < 0x10000
  {
  }

  lemma EntryRoundTripAx206(c: Config, info: FileInfo, pad: byte)
    requires info.present && c.version.Ax206?
    ensures DecodeInfo(c, EncodeInfo(c, info, pad).value) ==
            FileInfo(Signed32(info.address % 0x1_0000_0000), true, info.size % 0x10000)
  {
    var raw, address := EncodeInfo(c, info, pad).value, info.address % 0x1_0000_0000;
    Le16RoundTrip(address % 0x10000);
    Le16RoundTrip(address / 0x10000);
    Le16RoundTrip(info.size % 0x10000);
    assert raw[1..3] == ToLe16(address % 0x10000);
    assert raw[3..5] == ToLe16(address / 0x10000);
    assert raw[5..7] == ToLe16(info.size % 0x10000);
  }

  lemma EntryRoundTripAx3003(c: Config, info: FileInfo, pad: byte)
    requires info.present && c.version.Ax3003? && info.address % 0x100 == info.size % 0x100 == 0
    ensures DecodeInfo(c, EncodeInfo(c, info, pad).value) ==
            var address, size := info.address / 0x100 % 0x10000, info.size / 0x100 % 0x10000;
            if address == 0xffff || size == 0xffff then FileInfo(0, false, 0)
            else FileInfo(address * 0x100, address != 0 && size != 0, size * 0x100)
  {
    var raw := EncodeInfo(c, info, pad).value;
    Le16RoundTrip(info.address / 0x100 % 0x10000);
    Le16RoundTrip(info.size / 0x100 % 0x10000);
    assert raw[0..2] == ToBe16(info.address / 0x100 % 0x10000);
    assert raw[2..4] == ToBe16(info.size / 0x100 % 0x10000);
  }

  /** An entry for a present file survives the table exactly when the format can express it. */
  lemma EntryRoundTrip(c: Config, info: FileInfo, pad: byte)
    requires info.present
    ensures (EncodeInfo(c, info, pad).Some? && DecodeInfo(c, EncodeInfo(c, info, pad).value) == info)
            <==> Representable(c, info)
  {
    WordRoundTrip(info.address);
    WordRoundTrip(info.size);
    match c.version
    case V33 | V34 =>
      Le16RoundTrip(info.address / 0x100 % 0x10000);
    case Ax206 =>
      EntryRoundTripAx206(c, info, pad);
    case Ax3003 =>
      if EncodeInfo(c, info, pad).Some? {
        EntryRoundTripAx3003(c, info, pad);
      }
  }

  /** An entry for a picture that lies in memory reads back with its address and the size that is kept. */
  lemma EntryOfPicture(c: Config, address: nat, p: bytes, pad: byte)
    requires address + |p| <= 4194304
    requires !c.version.Ax206? ==> Representable(c, FileInfo(address, true, |p|))
    ensures var info := EncodeInfo(c, FileInfo(address, true, |p|), pad);
      info.Some? && DecodeInfo(c, info.value) == FileInfo(address, true, |Kept(c, p)|)
  {
    EntryRoundTrip(c, FileInfo(address, true, |p|), pad);
    WordRoundTrip(address);
    if c.version.Ax206? {
      EntryRoundTripAx206(c, FileInfo(address, true, |p|), pad);
    }
  }

  /** The byte left uninitialised does not matter. */
  lemma PadIgnored(c: Config, info: FileInfo, pad: byte)
    ensures EncodeInfo(c, info, pad).Some? <==> EncodeInfo(c, info, 0).Some?
    ensures EncodeInfo(c, info, pad).Some? ==>
      DecodeInfo(c, EncodeInfo(c, info, pad).value) == DecodeInfo(c, EncodeInfo(c, info, 0).value)
  {
    if c.version.Ax206? {
      var a, b := EncodeInfo(c, info, pad).value, EncodeInfo(c, info, 0).value;
      assert a[..7] == b[..7];
      assert a[1..3] == a[..7][1..3] && a[3..5] == a[..7][3..5] && a[5..7] == a[..7][5..7] && a[0] == a[..7][0];
      assert b[1..3] == b[..7][1..3] && b[3..5] == b[..7][3..5] && b[5..7] == b[..7][5..7] && b[0] == b[..7][0];
    }
  }

  /** Writing an entry marked absent makes it read back as absent. */
  lemma AbsentRoundTrip(c: Config, info: FileInfo, pad: byte)
    requires !info.present && EncodeInfo(c, info, pad).Some?
    ensures !DecodeInfo(c, EncodeInfo(c, info, pad).value).present
  {
  }

  /** The table can point at the byte after a picture exactly for these frames; the others
      (132x132, and 120x160 delta coded) cannot store a second picture behind the first. */
  lemma PictureSizeIsAligned(c: Compression, k: nat)
    requires k < |RESOLUTIONS|
    ensures EncodedSize(c, RESOLUTIONS[k].0, RESOLUTIONS[k].1) % 0x100 == 0 <==>
            !(RESOLUTIONS[k] == (132, 132) && (c.Yuv? || c.YuvDelta?)) &&
            !(RESOLUTIONS[k] in [(120, 160), (160, 120)] && c.YuvDelta?)
  {
  }
}
