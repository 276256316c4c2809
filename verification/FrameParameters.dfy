/** ax203_read_parameter_block: what the driver learns about a frame from its flash image when it opens it. */
module FrameParameters {
  import opened Bytes
  import opened AbfsFormat
  import opened Options

  /** What an AX3003 frame answers to the two commands that replace its parameter block. */
  datatype Answers = Answers(frameId: byte, abfsPage: nat)

  datatype Frame = Frame(config: Config, compression: Compression, width: nat, height: nat)

  /** The 32 bytes of a parameter block. */
  function Block(v: Version, img: bytes): (b: bytes)
    requires |img| >= 0x70
    ensures |b| == 32
  {
    var at := if v.Ax206? then 0x20 else 0x50;
    img[at..at + 32]
  }

  /** The fixed bytes of a block, with the size, the compression and the page read from it filled in. */
  function Expected(v: Version, b: bytes): bytes
    requires |b| == 32
  {
    match v
    case V33 => [0x13, 0x15, b[2], b[3], 0x02, 0x01, 0x02, 0x01] + Repeat(0, 8)
    case V34 => [0x13, 0x15, b[2], b[3], b[4], b[5], b[6], 0x01] + [0x01] + Repeat(0, 7)
    case Ax206 => [0x00, 0x00, b[2], b[3], b[4], b[5], b[6], 0xd8]
    case Ax3003 => []
  }

  function CompressionOf(v: Version, b: bytes): Option<Compression>
    requires |b| == 32
  {
    match v
    case V33 => Some(Yuv)
    case V34 => if b[6] == 2 then Some(Yuv) else if b[6] == 3 then Some(YuvDelta) else None
    case Ax206 => Some(Compression.Ax206Jpeg)
    case Ax3003 => Some(Ax3003Jpeg)
  }

  function SizeOf(v: Version, b: bytes): (nat, nat)
    requires |b| == 32
  {
    match v
    case V33 => (b[2], b[3])
    case V34 => (Le16(b[2..4]), Le16(b[4..6]))
    case Ax206 => (Le16(b[3..5]), Le16(b[5..7]))
    case Ax3003 => (320, 240)
  }

  const MAGIC: bytes := [0x41, 0x42, 0x46, 0x53]

  /** The tests all frames have to pass. */
  function Verify(v: Version, img: bytes, c: Compression, size: (nat, nat), fsStart: nat): Option<Frame> {
    if size !in RESOLUTIONS then None
    else if |img| < fsStart + 4 || img[fsStart..fsStart + 4] != MAGIC then None
    else Some(Frame(Config(v, EncodedSize(c, size.0, size.1), fsStart, |img|), c, size.0, size.1))
  }

  /** None where the driver does not know the frame. */
  function ReadParameterBlock(v: Version, img: bytes, answers: Answers): Option<Frame>
    requires |img| >= 0x70
  {
    if v.Ax3003? then
      if answers.frameId > 1 then None
      else Verify(v, img, Ax3003Jpeg, (320, 240), answers.abfsPage * 0x100)
    else
      var b := Block(v, img);
      var page: nat := b[if v.Ax206? then 2 else 16];
      match CompressionOf(v, b)
      case None => None
      case Some(c) =>
        if b[..|Expected(v, b)|] != Expected(v, b) then None
        else Verify(v, img, c, SizeOf(v, b), page * 0x10000)
  }

  lemma ResolutionsPositive(k: nat)
    requires k < |RESOLUTIONS|
    ensures RESOLUTIONS[k].0 >= 64 && RESOLUTIONS[k].1 >= 64
  {
  }

  /** A frame that passes the tests is one the rest of the driver can work with; only the AX3003, which
      keeps its boot loader behind the pictures, could answer with a start too close to the end. */
  lemma OpenedIsValid(v: Version, img: bytes, answers: Answers)
    requires 0x10000 <= |img| <= 4194304 && |img| % 65536 == 0
    requires ReadParameterBlock(v, img, answers).Some?
    ensures var c := ReadParameterBlock(v, img, answers).value.config;
      && c.version == v && c.memSize == |img|
      && (c.Valid() <==> (v.Ax3003? ==> c.fsStart + 0x1000 <= c.memSize - 0x10000))
  {
    hide RESOLUTIONS, Expected, SizeOf;
    var f := ReadParameterBlock(v, img, answers).value;
    var k :| 0 <= k < |RESOLUTIONS| && RESOLUTIONS[k] == (f.width, f.height);
    ResolutionsPositive(k);
    AreaPositive(f.width, f.height);
  }

  lemma AreaPositive(w: nat, h: nat)
    requires w >= 64 && h >= 64
    ensures w * h >= 4096
  {
  }
}
