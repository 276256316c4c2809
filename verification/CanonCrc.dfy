/** The packet checksum of Canon PowerShot cameras: the table-driven CRC of appendix C.2 of RFC 1662
    with a start value that depends on the packet length. */
module CanonCrc {
  import opened Options

  // ---- the bitwise definition ----

  function Xor(a: bv16, b: bv16): bv16 {
    a ^ b
  }

  /** One division step by the reflected polynomial. */
  function Step(x: bv16): bv16 {
    if Low(x) then Xor(Half(x), 0x8408) else Half(x)
  }

  function Bit(b: bool): bv16 {
    if b then 1 else 0
  }

  /** One message bit enters at the low end. */
  function Enter(r: bv16, b: bool): bv16 {
    Step(Xor(r, Bit(b)))
  }

  /** Divide a message given bit by bit, starting from remainder `r`. */
  function Feed(r: bv16, bits: seq<bool>): bv16
    decreases bits
  {
    if bits == [] then r else Feed(Enter(r, bits[0]), bits[1..])
  }

  predicate Low(w: bv16) {
    w & 1 == 1
  }

  function Half(w: bv16): bv16 {
    w >> 1
  }

  /** The low `k` bits of a word, least significant first. */
  function LowBits(w: bv16, k: nat): (s: seq<bool>)
    ensures |s| == k
    decreases k
  {
    if k == 0 then [] else [Low(w)] + LowBits(Half(w), k - 1)
  }

  /** A byte is sent least significant bit first. */
  function ByteBits(b: bv8): (s: seq<bool>)
    ensures |s| == 8
  {
    LowBits(b as bv16, 8)
  }

  function MessageBits(s: seq<bv8>): (bits: seq<bool>)
    ensures |bits| == 8 * |s|
  {
    if s == [] then [] else ByteBits(s[0]) + MessageBits(s[1..])
  }

  // ---- the table-driven form ----

  function Pick(i: bv16, a: bv16, b: bv16, c: bv16, d: bv16, e: bv16, f: bv16, g: bv16, h: bv16): bv16 {
    if i == 0 then a else if i == 1 then b else if i == 2 then c else if i == 3 then d
    else if i == 4 then e else if i == 5 then f else if i == 6 then g else h
  }

  function CrcTable(x: bv16): bv16
    requires x < 0x100
  {
    match x >> 3
    case 0x00 => Pick(x & 7, 0x0000, 0x1189, 0x2312, 0x329b, 0x4624, 0x57ad, 0x6536, 0x74bf)
    case 0x01 => Pick(x & 7, 0x8c48, 0x9dc1, 0xaf5a, 0xbed3, 0xca6c, 0xdbe5, 0xe97e, 0xf8f7)
    case 0x02 => Pick(x & 7, 0x1081, 0x0108, 0x3393, 0x221a, 0x56a5, 0x472c, 0x75b7, 0x643e)
    case 0x03 => Pick(x & 7, 0x9cc9, 0x8d40, 0xbfdb, 0xae52, 0xdaed, 0xcb64, 0xf9ff, 0xe876)
    case 0x04 => Pick(x & 7, 0x2102, 0x308b, 0x0210, 0x1399, 0x6726, 0x76af, 0x4434, 0x55bd)
    case 0x05 => Pick(x & 7, 0xad4a, 0xbcc3, 0x8e58, 0x9fd1, 0xeb6e, 0xfae7, 0xc87c, 0xd9f5)
    case 0x06 => Pick(x & 7, 0x3183, 0x200a, 0x1291, 0x0318, 0x77a7, 0x662e, 0x54b5, 0x453c)
    case 0x07 => Pick(x & 7, 0xbdcb, 0xac42, 0x9ed9, 0x8f50, 0xfbef, 0xea66, 0xd8fd, 0xc974)
    case 0x08 => Pick(x & 7, 0x4204, 0x538d, 0x6116, 0x709f, 0x0420, 0x15a9, 0x2732, 0x36bb)
    case 0x09 => Pick(x & 7, 0xce4c, 0xdfc5, 0xed5e, 0xfcd7, 0x8868, 0x99e1, 0xab7a, 0xbaf3)
    case 0x0a => Pick(x & 7, 0x5285, 0x430c, 0x7197, 0x601e, 0x14a1, 0x0528, 0x37b3, 0x263a)
    case 0x0b => Pick(x & 7, 0xdecd, 0xcf44, 0xfddf, 0xec56, 0x98e9, 0x8960, 0xbbfb, 0xaa72)
    case 0x0c => Pick(x & 7, 0x6306, 0x728f, 0x4014, 0x519d, 0x2522, 0x34ab, 0x0630, 0x17b9)
    case 0x0d => Pick(x & 7, 0xef4e, 0xfec7, 0xcc5c, 0xddd5, 0xa96a, 0xb8e3, 0x8a78, 0x9bf1)
    case 0x0e => Pick(x & 7, 0x7387, 0x620e, 0x5095, 0x411c, 0x35a3, 0x242a, 0x16b1, 0x0738)
    case 0x0f => Pick(x & 7, 0xffcf, 0xee46, 0xdcdd, 0xcd54, 0xb9eb, 0xa862, 0x9af9, 0x8b70)
    case 0x10 => Pick(x & 7, 0x8408, 0x9581, 0xa71a, 0xb693, 0xc22c, 0xd3a5, 0xe13e, 0xf0b7)
    case 0x11 => Pick(x & 7, 0x0840, 0x19c9, 0x2b52, 0x3adb, 0x4e64, 0x5fed, 0x6d76, 0x7cff)
    case 0x12 => Pick(x & 7, 0x9489, 0x8500, 0xb79b, 0xa612, 0xd2ad, 0xc324, 0xf1bf, 0xe036)
    case 0x13 => Pick(x & 7, 0x18c1, 0x0948, 0x3bd3, 0x2a5a, 0x5ee5, 0x4f6c, 0x7df7, 0x6c7e)
    case 0x14 => Pick(x & 7, 0xa50a, 0xb483, 0x8618, 0x9791, 0xe32e, 0xf2a7, 0xc03c, 0xd1b5)
    case 0x15 => Pick(x & 7, 0x2942, 0x38cb, 0x0a50, 0x1bd9, 0x6f66, 0x7eef, 0x4c74, 0x5dfd)
    case 0x16 => Pick(x & 7, 0xb58b, 0xa402, 0x9699, 0x8710, 0xf3af, 0xe226, 0xd0bd, 0xc134)
    case 0x17 => Pick(x & 7, 0x39c3, 0x284a, 0x1ad1, 0x0b58, 0x7fe7, 0x6e6e, 0x5cf5, 0x4d7c)
    case 0x18 => Pick(x & 7, 0xc60c, 0xd785, 0xe51e, 0xf497, 0x8028, 0x91a1, 0xa33a, 0xb2b3)
    case 0x19 => Pick(x & 7, 0x4a44, 0x5bcd, 0x6956, 0x78df, 0x0c60, 0x1de9, 0x2f72, 0x3efb)
    case 0x1a => Pick(x & 7, 0xd68d, 0xc704, 0xf59f, 0xe416, 0x90a9, 0x8120, 0xb3bb, 0xa232)
    case 0x1b => Pick(x & 7, 0x5ac5, 0x4b4c, 0x79d7, 0x685e, 0x1ce1, 0x0d68, 0x3ff3, 0x2e7a)
    case 0x1c => Pick(x & 7, 0xe70e, 0xf687, 0xc41c, 0xd595, 0xa12a, 0xb0a3, 0x8238, 0x93b1)
    case 0x1d => Pick(x & 7, 0x6b46, 0x7acf, 0x4854, 0x59dd, 0x2d62, 0x3ceb, 0x0e70, 0x1ff9)
    case 0x1e => Pick(x & 7, 0xf78f, 0xe606, 0xd49d, 0xc514, 0xb1ab, 0xa022, 0x92b9, 0x8330)
    case _ => Pick(x & 7, 0x7bc7, 0x6a4e, 0x58d5, 0x495c, 0x3de3, 0x2c6a, 0x1ef1, 0x0f78)
  }

  function Index(crc: bv16, b: bv8): (i: bv16)
    ensures i < 0x100
  {
    Xor(crc, b as bv16) & 0xff
  }

  function High(x: bv16): bv16 {
    x >> 8
  }

  function Update(crc: bv16, b: bv8): bv16 {
    Xor(CrcTable(Index(crc, b)), High(crc))
  }

  function Crc(init: bv16, s: seq<bv8>): bv16
    decreases s
  {
    if s == [] then init else Update(Crc(init, s[..|s| - 1]), s[|s| - 1])
  }

  lemma CrcNext(init: bv16, s: seq<bv8>, n: nat)
    requires n < |s|
    ensures Crc(init, s[..n + 1]) == Update(Crc(init, s[..n]), s[n])
  {
    hide Update;
    assert s[..n + 1][..n] == s[..n];
  }

  /** chksum */
  method Chksum(init: bv16, s: seq<bv8>) returns (crc: bv16)
    ensures crc == Crc(init, s)
  {
    hide Update, Crc;
    crc := init;
    CrcNone(init);
    assert s[..0] == [];
    for n := 0 to |s|
      invariant crc == Crc(init, s[..n])
    {
      CrcNext(init, s, n);
      crc := Update(crc, s[n]);
    }
    assert s[..|s|] == s;
  }

  lemma CrcNone(init: bv16)
    ensures Crc(init, []) == init
  {
  }

  // ---- table and definition agree ----

  function Steps8(x: bv16): bv16 {
    Step(Step(Step(Step(Step(Step(Step(Step(x))))))))
  }

  lemma TableIsDivision(x: bv16)
    requires x < 0x100
    ensures CrcTable(x) == Steps8(x)
  {
    hide CrcTable, Steps8;
    match x >> 5
    case 0 => Rows0(x);
    case 1 => Rows1(x);
    case 2 => Rows2(x);
    case 3 => Rows3(x);
    case 4 => Rows4(x);
    case 5 => Rows5(x);
    case 6 => Rows6(x);
    case _ => Rows7(x);
  }

  lemma Rows0(x: bv16)
    requires 0x0 <= x < 0x20
    ensures CrcTable(x) == Steps8(x)
  {
    match x >> 3
    case 0x00 =>
    case 0x01 =>
    case 0x02 =>
    case _ =>
  }

  lemma Rows1(x: bv16)
    requires 0x20 <= x < 0x40
    ensures CrcTable(x) == Steps8(x)
  {
    match x >> 3
    case 0x04 =>
    case 0x05 =>
    case 0x06 =>
    case _ =>
  }

  lemma Rows2(x: bv16)
    requires 0x40 <= x < 0x60
    ensures CrcTable(x) == Steps8(x)
  {
    match x >> 3
    case 0x08 =>
    case 0x09 =>
    case 0x0a =>
    case _ =>
  }

  lemma Rows3(x: bv16)
    requires 0x60 <= x < 0x80
    ensures CrcTable(x) == Steps8(x)
  {
    match x >> 3
    case 0x0c =>
    case 0x0d =>
    case 0x0e =>
    case _ =>
  }

  lemma Rows4(x: bv16)
    requires 0x80 <= x < 0xa0
    ensures CrcTable(x) == Steps8(x)
  {
    match x >> 3
    case 0x10 =>
    case 0x11 =>
    case 0x12 =>
    case _ =>
  }

  lemma Rows5(x: bv16)
    requires 0xa0 <= x < 0xc0
    ensures CrcTable(x) == Steps8(x)
  {
    match x >> 3
    case 0x14 =>
    case 0x15 =>
    case 0x16 =>
    case _ =>
  }

  lemma Rows6(x: bv16)
    requires 0xc0 <= x < 0xe0
    ensures CrcTable(x) == Steps8(x)
  {
    match x >> 3
    case 0x18 =>
    case 0x19 =>
    case 0x1a =>
    case _ =>
  }

  lemma Rows7(x: bv16)
    requires 0xe0 <= x < 0x100
    ensures CrcTable(x) == Steps8(x)
  {
    match x >> 3
    case 0x1c =>
    case 0x1d =>
    case 0x1e =>
    case _ =>
  }

  // ---- division is linear ----

  lemma XorAssociative(a: bv16, b: bv16, c: bv16)
    ensures Xor(Xor(a, b), c) == Xor(a, Xor(b, c))
  {
    assert a ^ b ^ c == a ^ (b ^ c);
  }

  lemma XorCommutes(a: bv16, b: bv16)
    ensures Xor(a, b) == Xor(b, a)
  {
  }

  lemma Cancel(a: bv16, b: bv16)
    ensures Xor(Xor(a, b), b) == a
  {
  }

  lemma XorLaws(a: bv16, b: bv16, c: bv16)
    ensures Xor(Xor(a, c), Xor(b, c)) == Xor(a, b)
    ensures Xor(Xor(a, b), c) == Xor(Xor(a, c), b) && Xor(Xor(a, b), c) == Xor(a, Xor(b, c))
  {
    hide Xor;
    XorAssociative(a, b, c);
    XorAssociative(a, c, b);
    XorCommutes(b, c);
    XorAssociative(Xor(a, c), c, b);
    Cancel(a, c);
  }

  lemma HalfLinear(x: bv16, y: bv16)
    ensures Half(Xor(x, y)) == Xor(Half(x), Half(y))
  {
  }

  lemma LowOfXor(x: bv16, y: bv16)
    ensures Low(Xor(x, y)) <==> (Low(x) != Low(y))
  {
  }

  lemma StepLinear(x: bv16, y: bv16)
    ensures Step(Xor(x, y)) == Xor(Step(x), Step(y))
  {
    hide Half, Low, Xor;
    HalfLinear(x, y);
    LowOfXor(x, y);
    XorLaws(Half(x), Half(y), 0x8408);
  }

  function Shift(x: bv16, k: nat): bv16
    decreases k
  {
    if k == 0 then x else Shift(Step(x), k - 1)
  }

  function Dropped(w: bv16, k: nat): bv16
    decreases k
  {
    if k == 0 then w else Dropped(Half(w), k - 1)
  }

  /** The remainder when the whole word enters at once, `k` steps on. */
  function Ahead(r: bv16, w: bv16, k: nat): bv16 {
    Xor(Shift(Xor(r, w), k), Dropped(w, k))
  }

  lemma {:induction false} AheadStep(r: bv16, w: bv16, k: nat)
    ensures k == 0 ==> Ahead(r, w, k) == r
    ensures k > 0 ==> Ahead(r, w, k) == Ahead(Enter(r, Low(w)), Half(w), k - 1)
  {
    hide Step, Xor, Enter, Low, Half;
    if k == 0 {
      Cancel(r, w);
    } else {
      StepAhead(r, w);
    }
  }

  lemma StepAhead(r: bv16, w: bv16)
    ensures Xor(Enter(r, Low(w)), Half(w)) == Step(Xor(r, w))
  {
    hide Step, Low, Half, Bit, Xor, Even;
    SplitLow(w);
    XorLaws(r, Bit(Low(w)), Even(w));
    XorLaws(r, Even(w), Bit(Low(w)));
    StepLinear(Xor(r, Bit(Low(w))), Even(w));
  }

  function Even(w: bv16): bv16 {
    w & 0xfffe
  }

  lemma SplitLow(w: bv16)
    ensures Xor(Bit(Low(w)), Even(w)) == w
    ensures Step(Even(w)) == Half(w)
  {
  }

  lemma {:induction false} FeedWord(r: bv16, w: bv16, k: nat)
    ensures Feed(r, LowBits(w, k)) == Ahead(r, w, k)
    decreases k
  {
    hide Enter, Ahead, Low, Half;
    AheadStep(r, w, k);
    if k > 0 {
      FeedFirst(r, Low(w), LowBits(Half(w), k - 1));
      FeedWord(Enter(r, Low(w)), Half(w), k - 1);
    }
  }

  lemma FeedFirst(r: bv16, b: bool, rest: seq<bool>)
    ensures Feed(r, [b] + rest) == Feed(Enter(r, b), rest)
  {
    hide Enter;
    assert ([b] + rest)[1..] == rest;
  }

  lemma FeedByte(crc: bv16, b: bv8)
    ensures Feed(crc, ByteBits(b)) == Steps8(Xor(crc, b as bv16))
  {
    hide Step, Enter, Low, Xor, Half, Feed, LowBits;
    var w := b as bv16;
    var x := Xor(crc, w);
    FeedWord(crc, w, 8);
    assert Shift(x, 8) == Shift(Step(Step(Step(Step(x)))), 4);
    assert Dropped(w, 8) == Dropped(Half(Half(Half(Half(w)))), 4);
    NothingLeft(b);
    Cancel(Steps8(x), 0);
    XorZero(Steps8(x));
  }

  lemma XorZero(x: bv16)
    ensures Xor(x, 0) == x
  {
  }

  lemma NothingLeft(b: bv8)
    ensures Half(Half(Half(Half(Half(Half(Half(Half(b as bv16)))))))) == 0
  {
  }

  /** One table lookup divides by eight message bits. */
  lemma UpdateIsDivision(crc: bv16, b: bv8)
    ensures Update(crc, b) == Feed(crc, ByteBits(b))
  {
    hide CrcTable, Steps8, Feed, ByteBits, Index, High, Xor;
    TableIsDivision(Index(crc, b));
    FeedByte(crc, b);
    Split8(crc, b);
  }

  lemma Split8(crc: bv16, b: bv8)
    ensures Steps8(Xor(crc, b as bv16)) == Xor(Steps8(Index(crc, b)), High(crc))
  {
    hide Steps8, Xor, High;
    Steps8Splits(Xor(crc, b as bv16));
    HighOfXor(crc, b);
  }

  lemma HighOfXor(crc: bv16, b: bv8)
    ensures High(Xor(crc, b as bv16)) == High(crc)
  {
  }

  lemma Steps8Splits(x: bv16)
    ensures Steps8(x) == Xor(Steps8(x & 0xff), High(x))
  {
    hide Step, Xor, High;
    HighEnters(x);
    Steps8Linear(x & 0xff, x & 0xff00);
  }

  lemma Steps8Linear(x: bv16, y: bv16)
    ensures Steps8(Xor(x, y)) == Xor(Steps8(x), Steps8(y))
  {
    hide Step, Xor;
    StepLinear(x, y);
    StepLinear(Step(x), Step(y));
    var x2, y2 := Step(Step(x)), Step(Step(y));
    StepLinear(x2, y2);
    StepLinear(Step(x2), Step(y2));
    var x4, y4 := Step(Step(x2)), Step(Step(y2));
    StepLinear(x4, y4);
    StepLinear(Step(x4), Step(y4));
    var x6, y6 := Step(Step(x4)), Step(Step(y4));
    StepLinear(x6, y6);
    StepLinear(Step(x6), Step(y6));
  }

  lemma HighEnters(x: bv16)
    ensures Xor(x & 0xff, x & 0xff00) == x
    ensures Steps8(x & 0xff00) == High(x)
  {
  }

  /** Table-driven checksum and bitwise division agree on every message and start value. */
  lemma {:induction false} CrcIsDivision(init: bv16, s: seq<bv8>)
    ensures Crc(init, s) == Feed(init, MessageBits(s))
    decreases s
  {
    hide Update, Feed, ByteBits;
    if s == [] {
      FeedNone(init);
    } else {
      var n := |s| - 1;
      CrcIsDivision(init, s[..n]);
      UpdateIsDivision(Crc(init, s[..n]), s[n]);
      FeedConcat(init, MessageBits(s[..n]), ByteBits(s[n]));
      MessageBitsLast(s);
    }
  }

  lemma FeedNone(r: bv16)
    ensures Feed(r, []) == r
  {
  }

  lemma {:induction false} FeedConcat(r: bv16, a: seq<bool>, b: seq<bool>)
    ensures Feed(r, a + b) == Feed(Feed(r, a), b)
    decreases a
  {
    hide Enter;
    if a == [] {
      assert a + b == b;
    } else {
      FeedConcat(Enter(r, a[0]), a[1..], b);
      assert (a + b)[1..] == a[1..] + b;
    }
  }

  lemma {:induction false} MessageBitsLast(s: seq<bv8>)
    requires s != []
    ensures MessageBits(s) == MessageBits(s[..|s| - 1]) + ByteBits(s[|s| - 1])
    decreases s
  {
    hide ByteBits;
    if |s| > 1 {
      MessageBitsLast(s[1..]);
      assert s[1..][..|s| - 2] == s[..|s| - 1][1..];
    } else {
      assert MessageBits(s[1..]) == [];
    }
  }

  // ---- linearity over whole messages ----

  lemma UpdateIsSteps(crc: bv16, b: bv8)
    ensures Update(crc, b) == Steps8(Xor(crc, b as bv16))
  {
    hide CrcTable, Steps8, Index, High, Xor;
    TableIsDivision(Index(crc, b));
    Split8(crc, b);
  }

  function XorByte(x: bv8, y: bv8): bv8 {
    x ^ y
  }

  function Combined(s: seq<bv8>, t: seq<bv8>): (r: seq<bv8>)
    requires |s| == |t|
    ensures |r| == |s|
  {
    seq(|s|, i requires 0 <= i < |s| => XorByte(s[i], t[i]))
  }

  lemma WidenXor(x: bv8, y: bv8)
    ensures XorByte(x, y) as bv16 == Xor(x as bv16, y as bv16)
  {
  }

  lemma XorShuffle(a: bv16, b: bv16, u: bv16, v: bv16)
    ensures Xor(Xor(a, b), Xor(u, v)) == Xor(Xor(a, u), Xor(b, v))
  {
    hide Xor;
    XorAssociative(Xor(a, b), u, v);
    XorLaws(a, b, u);
    XorAssociative(Xor(a, u), b, v);
  }

  /** The checksum of the exclusive or is the exclusive or of the checksums. */
  lemma {:induction false} CrcLinear(a: bv16, b: bv16, s: seq<bv8>, t: seq<bv8>)
    requires |s| == |t|
    ensures Crc(Xor(a, b), Combined(s, t)) == Xor(Crc(a, s), Crc(b, t))
    decreases s
  {
    hide Update, Xor, Steps8, XorByte;
    if s != [] {
      var n := |s| - 1;
      CrcLinear(a, b, s[..n], t[..n]);
      assert Combined(s, t)[..n] == Combined(s[..n], t[..n]);
      UpdateLinear(Crc(a, s[..n]), Crc(b, t[..n]), s[n], t[n]);
    }
  }

  lemma UpdateLinear(c: bv16, d: bv16, x: bv8, y: bv8)
    ensures Update(Xor(c, d), XorByte(x, y)) == Xor(Update(c, x), Update(d, y))
  {
    hide Update, Xor, Steps8, XorByte;
    UpdateIsSteps(c, x);
    UpdateIsSteps(d, y);
    UpdateIsSteps(Xor(c, d), XorByte(x, y));
    WidenXor(x, y);
    XorShuffle(c, d, x as bv16, y as bv16);
    Steps8Linear(Xor(c, x as bv16), Xor(d, y as bv16));
  }

  // ---- the start value can be recovered ----

  predicate Top(y: bv16) {
    y & 0x8000 != 0
  }

  function Twice(y: bv16, b: bool): bv16 {
    (y << 1) | Bit(b)
  }

  function Unstep(y: bv16): bv16 {
    if Top(y) then Twice(Xor(y, 0x8408), true) else Twice(y, false)
  }

  lemma HalfTwice(x: bv16, b: bool)
    ensures Twice(Half(x), Low(x)) == x && !Top(Half(x))
    ensures !Top(x) ==> Half(Twice(x, b)) == x
    ensures Low(Twice(x, b)) == b
    ensures Top(Xor(x, 0x8408)) != Top(x)
  {
  }

  /** The polynomial has its top bit set, so the top bit of the result tells which way a step went. */
  lemma StepInverse(x: bv16)
    ensures Unstep(Step(x)) == x && Step(Unstep(x)) == x
  {
    hide Half, Twice, Xor, Low, Top;
    HalfTwice(x, false);
    HalfTwice(Half(x), false);
    Cancel(Half(x), 0x8408);
    HalfTwice(Xor(x, 0x8408), true);
    Cancel(x, 0x8408);
  }

  function Unsteps8(y: bv16): bv16 {
    Unstep(Unstep(Unstep(Unstep(Unstep(Unstep(Unstep(Unstep(y))))))))
  }

  lemma Steps8Inverse(x: bv16)
    ensures Unsteps8(Steps8(x)) == x && Steps8(Unsteps8(x)) == x
  {
    hide Step, Unstep;
    StepInverse(x);
    var x1, y1 := Step(x), Unstep(x);
    StepInverse(x1);
    StepInverse(y1);
    var x2, y2 := Step(x1), Unstep(y1);
    StepInverse(x2);
    StepInverse(y2);
    var x3, y3 := Step(x2), Unstep(y2);
    StepInverse(x3);
    StepInverse(y3);
    var x4, y4 := Step(x3), Unstep(y3);
    StepInverse(x4);
    StepInverse(y4);
    var x5, y5 := Step(x4), Unstep(y4);
    StepInverse(x5);
    StepInverse(y5);
    var x6, y6 := Step(x5), Unstep(y5);
    StepInverse(x6);
    StepInverse(y6);
    var x7, y7 := Step(x6), Unstep(y6);
    StepInverse(x7);
    StepInverse(y7);
  }

  /** The start value that gives message `s` the checksum `crc`. */
  function SeedFor(s: seq<bv8>, crc: bv16): bv16
    decreases s
  {
    if s == [] then crc else SeedFor(s[..|s| - 1], Xor(Unsteps8(crc), s[|s| - 1] as bv16))
  }

  lemma {:induction false} CrcOfSeed(s: seq<bv8>, x: bv16)
    ensures Crc(SeedFor(s, x), s) == x
    decreases s
  {
    hide Update, Xor, Steps8, Unsteps8;
    if s != [] {
      var n := |s| - 1;
      var b := s[n] as bv16;
      CrcOfSeed(s[..n], Xor(Unsteps8(x), b));
      UpdateIsSteps(Xor(Unsteps8(x), b), s[n]);
      Cancel(Unsteps8(x), b);
      Steps8Inverse(x);
    }
  }

  lemma {:induction false} SeedOfCrc(s: seq<bv8>, x: bv16)
    ensures SeedFor(s, Crc(x, s)) == x
    decreases s
  {
    hide Update, Xor, Steps8, Unsteps8;
    if s != [] {
      var n := |s| - 1;
      var b, c := s[n] as bv16, Crc(x, s[..n]);
      SeedOfCrc(s[..n], x);
      UpdateIsSteps(c, s[n]);
      Steps8Inverse(Xor(c, b));
      Cancel(c, b);
    }
  }

  /** For every message, start values and checksums correspond one to one. */
  lemma SeedBijection(s: seq<bv8>, x: bv16)
    ensures Crc(SeedFor(s, x), s) == x && SeedFor(s, Crc(x, s)) == x
  {
    CrcOfSeed(s, x);
    SeedOfCrc(s, x);
  }

  function Word(i: nat): bv16
    requires i < 0x10000
  {
    i as bv16
  }

  lemma EveryWord(x: bv16) returns (i: nat)
    ensures i < 0x10000 && Word(i) == x
  {
    i := x as int;
  }

  /** guess: the loop always ends with a match, so the error exit behind it is never reached. */
  method Guess(m: seq<bv8>, crc: bv16) returns (found: bool, seed: bv16)
    ensures found && Crc(seed, m) == crc && seed == SeedFor(m, crc)
  {
    hide Crc, SeedFor, Word;
    SeedBijection(m, crc);
    var i := 0;
    while i < 0x10000
      invariant 0 <= i <= 0x10000
      invariant forall j: nat :: j < i ==> Crc(Word(j), m) != crc
    {
      seed := Word(i);
      var c := Chksum(seed, m);
      if c == crc {
        SeedBijection(m, seed);
        return true, seed;
      }
      i := i + 1;
    }
    ghost var j := EveryWord(SeedFor(m, crc));
    assert false;
    found, seed := false, 0;
  }

  // ---- error detection ----

  /** The lowest place the topmost bit of a difference can have, `j` steps after it appeared. */
  function Level(j: nat): bv16
    requires j <= 15
  {
    match j
    case 0 => 0x8000
    case 1 => 0x4000
    case 2 => 0x2000
    case 3 => 0x1000
    case 4 => 0x0800
    case 5 => 0x0400
    case 6 => 0x0200
    case 7 => 0x0100
    case 8 => 0x0080
    case 9 => 0x0040
    case 10 => 0x0020
    case 11 => 0x0010
    case 12 => 0x0008
    case 13 => 0x0004
    case 14 => 0x0002
    case _ => 0x0001
  }

  predicate AtLeast(d: bv16, m: bv16) {
    d >= m
  }

  lemma LevelNext(j: nat)
    requires j < 15
    ensures Level(j + 1) == Half(Level(j)) && AtLeast(Level(j), 2)
  {
  }

  /** One step moves the topmost bit of a difference down by at most one place, whatever bit enters. */
  lemma StepKeepsLevel(d: bv16, m: bv16, b: bool)
    requires AtLeast(d, m) && AtLeast(m, 2)
    ensures AtLeast(Step(Xor(d, Bit(b))), Half(m))
  {
    var x := Xor(d, Bit(b));
    assert Half(x) == Half(d) >= Half(m);
    HalfTwice(x, false);
    TopIsLarge(Xor(Half(x), 0x8408), m);
    HalfTwice(Half(x), false);
  }

  lemma TopIsLarge(y: bv16, m: bv16)
    ensures Top(y) ==> y >= Half(m)
  {
  }

  lemma EnterDifference(r: bv16, q: bv16, a: bool, b: bool)
    ensures Xor(Enter(r, a), Enter(q, b)) == Step(Xor(Xor(r, q), Bit(a != b)))
  {
    hide Step, Xor;
    StepLinear(Xor(r, Bit(a)), Xor(q, Bit(b)));
    XorShuffle(r, Bit(a), q, Bit(b));
    BitXor(a, b);
  }

  lemma BitXor(a: bool, b: bool)
    ensures Xor(Bit(a), Bit(b)) == Bit(a != b)
  {
  }

  lemma XorNonzero(x: bv16, y: bv16)
    ensures AtLeast(Xor(x, y), 1) ==> x != y
    ensures x == y ==> Xor(x, y) == 0
  {
  }

  /** A difference survives the next 15 bits. */
  lemma {:induction false} StayApart(r: bv16, q: bv16, a: seq<bool>, b: seq<bool>, j: nat)
    requires |a| == |b| && |a| + j <= 15 && AtLeast(Xor(r, q), Level(j))
    ensures Feed(r, a) != Feed(q, b)
    decreases a
  {
    hide Step, Xor, Half, Level, Enter, AtLeast;
    if a == [] {
      AboveZero(Xor(r, q), j);
      XorNonzero(r, q);
    } else {
      EnterDifference(r, q, a[0], b[0]);
      LevelNext(j);
      StepKeepsLevel(Xor(r, q), Level(j), a[0] != b[0]);
      StayApart(Enter(r, a[0]), Enter(q, b[0]), a[1..], b[1..], j + 1);
    }
  }

  lemma AboveZero(d: bv16, j: nat)
    requires j <= 15 && AtLeast(d, Level(j))
    ensures AtLeast(d, 1)
  {
  }

  /** Equal message bits never bring two remainders together. */
  lemma {:induction false} FeedInjective(r: bv16, q: bv16, a: seq<bool>)
    requires r != q
    ensures Feed(r, a) != Feed(q, a)
    decreases a
  {
    hide Step, Xor, Unstep;
    if a != [] {
      var b := Bit(a[0]);
      Cancel(r, b);
      Cancel(q, b);
      StepInverse(Xor(r, b));
      StepInverse(Xor(q, b));
      FeedInjective(Enter(r, a[0]), Enter(q, a[0]), a[1..]);
    }
  }

  /** The bits differ, and only inside 16 consecutive places. */
  ghost predicate Burst(a: seq<bool>, b: seq<bool>, p: nat) {
    && |a| == |b| && a != b
    && forall i: nat :: i < |a| && (i < p || i >= p + 16) ==> a[i] == b[i]
  }

  lemma {:induction false} FirstDifference(a: seq<bool>, b: seq<bool>) returns (f: nat)
    requires |a| == |b| && a != b
    ensures f < |a| && a[..f] == b[..f] && a[f] != b[f]
  {
    if a[0] != b[0] {
      f := 0;
    } else {
      f := FirstDifference(a[1..], b[1..]);
      f := f + 1;
      assert a[..f] == [a[0]] + a[1..][..f - 1];
      assert b[..f] == [b[0]] + b[1..][..f - 1];
    }
  }

  lemma BurstChangesRemainder(r: bv16, a: seq<bool>, b: seq<bool>, p: nat)
    requires Burst(a, b, p)
    ensures Feed(r, a) != Feed(r, b)
  {
    hide Feed;
    var f := FirstDifference(a, b);
    var e := if f + 16 <= |a| then f + 16 else |a|;
    assert a[e..] == b[e..];
    var s := Feed(r, a[..f]);
    WindowApart(s, a[f..e], b[f..e]);
    FeedInjective(Feed(s, a[f..e]), Feed(s, b[f..e]), a[e..]);
    ThreeParts(r, a, f, e);
    ThreeParts(r, b, f, e);
  }

  lemma ThreeParts(r: bv16, a: seq<bool>, f: nat, e: nat)
    requires f <= e <= |a|
    ensures Feed(r, a) == Feed(Feed(Feed(r, a[..f]), a[f..e]), a[e..])
  {
    hide Feed;
    FeedConcat(r, a[..f], a[f..e]);
    FeedConcat(r, a[..f] + a[f..e], a[e..]);
    assert a == a[..f] + a[f..e] + a[e..];
  }

  lemma WindowApart(s: bv16, a: seq<bool>, b: seq<bool>)
    requires 1 <= |a| == |b| <= 16 && a[0] != b[0]
    ensures Feed(s, a) != Feed(s, b)
  {
    hide Xor, Step, Enter, AtLeast;
    EnterDifference(s, s, a[0], b[0]);
    XorNonzero(s, s);
    FirstStep();
    StayApart(Enter(s, a[0]), Enter(s, b[0]), a[1..], b[1..], 0);
  }

  lemma FirstStep()
    ensures AtLeast(Step(Xor(0, Bit(true))), Level(0))
  {
  }

  lemma {:induction false} MessageBitsInjective(s: seq<bv8>, t: seq<bv8>)
    requires |s| == |t| && MessageBits(s) == MessageBits(t)
    ensures s == t
    decreases s
  {
    hide ByteBits;
    if s != [] {
      var a, b := ByteBits(s[0]), ByteBits(t[0]);
      assert MessageBits(s)[..8] == a && MessageBits(t)[..8] == b;
      assert MessageBits(s)[8..] == MessageBits(s[1..]) && MessageBits(t)[8..] == MessageBits(t[1..]);
      ByteBitsInjective(s[0], t[0]);
      MessageBitsInjective(s[1..], t[1..]);
      assert s == [s[0]] + s[1..] && t == [t[0]] + t[1..];
    }
  }

  lemma ByteBitsInjective(x: bv8, y: bv8)
    requires ByteBits(x) == ByteBits(y)
    ensures x == y
  {
    hide ByteBits, Feed, Steps8, Unsteps8;
    FeedByte(0, x);
    FeedByte(0, y);
    Steps8Inverse(Xor(0, x as bv16));
    Steps8Inverse(Xor(0, y as bv16));
  }

  /** Two packets of one length that differ only inside a 16 bit burst have different checksums. */
  lemma BurstDetected(init: bv16, s: seq<bv8>, t: seq<bv8>, p: nat)
    requires |s| == |t| && s != t
    requires forall i: nat :: i < 8 * |s| && (i < p || i >= p + 16) ==> MessageBits(s)[i] == MessageBits(t)[i]
    ensures Crc(init, s) != Crc(init, t)
  {
    hide Crc, Feed, MessageBits;
    if MessageBits(s) == MessageBits(t) {
      MessageBitsInjective(s, t);
    }
    CrcIsDivision(init, s);
    CrcIsDivision(init, t);
    BurstChangesRemainder(init, MessageBits(s), MessageBits(t), p);
  }

  // ---- the packet routines ----

  /** Start values by packet length; none is known for lengths below 5 and above 1020. */
  type seeds = t: seq<Option<bv16>> | |t| == 1024 && forall n :: 0 <= n < 1024 ==> (t[n].Some? <==> 5 <= n <= 1020)
    witness seq(1024, n => if 5 <= n <= 1020 then Some(0) else None)

  /** find_init */
  function FindInit(table: seeds, len: nat): Option<bv16> {
    if len < 1024 then table[len] else None
  }

  /** canon_psa50_gen_crc; None for the error return. */
  method GenCrc(table: seeds, pkt: seq<bv8>) returns (crc: Option<bv16>)
    ensures crc == match FindInit(table, |pkt|) case None => None case Some(init) => Some(Crc(init, pkt))
    ensures crc.Some? <==> 5 <= |pkt| <= 1020
  {
    var init := FindInit(table, |pkt|);
    if init.Some? {
      var c := Chksum(init.value, pkt);
      return Some(c);
    }
    crc := None;
  }

  /** canon_psa50_chk_crc; packets of unknown length pass. */
  method ChkCrc(table: seeds, pkt: seq<bv8>, crc: bv16) returns (ok: bool)
    ensures ok <==> forall init :: FindInit(table, |pkt|) == Some(init) ==> Crc(init, pkt) == crc
    ensures !(5 <= |pkt| <= 1020) ==> ok
  {
    var init := FindInit(table, |pkt|);
    if init.Some? {
      var c := Chksum(init.value, pkt);
      return c == crc;
    }
    var _, _ := Guess(pkt, crc);
    ok := true;
  }

  /** A packet passes with its own checksum; changed inside 16 consecutive bits it does not. */
  method SendAndCheck(table: seeds, pkt: seq<bv8>, received: seq<bv8>, ghost p: nat) returns (known: bool, ok: bool)
    requires |received| == |pkt|
    requires forall i: nat :: i < 8 * |pkt| && (i < p || i >= p + 16) ==> MessageBits(pkt)[i] == MessageBits(received)[i]
    ensures known <==> 5 <= |pkt| <= 1020
    ensures known ==> (ok <==> received == pkt)
  {
    hide Crc, MessageBits;
    var crc := GenCrc(table, pkt);
    known, ok := crc.Some?, true;
    if known {
      ok := ChkCrc(table, received, crc.value);
      if received != pkt {
        BurstDetected(FindInit(table, |pkt|).value, pkt, received, p);
      }
    }
  }
}
