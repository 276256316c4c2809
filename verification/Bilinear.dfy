/** gp_bayer_interpolate: each missing channel from the nearest samples of its colour, filled in on the spot. */
module Bilinear {
  import opened Bytes
  import opened Mosaic
  import opened Options

  // ---- one value from up to four neighbours ----

  function Term(v: Option<byte>): nat {
    match v
    case None => 0
    case Some(b) => b
  }

  function One(v: Option<byte>): nat {
    if v.Some? then 1 else 0
  }

  function Sum4(v: seq<Option<byte>>): nat
    requires |v| == 4
  {
    Term(v[0]) + Term(v[1]) + Term(v[2]) + Term(v[3])
  }

  function Count4(v: seq<Option<byte>>): nat
    requires |v| == 4
  {
    One(v[0]) + One(v[1]) + One(v[2]) + One(v[3])
  }

  function Above(v: Option<byte>, average: nat): nat {
    if v.Some? && v.value > average then 1 else 0
  }

  function CountAbove(v: seq<Option<byte>>, average: nat): nat
    requires |v| == 4
  {
    Above(v[0], average) + Above(v[1], average) + Above(v[2], average) + Above(v[3], average)
  }

  /** The value itself if it lies on the given side of the average. */
  function Side(v: Option<byte>, average: nat, above: bool): nat {
    if (Above(v, average) == 1) == above then Term(v) else 0
  }

  function SumSide(v: seq<Option<byte>>, average: nat, above: bool): nat
    requires |v| == 4
  {
    Side(v[0], average, above) + Side(v[1], average, above) + Side(v[2], average, above) + Side(v[3], average, above)
  }

  function Square(d: int): int {
    d * d
  }

  /** What gp_bayer_accrue returns: lines are kept for green, a value alone on its side of the average is dropped. */
  function Accrue(v: seq<Option<byte>>, c: Colour): (r: int)
    requires |v| == 4 && Count4(v) > 0
  {
    var all := Count4(v) == 4;
    var hdiff := if all then Square(v[1].value as int - v[0].value as int) else 0;
    var vdiff := if all then Square(v[3].value as int - v[2].value as int) else 0;
    if c == Green && hdiff > 2 * vdiff then (Term(v[3]) + Term(v[2])) / 2
    else if c == Green && vdiff > 2 * hdiff then (Term(v[1]) + Term(v[0])) / 2
    else
      var average := Sum4(v) / Count4(v);
      var counter := CountAbove(v, average);
      if !all || counter == 2 || counter == 0 then average
      else SumSide(v, average, counter == 3) / 3
  }

  /** Every neighbour there is lies between `lo` and `hi`. */
  predicate Bounded(v: seq<Option<byte>>, lo: nat, hi: nat) {
    forall i :: 0 <= i < |v| && v[i].Some? ==> lo <= v[i].value <= hi
  }

  /** Four numbers cannot all exceed the floor of their mean. */
  lemma NotAllAbove(v: seq<Option<byte>>)
    requires |v| == 4 && Count4(v) == 4
    ensures CountAbove(v, Sum4(v) / 4) < 4
  {
  }

  lemma AverageBetween(v: seq<Option<byte>>, lo: nat, hi: nat)
    requires |v| == 4 && Count4(v) > 0 && Bounded(v, lo, hi)
    ensures lo <= Sum4(v) / Count4(v) <= hi
  {
    hide Sum4, Count4, Bounded;
    var n := Count4(v);
    SumBounds(v, lo, hi);
    if n == 1 {
    } else if n == 2 {
      Halved(Sum4(v), lo, hi);
    } else if n == 3 {
      Thirded(Sum4(v), lo, hi);
    } else {
      Quartered(Sum4(v), lo, hi);
    }
  }

  lemma SumBounds(v: seq<Option<byte>>, lo: nat, hi: nat)
    requires |v| == 4 && Count4(v) > 0 && Bounded(v, lo, hi)
    ensures Count4(v) <= 4
    ensures Count4(v) == 1 ==> lo <= Sum4(v) <= hi
    ensures Count4(v) == 2 ==> 2 * lo <= Sum4(v) <= 2 * hi
    ensures Count4(v) == 3 ==> 3 * lo <= Sum4(v) <= 3 * hi
    ensures Count4(v) == 4 ==> 4 * lo <= Sum4(v) <= 4 * hi
  {
  }

  lemma Halved(s: nat, lo: nat, hi: nat)
    requires 2 * lo <= s <= 2 * hi
    ensures lo <= s / 2 <= hi
  {
  }

  lemma Thirded(s: nat, lo: nat, hi: nat)
    requires 3 * lo <= s <= 3 * hi
    ensures lo <= s / 3 <= hi
  {
  }

  lemma Quartered(s: nat, lo: nat, hi: nat)
    requires 4 * lo <= s <= 4 * hi
    ensures lo <= s / 4 <= hi
  {
  }

  /** With one or three values above the average, the larger side has three. */
  lemma SideBetween(v: seq<Option<byte>>, average: nat, lo: nat, hi: nat)
    requires |v| == 4 && Count4(v) == 4 && Bounded(v, lo, hi)
    requires CountAbove(v, average) == 1 || CountAbove(v, average) == 3
    ensures 3 * lo <= SumSide(v, average, CountAbove(v, average) == 3) <= 3 * hi
  {
  }

  /** The result lies between the smallest and the largest of the neighbours there are. */
  lemma AccrueBetween(v: seq<Option<byte>>, c: Colour, lo: nat, hi: nat)
    requires |v| == 4 && Count4(v) > 0 && Bounded(v, lo, hi)
    ensures lo <= Accrue(v, c) <= hi
  {
    hide Square, Sum4, SumSide, CountAbove;
    AverageBetween(v, lo, hi);
    var average := Sum4(v) / Count4(v);
    if Count4(v) == 4 {
      assert lo <= v[0].value <= hi && lo <= v[1].value <= hi && lo <= v[2].value <= hi && lo <= v[3].value <= hi;
      NotAllAbove(v);
      AtMostFour(v, average);
      if CountAbove(v, average) == 1 || CountAbove(v, average) == 3 {
        SideBetween(v, average, lo, hi);
      }
    }
  }

  lemma AtMostFour(v: seq<Option<byte>>, average: nat)
    requires |v| == 4
    ensures CountAbove(v, average) <= 4
  {
  }

  // ---- a pixel from the raw mosaic ----

  function SampleAt(img: seq<row>, x: int, y: int, c: Colour): Option<byte> {
    if 0 <= y < |img| && 0 <= x < |img[y]| then Some(Channel(img[y][x], c)) else None
  }

  /** Rows of `w` pixels, at least two of each. */
  ghost predicate Wide(img: seq<row>, w: nat) {
    IsImage(img, w) && w >= 2 && |img| >= 2
  }

  function Cross(img: seq<row>, x: nat, y: nat): (v: seq<Option<byte>>)
    ensures |v| == 4
  {
    [SampleAt(img, x - 1, y, Green), SampleAt(img, x + 1, y, Green), SampleAt(img, x, y - 1, Green), SampleAt(img, x, y + 1, Green)]
  }

  function Diagonals(img: seq<row>, x: nat, y: nat, c: Colour): (v: seq<Option<byte>>)
    ensures |v| == 4
  {
    [SampleAt(img, x + 1, y + 1, c), SampleAt(img, x - 1, y - 1, c), SampleAt(img, x - 1, y + 1, c), SampleAt(img, x + 1, y - 1, c)]
  }

  function Beside(img: seq<row>, x: nat, y: nat, c: Colour): (v: seq<Option<byte>>)
    ensures |v| == 4
  {
    [SampleAt(img, x + 1, y, c), SampleAt(img, x - 1, y, c), None, None]
  }

  function AboveBelow(img: seq<row>, x: nat, y: nat, c: Colour): (v: seq<Option<byte>>)
    ensures |v| == 4
  {
    [SampleAt(img, x, y + 1, c), SampleAt(img, x, y - 1, c), None, None]
  }

  /** The neighbours from which a missing channel is computed. */
  function Neighbourhood(img: seq<row>, site: Site, x: nat, y: nat, c: Colour): (v: seq<Option<byte>>)
    ensures |v| == 4
  {
    match site
    case RedSite => if c == Green then Cross(img, x, y) else Diagonals(img, x, y, c)
    case BlueSite => if c == Green then Cross(img, x, y) else Diagonals(img, x, y, c)
    case GreenInRedRow => if c == Red then Beside(img, x, y, c) else AboveBelow(img, x, y, c)
    case GreenInBlueRow => if c == Blue then Beside(img, x, y, c) else AboveBelow(img, x, y, c)
  }

  lemma HasNeighbour(img: seq<row>, w: nat, site: Site, x: nat, y: nat, c: Colour)
    requires Wide(img, w) && x < w && y < |img|
    ensures Count4(Neighbourhood(img, site, x, y, c)) > 0
  {
    assert |img[y]| == w;
    if y > 0 {
      assert |img[y - 1]| == w;
    } else {
      assert |img[y + 1]| == w;
    }
  }

  function Mean(v: seq<Option<byte>>): nat
    requires |v| == 4 && Count4(v) > 0
  {
    Sum4(v) / Count4(v)
  }

  /** A missing channel: accrued at red and blue sites, the plain mean at green ones. */
  function Missing(img: seq<row>, w: nat, site: Site, x: nat, y: nat, c: Colour): (b: byte)
    requires Wide(img, w) && x < w && y < |img|
  {
    var v := Neighbourhood(img, site, x, y, c);
    HasNeighbour(img, w, site, x, y, c);
    AccrueBetween(v, c, 0, 255);
    AverageBetween(v, 0, 255);
    if Native(site) == Green then Mean(v) else Accrue(v, c)
  }

  function Interpolated(img: seq<row>, w: nat, tile: Tile, x: nat, y: nat): Rgb
    requires Wide(img, w) && x < w && y < |img|
  {
    var site, p := SiteAt(tile, x, y), img[y][x];
    Rgb(if Native(site) == Red then p.r else Missing(img, w, site, x, y, Red),
        if Native(site) == Green then p.g else Missing(img, w, site, x, y, Green),
        if Native(site) == Blue then p.b else Missing(img, w, site, x, y, Blue))
  }

  /** Every computed channel lies between its in-image neighbours of that colour. */
  lemma MissingBetween(img: seq<row>, w: nat, site: Site, x: nat, y: nat, c: Colour, lo: nat, hi: nat)
    requires Wide(img, w) && x < w && y < |img| && Bounded(Neighbourhood(img, site, x, y, c), lo, hi)
    ensures lo <= Missing(img, w, site, x, y, c) <= hi
  {
    hide Accrue, Mean, Neighbourhood, Bounded;
    var v := Neighbourhood(img, site, x, y, c);
    HasNeighbour(img, w, site, x, y, c);
    AccrueBetween(v, c, lo, hi);
    MeanBetween(v, lo, hi);
  }

  lemma MeanBetween(v: seq<Option<byte>>, lo: nat, hi: nat)
    requires |v| == 4 && Count4(v) > 0 && Bounded(v, lo, hi)
    ensures lo <= Mean(v) <= hi
  {
    AverageBetween(v, lo, hi);
  }

  // ---- only sensor samples are read ----

  /** Two images that agree in every sensor sample. */
  ghost predicate SameMosaic(a: seq<row>, b: seq<row>, w: nat, tile: Tile) {
    && IsImage(a, w) && IsImage(b, w) && |a| == |b|
    && forall x, y :: 0 <= x < w && 0 <= y < |a| ==> SameSample(a[y][x], b[y][x], SiteAt(tile, x, y))
  }

  predicate SameSample(p: Rgb, q: Rgb, site: Site) {
    Channel(p, Native(site)) == Channel(q, Native(site))
  }

  lemma SampleLocal(a: seq<row>, b: seq<row>, w: nat, tile: Tile, x: int, y: int, c: Colour)
    requires SameMosaic(a, b, w, tile)
    requires 0 <= x < w && 0 <= y < |a| ==> Native(SiteAt(tile, x, y)) == c
    ensures SampleAt(a, x, y, c) == SampleAt(b, x, y, c)
  {
    hide SiteAt;
    if 0 <= y < |a| {
      assert |a[y]| == |b[y]| == w;
      if 0 <= x < w {
        assert SameSample(a[y][x], b[y][x], SiteAt(tile, x, y));
      }
    }
  }

  lemma NeighbourhoodLocal(a: seq<row>, b: seq<row>, w: nat, tile: Tile, x: nat, y: nat, c: Colour)
    requires SameMosaic(a, b, w, tile) && x < w && y < |a| && Native(SiteAt(tile, x, y)) != c
    ensures Neighbourhood(a, SiteAt(tile, x, y), x, y, c) == Neighbourhood(b, SiteAt(tile, x, y), x, y, c)
  {
    hide SiteAt, SameMosaic, SampleAt;
    var site := SiteAt(tile, x, y);
    Neighbours(tile, x, y);
    if Native(site) == Green {
      if (site == GreenInRedRow) == (c == Red) {
        SampleLocal(a, b, w, tile, x + 1, y, c);
        SampleLocal(a, b, w, tile, x - 1, y, c);
      } else {
        SampleLocal(a, b, w, tile, x, y + 1, c);
        SampleLocal(a, b, w, tile, x, y - 1, c);
      }
    } else if c == Green {
      SampleLocal(a, b, w, tile, x - 1, y, c);
      SampleLocal(a, b, w, tile, x + 1, y, c);
      SampleLocal(a, b, w, tile, x, y - 1, c);
      SampleLocal(a, b, w, tile, x, y + 1, c);
    } else {
      DiagonalsLocal(a, b, w, tile, x, y, c);
    }
  }

  lemma DiagonalsLocal(a: seq<row>, b: seq<row>, w: nat, tile: Tile, x: nat, y: nat, c: Colour)
    requires SameMosaic(a, b, w, tile) && x < w && y < |a|
    requires Native(SiteAt(tile, x, y)) != Green && c != Green && Native(SiteAt(tile, x, y)) != c
    ensures Diagonals(a, x, y, c) == Diagonals(b, x, y, c)
  {
    hide SiteAt, SameMosaic, SampleAt;
    Neighbours(tile, x, y);
    Neighbours(tile, x + 1, y);
    if x > 0 {
      Neighbours(tile, x - 1, y);
    }
    SampleLocal(a, b, w, tile, x + 1, y + 1, c);
    SampleLocal(a, b, w, tile, x - 1, y - 1, c);
    SampleLocal(a, b, w, tile, x - 1, y + 1, c);
    SampleLocal(a, b, w, tile, x + 1, y - 1, c);
  }

  /** The result depends on the sensor samples only. */
  lemma InterpolatedLocal(a: seq<row>, b: seq<row>, w: nat, tile: Tile, x: nat, y: nat)
    requires Wide(a, w) && Wide(b, w) && SameMosaic(a, b, w, tile) && x < w && y < |a|
    ensures Interpolated(a, w, tile, x, y) == Interpolated(b, w, tile, x, y)
  {
    hide SiteAt, Neighbourhood, Accrue, Mean;
    var site := SiteAt(tile, x, y);
    assert SameSample(a[y][x], b[y][x], site);
    if Native(site) != Red {
      NeighbourhoodLocal(a, b, w, tile, x, y, Red);
    }
    if Native(site) != Green {
      NeighbourhoodLocal(a, b, w, tile, x, y, Green);
    }
    if Native(site) != Blue {
      NeighbourhoodLocal(a, b, w, tile, x, y, Blue);
    }
  }

  // ---- the loops ----

  /** The values at four places, None outside the image. */
  function Values(img: seq<row>, at: seq<(int, int)>, c: Colour): (v: seq<Option<byte>>)
    requires |at| == 4
    ensures |v| == 4
  {
    [SampleAt(img, at[0].0, at[0].1, c), SampleAt(img, at[1].0, at[1].1, c),
     SampleAt(img, at[2].0, at[2].1, c), SampleAt(img, at[3].0, at[3].1, c)]
  }

  /** Sum of the first `n` of four terms. */
  function Part(n: nat, a: nat, b: nat, c: nat, d: nat): nat {
    (if n > 0 then a else 0) + (if n > 1 then b else 0) + (if n > 2 then c else 0) + (if n > 3 then d else 0)
  }

  method Gather(image: array<row>, w: nat, at: seq<(int, int)>, c: Colour)
    returns (value: seq<Option<byte>>, counter: nat, sum: nat)
    requires IsImage(image[..], w) && |at| == 4
    ensures value == Values(image[..], at, c) && counter == Count4(value) && sum == Sum4(value)
  {
    hide Channel;
    ghost var v := Values(image[..], at, c);
    value, counter, sum := [], 0, 0;
    var i := 0;
    while i < 4
      invariant 0 <= i <= 4 && value == v[..i]
      invariant counter == Part(i, One(v[0]), One(v[1]), One(v[2]), One(v[3]))
      invariant sum == Part(i, Term(v[0]), Term(v[1]), Term(v[2]), Term(v[3]))
    {
      var (x, y) := at[i];
      if x >= 0 && x < w && y >= 0 && y < image.Length {
        assert image[..][y] == image[y];
        var b := Channel(image[y][x], c);
        value, counter, sum := value + [Some(b)], counter + 1, sum + b;
      } else {
        value := value + [None];
      }
      i := i + 1;
    }
  }

  /** gp_bayer_accrue */
  method AccrueAt(image: array<row>, w: nat, at: seq<(int, int)>, c: Colour) returns (r: byte)
    requires IsImage(image[..], w) && |at| == 4 && Count4(Values(image[..], at, c)) > 0
    ensures r == Accrue(Values(image[..], at, c), c)
  {
    hide Values, Sum4, Part;
    var value, counter, sum := Gather(image, w, at, c);
    AccrueBetween(value, c, 0, 255);
    if c == Green && counter == 4 {
      var hdiff := Square(value[1].value as int - value[0].value as int);
      var vdiff := Square(value[3].value as int - value[2].value as int);
      if hdiff > 2 * vdiff {
        return (value[3].value as int + value[2].value as int) / 2;
      }
      if vdiff > 2 * hdiff {
        return (value[1].value as int + value[0].value as int) / 2;
      }
    }
    var average := sum / counter;
    if counter < 4 {
      return average;
    }
    counter := CountLoop(value, average);
    if counter == 2 || counter == 0 {
      return average;
    }
    sum := SideLoop(value, average, counter == 3);
    r := sum / 3;
  }

  method CountLoop(value: seq<Option<byte>>, average: nat) returns (counter: nat)
    requires |value| == 4
    ensures counter == CountAbove(value, average)
  {
    counter := 0;
    var i := 0;
    while i < 4
      invariant 0 <= i <= 4
      invariant counter == Part(i, Above(value[0], average), Above(value[1], average),
                                Above(value[2], average), Above(value[3], average))
    {
      if value[i].Some? && value[i].value > average {
        counter := counter + 1;
      }
      i := i + 1;
    }
  }

  method SideLoop(value: seq<Option<byte>>, average: nat, above: bool) returns (sum: nat)
    requires |value| == 4
    ensures sum == SumSide(value, average, above)
  {
    sum := 0;
    var i := 0;
    while i < 4
      invariant 0 <= i <= 4
      invariant sum == Part(i, Side(value[0], average, above), Side(value[1], average, above),
                            Side(value[2], average, above), Side(value[3], average, above))
    {
      if above == (value[i].Some? && value[i].value > average) && value[i].Some? {
        sum := sum + value[i].value;
      }
      i := i + 1;
    }
  }

  /** The mean of the one or two neighbours there are. */
  method MeanAt(image: array<row>, w: nat, first: (int, int), second: (int, int), c: Colour) returns (r: byte)
    requires IsImage(image[..], w)
    requires SampleAt(image[..], first.0, first.1, c).Some? || SampleAt(image[..], second.0, second.1, c).Some?
    ensures r == Mean([SampleAt(image[..], first.0, first.1, c), SampleAt(image[..], second.0, second.1, c), None, None])
  {
    var value, div := 0, 0;
    AverageBetween([SampleAt(image[..], first.0, first.1, c), SampleAt(image[..], second.0, second.1, c), None, None], 0, 255);
    if 0 <= first.0 < w && 0 <= first.1 < image.Length {
      assert image[..][first.1] == image[first.1];
      value, div := value + Channel(image[first.1][first.0], c) as int, div + 1;
    }
    if 0 <= second.0 < w && 0 <= second.1 < image.Length {
      assert image[..][second.1] == image[second.1];
      value, div := value + Channel(image[second.1][second.0], c) as int, div + 1;
    }
    r := value / div;
  }

  /** One missing channel of the pixel at (x, y). */
  method MissingAt(image: array<row>, w: nat, site: Site, x: nat, y: nat, c: Colour) returns (b: byte)
    requires Wide(image[..], w) && x < w && y < image.Length
    ensures b == Missing(image[..], w, site, x, y, c)
  {
    hide Accrue, Mean, SampleAt, Count4;
    ghost var img := image[..];
    HasNeighbour(img, w, site, x, y, c);
    if Native(site) != Green {
      if c == Green {
        b := AccrueAt(image, w, [(x - 1, y), (x + 1, y), (x, y - 1), (x, y + 1)], c);
      } else {
        b := AccrueAt(image, w, [(x + 1, y + 1), (x - 1, y - 1), (x - 1, y + 1), (x + 1, y - 1)], c);
      }
    } else if (site == GreenInRedRow && c == Red) || (site == GreenInBlueRow && c == Blue) {
      SomePresent(Beside(img, x, y, c));
      b := MeanAt(image, w, (x + 1, y), (x - 1, y), c);
    } else {
      SomePresent(AboveBelow(img, x, y, c));
      b := MeanAt(image, w, (x, y + 1), (x, y - 1), c);
    }
  }

  /** The pixel at (x, y); no channel of the pixel itself is read, so its two missing channels may be computed first. */
  method PixelAt(image: array<row>, w: nat, tile: Tile, x: nat, y: nat) returns (p: Rgb)
    requires Wide(image[..], w) && x < w && y < image.Length
    ensures p == Interpolated(image[..], w, tile, x, y)
  {
    hide SiteAt, Missing;
    var site := SiteAt(tile, x, y);
    p := image[y][x];
    var first, second;
    match site {
      case RedSite =>
        first := MissingAt(image, w, site, x, y, Green);
        second := MissingAt(image, w, site, x, y, Blue);
        p := Rgb(p.r, first, second);
      case GreenInRedRow =>
        first := MissingAt(image, w, site, x, y, Red);
        second := MissingAt(image, w, site, x, y, Blue);
        p := Rgb(first, p.g, second);
      case GreenInBlueRow =>
        first := MissingAt(image, w, site, x, y, Blue);
        second := MissingAt(image, w, site, x, y, Red);
        p := Rgb(second, p.g, first);
      case BlueSite =>
        first := MissingAt(image, w, site, x, y, Green);
        second := MissingAt(image, w, site, x, y, Red);
        p := Rgb(second, first, p.b);
    }
  }

  lemma SomePresent(v: seq<Option<byte>>)
    requires |v| == 4 && Count4(v) > 0 && v[2].None? && v[3].None?
    ensures v[0].Some? || v[1].Some?
  {
  }

  /** Rows above `y`, and in row `y` the pixels before `x`, are done; the others are as in the raw image. */
  ghost predicate Progress(rows: seq<row>, img: seq<row>, w: nat, tile: Tile, x: nat, y: nat)
    requires Wide(img, w)
  {
    && |rows| == |img| && IsImage(rows, w)
    && forall i, j :: 0 <= i < |img| && 0 <= j < w ==>
         rows[i][j] == if i < y || (i == y && j < x) then Interpolated(img, w, tile, j, i) else img[i][j]
  }

  lemma ProgressSamples(rows: seq<row>, img: seq<row>, w: nat, tile: Tile, x: nat, y: nat)
    requires Wide(img, w) && Progress(rows, img, w, tile, x, y)
    ensures SameMosaic(rows, img, w, tile)
  {
    hide SiteAt, Missing;
    forall j, i | 0 <= j < w && 0 <= i < |rows| ensures SameSample(rows[i][j], img[i][j], SiteAt(tile, j, i)) {
    }
  }

  function Done(img: seq<row>, w: nat, tile: Tile): (out: seq<row>)
    requires Wide(img, w)
    ensures |out| == |img|
  {
    seq(|img|, y requires 0 <= y < |img| => seq(w, x requires 0 <= x < w => Interpolated(img, w, tile, x, y)))
  }

  lemma ProgressDone(rows: seq<row>, img: seq<row>, w: nat, tile: Tile)
    requires Wide(img, w) && Progress(rows, img, w, tile, 0, |img|)
    ensures rows == Done(img, w, tile)
  {
    hide Interpolated;
    forall y | 0 <= y < |img| ensures rows[y] == Done(img, w, tile)[y] {
      assert |rows[y]| == w;
    }
  }

  /** Every sample of the sensor appears unchanged in the result. */
  lemma SamplesSurvive(img: seq<row>, w: nat, tile: Tile, x: nat, y: nat)
    requires Wide(img, w) && x < w && y < |img|
    ensures var c := Native(SiteAt(tile, x, y)); Channel(Done(img, w, tile)[y][x], c) == Channel(img[y][x], c)
  {
    hide SiteAt, Missing;
  }

  /** gp_bayer_interpolate: false where the image is too small. */
  method Interpolate(image: array<row>, w: nat, tile: Tile) returns (ok: bool)
    requires IsImage(image[..], w)
    modifies image
    ensures ok <==> w >= 2 && image.Length >= 2
    ensures ok ==> image[..] == Done(old(image[..]), w, tile)
    ensures !ok ==> image[..] == old(image[..])
  {
    hide Interpolated, SameMosaic;
    ok := w >= 2 && image.Length >= 2;
    if !ok {
      return;
    }
    ghost var img := image[..];
    var y := 0;
    while y < image.Length
      invariant 0 <= y <= image.Length && Progress(image[..], img, w, tile, 0, y)
    {
      var x := 0;
      while x < w
        invariant 0 <= x <= w && Progress(image[..], img, w, tile, x, y)
      {
        var p := PixelAt(image, w, tile, x, y);
        ProgressSamples(image[..], img, w, tile, x, y);
        InterpolatedLocal(image[..], img, w, tile, x, y);
        image[y] := image[y][x := p];
        x := x + 1;
      }
      y := y + 1;
    }
    ProgressDone(image[..], img, w, tile);
  }
}
