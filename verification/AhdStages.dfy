/** Adaptive homogeneity-directed demosaicing on whole images: two full copies, one interpolated along
    rows and one along columns, a score for every pixel of each, and a choice between them. */
module AhdStages {
  import opened Bytes
  import opened Mosaic
  import opened Options

  function Clamp(v: int): byte {
    if v > 0xff then 0xff else if v < 0 then 0 else v
  }

  /** Division as the source's compiler does it, towards zero. */
  function Quotient(a: int, b: int): int
    requires b > 0
  {
    if a >= 0 then a / b else -((-a) / b)
  }

  // ---- missing greens ----

  function Weighted(v: Option<int>, weight: int): int {
    match v
    case None => 0
    case Some(c) => weight * c
  }

  function Count(v: Option<int>, n: int): int {
    match v
    case None => 0
    case Some(_) => n
  }

  /** Green at a red or blue site from the samples along one line: the site's own sample, the greens next to it
      and the samples of its own colour two away, as far as they are inside the image. */
  function GreenEstimate(own: int, after: Option<int>, after2: Option<int>, before: Option<int>, before2: Option<int>): byte
    requires after.Some? || before.Some?
  {
    var value := 2 * own + Weighted(after, 2) - Weighted(after2, 1) + Weighted(before, 2) - Weighted(before2, 1);
    var div := 2 + Count(after, 2) - Count(after2, 1) + Count(before, 2) - Count(before2, 1);
    Clamp(Quotient(value, div))
  }

  function InRow(r: row, x: int, c: Colour): Option<int> {
    if 0 <= x < |r| then Some(Channel(r[x], c) as int) else None
  }

  function InColumn(img: seq<row>, x: int, y: int, c: Colour): Option<int> {
    if 0 <= y < |img| then InRow(img[y], x, c) else None
  }

  /** An image the algorithm is made for: at least two columns and three rows. */
  ghost predicate Big(img: seq<row>, w: nat) {
    IsImage(img, w) && w >= 2 && |img| >= 3
  }

  datatype Direction = Horizontal | Vertical

  /** A pixel with its green filled in. */
  function GreenPixel(img: seq<row>, d: Direction, tile: Tile, w: nat, x: nat, y: nat): Rgb
    requires Big(img, w) && x < w && y < |img|
  {
    var p, site := img[y][x], SiteAt(tile, x, y);
    if Native(site) == Green then p
    else
      var c := Native(site);
      var own := Channel(p, c) as int;
      var g := match d
        case Horizontal => GreenEstimate(own, InRow(img[y], x + 1, Green), InRow(img[y], x + 2, c),
                                         InRow(img[y], x - 1, Green), InRow(img[y], x - 2, c))
        case Vertical => GreenEstimate(own, InColumn(img, x, y + 1, Green), InColumn(img, x, y + 2, c),
                                       InColumn(img, x, y - 1, Green), InColumn(img, x, y - 2, c));
      p.(g := g)
  }

  function GreenRow(img: seq<row>, d: Direction, tile: Tile, w: nat, y: nat): (r: row)
    requires Big(img, w) && y < |img|
    ensures |r| == w
  {
    seq(w, x requires 0 <= x < w => GreenPixel(img, d, tile, w, x, y))
  }

  // ---- missing reds and blues ----

  /** Colour minus green at a neighbour, if it is inside the image. */
  function Difference(r: Option<row>, x: int, c: Colour): Option<int> {
    match r
    case None => None
    case Some(r) => if 0 <= x < |r| then Some(Channel(r[x], c) as int - r[x].g as int) else None
  }

  /** The neighbours that give colour `c` to a site: diagonal, above and below, or left and right. */
  function Differences(up: Option<row>, mid: row, down: Option<row>, x: nat, site: Site, c: Colour): (ds: seq<Option<int>>)
    ensures |ds| == 4
  {
    match site
    case RedSite => [Difference(up, x - 1, c), Difference(down, x - 1, c), Difference(up, x + 1, c), Difference(down, x + 1, c)]
    case BlueSite => [Difference(up, x - 1, c), Difference(down, x - 1, c), Difference(up, x + 1, c), Difference(down, x + 1, c)]
    case GreenInRedRow =>
      if c == Red then [Difference(Some(mid), x - 1, c), Difference(Some(mid), x + 1, c), None, None]
      else [Difference(up, x, c), Difference(down, x, c), None, None]
    case GreenInBlueRow =>
      if c == Blue then [Difference(Some(mid), x - 1, c), Difference(Some(mid), x + 1, c), None, None]
      else [Difference(up, x, c), Difference(down, x, c), None, None]
  }

  function Total(ds: seq<Option<int>>): int
    requires |ds| == 4
  {
    Weighted(ds[0], 1) + Weighted(ds[1], 1) + Weighted(ds[2], 1) + Weighted(ds[3], 1)
  }

  function Present(ds: seq<Option<int>>): (n: nat)
    requires |ds| == 4
  {
    Count(ds[0], 1) + Count(ds[1], 1) + Count(ds[2], 1) + Count(ds[3], 1)
  }

  predicate Surrounded(up: Option<row>, mid: row, down: Option<row>) {
    && |mid| >= 2 && (up.Some? || down.Some?)
    && (up.Some? ==> |up.value| == |mid|) && (down.Some? ==> |down.value| == |mid|)
  }

  function RbValue(up: Option<row>, mid: row, down: Option<row>, x: nat, site: Site, c: Colour): byte
    requires Surrounded(up, mid, down) && x < |mid|
  {
    var ds := Differences(up, mid, down, x, site, c);
    Clamp(mid[x].g as int + Quotient(Total(ds), Present(ds)))
  }

  function RbPixel(up: Option<row>, mid: row, down: Option<row>, x: nat, site: Site): Rgb
    requires Surrounded(up, mid, down) && x < |mid|
  {
    var p := mid[x];
    Rgb(if Native(site) == Red then p.r else RbValue(up, mid, down, x, site, Red), p.g,
        if Native(site) == Blue then p.b else RbValue(up, mid, down, x, site, Blue))
  }

  function RbRow(up: Option<row>, mid: row, down: Option<row>, tile: Tile, y: nat): (r: row)
    requires Surrounded(up, mid, down)
    ensures |r| == |mid|
  {
    seq(|mid|, x requires 0 <= x < |mid| => RbPixel(up, mid, down, x, SiteAt(tile, x, y)))
  }

  function GreenRowAt(img: seq<row>, d: Direction, tile: Tile, w: nat, i: int): (r: Option<row>)
    requires Big(img, w)
    ensures r.Some? <==> 0 <= i < |img|
    ensures r.Some? ==> |r.value| == w
  {
    if 0 <= i < |img| then Some(GreenRow(img, d, tile, w, i)) else None
  }

  /** A row of the copy interpolated in direction `d`. */
  function FullRow(img: seq<row>, d: Direction, tile: Tile, w: nat, y: nat): (r: row)
    requires Big(img, w) && y < |img|
    ensures |r| == w
  {
    RbRow(GreenRowAt(img, d, tile, w, y - 1), GreenRow(img, d, tile, w, y), GreenRowAt(img, d, tile, w, y + 1), tile, y)
  }

  function BlackRow(w: nat): (r: row)
    ensures |r| == w
  {
    seq(w, _ => BLACK)
  }

  /** The copy continues in black above and below the image. */
  function Padded(img: seq<row>, d: Direction, tile: Tile, w: nat, i: int): (r: row)
    requires Big(img, w)
    ensures |r| == w
  {
    if 0 <= i < |img| then FullRow(img, d, tile, w, i) else BlackRow(w)
  }

  // ---- scores and choice ----

  function Square(d: int): nat {
    d * d
  }

  /** Squared distance of two colours. */
  function Distance(p: Rgb, q: Rgb): nat {
    Square(p.r as int - q.r as int) + Square(p.g as int - q.g as int) + Square(p.b as int - q.b as int)
  }

  function Max(a: nat, b: nat): nat {
    if a < b then b else a
  }

  function Min(a: nat, b: nat): nat {
    if a > b then b else a
  }

  predicate Rows3(a: row, b: row, c: row, w: nat) {
    |a| == |b| == |c| == w
  }

  /** The radius within which a neighbour counts as homogeneous. */
  function Radius(h: row, vUp: row, v: row, vDown: row, x: nat): nat
    requires Rows3(vUp, v, vDown, |h|) && 1 <= x < |h| - 1
  {
    Min(Max(Distance(h[x], h[x - 1]), Distance(h[x], h[x + 1])), Max(Distance(v[x], vUp[x]), Distance(v[x], vDown[x])))
  }

  function Within(p: Rgb, q: Rgb, radius: nat): nat {
    if Distance(p, q) <= radius then 1 else 0
  }

  function Score(up: row, mid: row, down: row, x: nat, radius: nat): (s: nat)
    requires Rows3(up, mid, down, |mid|) && 1 <= x < |mid| - 1
    ensures s <= 4
  {
    Within(mid[x], mid[x - 1], radius) + Within(mid[x], mid[x + 1], radius) +
    Within(mid[x], up[x], radius) + Within(mid[x], down[x], radius)
  }

  /** Scores of row `i` of the copy for direction `d`; row 0, the rows outside and the border columns have none. */
  function ScoreRow(img: seq<row>, d: Direction, tile: Tile, w: nat, i: int): (s: seq<nat>)
    requires Big(img, w)
    ensures |s| == w
  {
    seq(w, x requires 0 <= x < w => ScoreAt(img, d, tile, w, i, x))
  }

  function ScoreAt(img: seq<row>, d: Direction, tile: Tile, w: nat, i: int, x: nat): (s: nat)
    requires Big(img, w) && x < w
    ensures s <= 4
  {
    if 1 <= i <= |img| && 1 <= x < w - 1 then
      var radius := Radius(Padded(img, Horizontal, tile, w, i), Padded(img, Vertical, tile, w, i - 1),
                           Padded(img, Vertical, tile, w, i), Padded(img, Vertical, tile, w, i + 1), x);
      Score(Padded(img, d, tile, w, i - 1), Padded(img, d, tile, w, i), Padded(img, d, tile, w, i + 1), x, radius)
    else 0
  }

  /** Sum over the columns next to and including `x`. */
  function Beside(s: seq<nat>, x: nat): nat
    requires x < |s|
  {
    (if x > 0 then s[x - 1] else 0) + s[x] + if x + 1 < |s| then s[x + 1] else 0
  }

  /** Sum of the scores of a pixel and its eight neighbours. */
  function Homogeneity(img: seq<row>, d: Direction, tile: Tile, w: nat, x: nat, y: nat): nat
    requires Big(img, w) && x < w && y < |img|
  {
    Beside(ScoreRow(img, d, tile, w, y - 1), x) + Beside(ScoreRow(img, d, tile, w, y), x) +
    Beside(ScoreRow(img, d, tile, w, y + 1), x)
  }

  function Choose(sumH: nat, sumV: nat, h: Rgb, v: Rgb): Rgb {
    if sumH > sumV then h
    else if sumH < sumV then v
    else Rgb((v.r as int + h.r as int) / 2, (v.g as int + h.g as int) / 2, (v.b as int + h.b as int) / 2)
  }

  function OutPixel(img: seq<row>, tile: Tile, w: nat, x: nat, y: nat): Rgb
    requires Big(img, w) && x < w && y < |img|
  {
    Choose(Homogeneity(img, Horizontal, tile, w, x, y), Homogeneity(img, Vertical, tile, w, x, y),
           FullRow(img, Horizontal, tile, w, y)[x], FullRow(img, Vertical, tile, w, y)[x])
  }

  /** The demosaiced image, row by row, computed from the raw image alone. */
  function OutRow(img: seq<row>, tile: Tile, w: nat, y: nat): (r: row)
    requires Big(img, w) && y < |img|
    ensures |r| == w
  {
    seq(w, x requires 0 <= x < w => OutPixel(img, tile, w, x, y))
  }

  function Demosaiced(img: seq<row>, tile: Tile, w: nat): (out: seq<row>)
    requires Big(img, w)
    ensures |out| == |img|
  {
    seq(|img|, y requires 0 <= y < |img| => OutRow(img, tile, w, y))
  }

  // ---- sensor samples survive ----

  lemma FullRowKeepsSample(img: seq<row>, d: Direction, tile: Tile, w: nat, x: nat, y: nat)
    requires Big(img, w) && x < w && y < |img|
    ensures var c := Native(SiteAt(tile, x, y)); Channel(FullRow(img, d, tile, w, y)[x], c) == Channel(img[y][x], c)
  {
    hide GreenEstimate, RbValue, InRow, InColumn, SiteAt;
  }

  /** Every sample of the sensor appears unchanged in the result. */
  lemma SamplesSurvive(img: seq<row>, tile: Tile, w: nat, x: nat, y: nat)
    requires Big(img, w) && x < w && y < |img|
    ensures var c := Native(SiteAt(tile, x, y)); Channel(Demosaiced(img, tile, w)[y][x], c) == Channel(img[y][x], c)
  {
    hide FullRow, Homogeneity, SiteAt;
    FullRowKeepsSample(img, Horizontal, tile, w, x, y);
    FullRowKeepsSample(img, Vertical, tile, w, x, y);
  }

  // ---- properties of the arithmetic ----

  /** The sums over nine scores fit the 8 bit buffers of the source. */
  lemma HomogeneityFits(img: seq<row>, d: Direction, tile: Tile, w: nat, x: nat, y: nat)
    requires Big(img, w) && x < w && y < |img|
    ensures Homogeneity(img, d, tile, w, x, y) <= 36
  {
    hide ScoreAt;
  }

  /** Every sample of the sensor is `v`. */
  ghost predicate FlatField(img: seq<row>, tile: Tile, v: byte) {
    forall x, y :: 0 <= y < |img| && 0 <= x < |img[y]| ==> SampleIs(img, tile, x, y, v)
  }

  predicate SampleIs(img: seq<row>, tile: Tile, x: nat, y: nat, v: byte)
    requires y < |img| && x < |img[y]|
  {
    Channel(img[y][x], Native(SiteAt(tile, x, y))) == v
  }

  predicate IsOr(o: Option<int>, v: int) {
    o.None? || o == Some(v)
  }

  lemma FlatEstimate(v: byte, after: Option<int>, after2: Option<int>, before: Option<int>, before2: Option<int>)
    requires after.Some? || before.Some?
    requires IsOr(after, v) && IsOr(after2, v) && IsOr(before, v) && IsOr(before2, v)
    ensures GreenEstimate(v, after, after2, before, before2) == v
  {
    var div := 2 + Count(after, 2) - Count(after2, 1) + Count(before, 2) - Count(before2, 1);
    var value := 2 * v + Weighted(after, 2) - Weighted(after2, 1) + Weighted(before, 2) - Weighted(before2, 1);
    FlatSums(v, after, after2, before, before2, value, div);
    Exact(v, value, div);
  }

  lemma FlatSums(v: nat, after: Option<int>, after2: Option<int>, before: Option<int>, before2: Option<int>, value: int, div: int)
    requires after.Some? || before.Some?
    requires IsOr(after, v) && IsOr(after2, v) && IsOr(before, v) && IsOr(before2, v)
    requires value == 2 * v + Weighted(after, 2) - Weighted(after2, 1) + Weighted(before, 2) - Weighted(before2, 1)
    requires div == 2 + Count(after, 2) - Count(after2, 1) + Count(before, 2) - Count(before2, 1)
    ensures 2 <= div <= 6
    ensures value == if div == 2 then 2 * v else if div == 3 then 3 * v else if div == 4 then 4 * v
                     else if div == 5 then 5 * v else 6 * v
  {
  }

  lemma Exact(v: nat, value: int, div: int)
    requires 2 <= div <= 6
    requires value == if div == 2 then 2 * v else if div == 3 then 3 * v else if div == 4 then 4 * v
                      else if div == 5 then 5 * v else 6 * v
    ensures value / div == v
  {
    if div == 2 {
    } else if div == 3 {
    } else if div == 4 {
    } else if div == 5 {
    } else {
    }
  }

  lemma FlatSample(img: seq<row>, tile: Tile, w: nat, v: byte, x: int, y: int, c: Colour)
    requires IsImage(img, w) && FlatField(img, tile, v)
    requires 0 <= x < w && 0 <= y < |img| ==> Native(SiteAt(tile, x, y)) == c
    ensures IsOr(InColumn(img, x, y, c), v)
    ensures 0 <= y < |img| ==> InColumn(img, x, y, c) == InRow(img[y], x, c)
  {
    hide SiteAt;
    if 0 <= y < |img| && 0 <= x < w {
      assert SampleIs(img, tile, x, y, v);
    }
  }

  lemma FlatGreen(img: seq<row>, d: Direction, tile: Tile, w: nat, x: nat, y: nat, v: byte)
    requires Big(img, w) && x < w && y < |img| && FlatField(img, tile, v)
    ensures GreenPixel(img, d, tile, w, x, y).g == v
    ensures SampleIs(img, tile, x, y, v)
    ensures Channel(GreenPixel(img, d, tile, w, x, y), Native(SiteAt(tile, x, y))) == v
  {
    hide SiteAt, GreenEstimate, InRow, InColumn;
    var c := Native(SiteAt(tile, x, y));
    assert |img[y]| == w && SampleIs(img, tile, x, y, v);
    if c != Green {
      FlatLine(img, d, tile, w, x, y, v);
    }
  }

  /** Along either line, all samples an estimate uses are `v`. */
  lemma FlatLine(img: seq<row>, d: Direction, tile: Tile, w: nat, x: nat, y: nat, v: byte)
    requires Big(img, w) && x < w && y < |img| && FlatField(img, tile, v) && Native(SiteAt(tile, x, y)) != Green
    requires Channel(img[y][x], Native(SiteAt(tile, x, y))) == v
    ensures GreenPixel(img, d, tile, w, x, y).g == v
  {
    hide SiteAt, GreenEstimate, InRow, InColumn, FlatField;
    var c := Native(SiteAt(tile, x, y));
    TwoAway(tile, x, y);
    HasGreenNeighbour(img, w, x, y);
    match d
    case Horizontal =>
      FlatSample(img, tile, w, v, x + 1, y, Green);
      FlatSample(img, tile, w, v, x + 2, y, c);
      FlatSample(img, tile, w, v, x - 1, y, Green);
      FlatSample(img, tile, w, v, x - 2, y, c);
      FlatEstimate(v, InRow(img[y], x + 1, Green), InRow(img[y], x + 2, c), InRow(img[y], x - 1, Green), InRow(img[y], x - 2, c));
    case Vertical =>
      FlatSample(img, tile, w, v, x, y + 1, Green);
      FlatSample(img, tile, w, v, x, y + 2, c);
      FlatSample(img, tile, w, v, x, y - 1, Green);
      FlatSample(img, tile, w, v, x, y - 2, c);
      FlatEstimate(v, InColumn(img, x, y + 1, Green), InColumn(img, x, y + 2, c),
                   InColumn(img, x, y - 1, Green), InColumn(img, x, y - 2, c));
  }

  lemma HasGreenNeighbour(img: seq<row>, w: nat, x: nat, y: nat)
    requires Big(img, w) && x < w && y < |img|
    ensures InRow(img[y], x + 1, Green).Some? || InRow(img[y], x - 1, Green).Some?
    ensures InColumn(img, x, y + 1, Green).Some? || InColumn(img, x, y - 1, Green).Some?
  {
  }

  /** Beside, above and below a red or blue site lie green ones, and two away sites of the same kind. */
  lemma TwoAway(tile: Tile, x: nat, y: nat)
    requires Native(SiteAt(tile, x, y)) != Green
    ensures Native(SiteAt(tile, x + 1, y)) == Green && SiteAt(tile, x + 2, y) == SiteAt(tile, x, y)
    ensures Native(SiteAt(tile, x, y + 1)) == Green && SiteAt(tile, x, y + 2) == SiteAt(tile, x, y)
    ensures x > 0 ==> Native(SiteAt(tile, x - 1, y)) == Green
    ensures y > 0 ==> Native(SiteAt(tile, x, y - 1)) == Green
    ensures x > 1 ==> SiteAt(tile, x - 2, y) == SiteAt(tile, x, y)
    ensures y > 1 ==> SiteAt(tile, x, y - 2) == SiteAt(tile, x, y)
  {
    hide SiteAt;
    Neighbours(tile, x, y);
    Neighbours(tile, x + 1, y);
    Neighbours(tile, x, y + 1);
    if x > 1 {
      Neighbours(tile, x - 1, y);
    }
    if y > 1 {
      Neighbours(tile, x, y - 1);
    }
  }

  /** A row whose greens, and whose samples, are all `v`. */
  ghost predicate FlatRow(r: row, tile: Tile, y: int, v: byte) {
    y >= 0 && forall x :: 0 <= x < |r| ==> r[x].g == v && Channel(r[x], Native(SiteAt(tile, x, y))) == v
  }

  lemma FlatGreenRow(img: seq<row>, d: Direction, tile: Tile, w: nat, y: nat, v: byte)
    requires Big(img, w) && y < |img| && FlatField(img, tile, v)
    ensures FlatRow(GreenRow(img, d, tile, w, y), tile, y, v)
  {
    hide GreenPixel, SiteAt, FlatField;
    forall x | 0 <= x < w
      ensures var p := GreenPixel(img, d, tile, w, x, y); p.g == v && Channel(p, Native(SiteAt(tile, x, y))) == v
    {
      FlatGreen(img, d, tile, w, x, y, v);
    }
  }

  lemma FlatDifference(r: Option<row>, tile: Tile, x: int, y: int, c: Colour, v: byte)
    requires r.Some? ==> FlatRow(r.value, tile, y, v)
    requires r.Some? && 0 <= x < |r.value| ==> Native(SiteAt(tile, x, y)) == c
    ensures IsOr(Difference(r, x, c), 0)
  {
    hide SiteAt;
  }

  lemma FlatRbValue(up: Option<row>, mid: row, down: Option<row>, tile: Tile, x: nat, y: nat, c: Colour, v: byte)
    requires Surrounded(up, mid, down) && x < |mid| && c != Green && Native(SiteAt(tile, x, y)) != c
    requires FlatRow(mid, tile, y, v) && (up.Some? ==> y > 0 && FlatRow(up.value, tile, y - 1, v))
    requires down.Some? ==> FlatRow(down.value, tile, y + 1, v)
    ensures RbValue(up, mid, down, x, SiteAt(tile, x, y), c) == v
  {
    hide SiteAt, Difference, FlatRow;
    Neighbours(tile, x, y);
    Neighbours(tile, x + 1, y);
    if x > 0 {
      Neighbours(tile, x - 1, y);
    }
    FlatMid(mid, tile, x, y, v);
    HasDifference(up, mid, down, x, SiteAt(tile, x, y), c);
    NoDifference(Differences(up, mid, down, x, SiteAt(tile, x, y), c));
    match SiteAt(tile, x, y)
    case RedSite => FlatDiagonals(up, down, tile, x, y, c, v);
    case BlueSite => FlatDiagonals(up, down, tile, x, y, c, v);
    case _ =>
      if (SiteAt(tile, x, y) == GreenInRedRow) == (c == Red) {
        FlatDifference(Some(mid), tile, x - 1, y, c, v);
        FlatDifference(Some(mid), tile, x + 1, y, c, v);
      } else {
        FlatDifference(up, tile, x, y - 1, c, v);
        FlatDifference(down, tile, x, y + 1, c, v);
      }
  }

  lemma NoDifference(ds: seq<Option<int>>)
    requires |ds| == 4 && Present(ds) > 0
    ensures IsOr(ds[0], 0) && IsOr(ds[1], 0) && IsOr(ds[2], 0) && IsOr(ds[3], 0) ==> Quotient(Total(ds), Present(ds)) == 0
  {
    var n := Present(ds);
    assert n == 1 || n == 2 || n == 3 || n == 4;
  }

  lemma HasDifference(up: Option<row>, mid: row, down: Option<row>, x: nat, site: Site, c: Colour)
    requires Surrounded(up, mid, down) && x < |mid|
    ensures Present(Differences(up, mid, down, x, site, c)) > 0
  {
  }

  lemma FlatMid(mid: row, tile: Tile, x: nat, y: nat, v: byte)
    requires FlatRow(mid, tile, y, v) && x < |mid|
    ensures mid[x].g == v && Channel(mid[x], Native(SiteAt(tile, x, y))) == v
  {
    hide SiteAt;
  }

  lemma FlatDiagonals(up: Option<row>, down: Option<row>, tile: Tile, x: nat, y: nat, c: Colour, v: byte)
    requires c != Green && Native(SiteAt(tile, x, y)) != c && Native(SiteAt(tile, x, y)) != Green
    requires (up.Some? ==> y > 0 && FlatRow(up.value, tile, y - 1, v)) && (down.Some? ==> FlatRow(down.value, tile, y + 1, v))
    ensures IsOr(Difference(up, x - 1, c), 0) && IsOr(Difference(down, x - 1, c), 0)
    ensures IsOr(Difference(up, x + 1, c), 0) && IsOr(Difference(down, x + 1, c), 0)
  {
    hide SiteAt, Difference, FlatRow;
    Neighbours(tile, x, y);
    Neighbours(tile, x + 1, y);
    if x > 0 {
      Neighbours(tile, x - 1, y);
    }
    FlatDifference(up, tile, x - 1, y - 1, c, v);
    FlatDifference(down, tile, x - 1, y + 1, c, v);
    FlatDifference(up, tile, x + 1, y - 1, c, v);
    FlatDifference(down, tile, x + 1, y + 1, c, v);
  }

  lemma FlatFullRow(img: seq<row>, d: Direction, tile: Tile, w: nat, x: nat, y: nat, v: byte)
    requires Big(img, w) && x < w && y < |img| && FlatField(img, tile, v)
    ensures FullRow(img, d, tile, w, y)[x] == Rgb(v, v, v)
  {
    hide SiteAt, FlatRow, FlatField, GreenRow, RbValue;
    var up, mid, down := GreenRowAt(img, d, tile, w, y - 1), GreenRow(img, d, tile, w, y), GreenRowAt(img, d, tile, w, y + 1);
    var site := SiteAt(tile, x, y);
    FlatGreenRow(img, d, tile, w, y, v);
    if y > 0 {
      FlatGreenRow(img, d, tile, w, y - 1, v);
    }
    if y + 1 < |img| {
      FlatGreenRow(img, d, tile, w, y + 1, v);
    }
    FlatMid(mid, tile, x, y, v);
    if Native(site) != Red {
      FlatRbValue(up, mid, down, tile, x, y, Red, v);
    }
    if Native(site) != Blue {
      FlatRbValue(up, mid, down, tile, x, y, Blue, v);
    }
  }

  /** An evenly lit sensor gives an even grey: the weights of every stage add up to one, at the borders too. */
  lemma FlatFieldStaysFlat(img: seq<row>, tile: Tile, w: nat, x: nat, y: nat, v: byte)
    requires Big(img, w) && x < w && y < |img| && FlatField(img, tile, v)
    ensures Demosaiced(img, tile, w)[y][x] == Rgb(v, v, v)
  {
    hide FullRow, Homogeneity, FlatField;
    FlatFullRow(img, Horizontal, tile, w, x, y, v);
    FlatFullRow(img, Vertical, tile, w, x, y, v);
  }
}
