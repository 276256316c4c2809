/** gp_ahd_interpolate: the image is overwritten row by row from two windows of six rows that slide over it. */
module AhdWindows {
  import opened Mosaic
  import opened AhdStages
  import opened Options

  // ---- what a stage reads ----

  /** Missing greens of row `y` need the image rows from y - 2 to y + 2 only. */
  lemma GreenPixelLocal(a: seq<row>, b: seq<row>, d: Direction, tile: Tile, w: nat, x: nat, y: nat)
    requires Big(a, w) && Big(b, w) && |a| == |b| && x < w && y < |a|
    requires forall i :: y - 2 <= i <= y + 2 && 0 <= i < |a| ==> a[i] == b[i]
    ensures GreenPixel(a, d, tile, w, x, y) == GreenPixel(b, d, tile, w, x, y)
  {
    hide GreenEstimate, SiteAt;
    assert a[y] == b[y];
  }

  /** Reds and blues are read only where the sensor sampled them, so a finished row serves as well as one
      with only its greens filled in. */
  predicate SameSamples(a: row, b: row, tile: Tile, y: nat) {
    |a| == |b| && forall x :: 0 <= x < |a| ==> SameSample(a[x], b[x], SiteAt(tile, x, y))
  }

  predicate SameSample(p: Rgb, q: Rgb, site: Site) {
    p.g == q.g && Channel(p, Native(site)) == Channel(q, Native(site))
  }

  predicate SameNeighbour(a: Option<row>, b: Option<row>, tile: Tile, y: int) {
    match a
    case None => b.None?
    case Some(r) => b.Some? && y >= 0 && SameSamples(r, b.value, tile, y)
  }

  lemma DifferenceLocal(a: Option<row>, b: Option<row>, x: int, y: int, tile: Tile, c: Colour)
    requires SameNeighbour(a, b, tile, y)
    requires a.Some? && 0 <= x < |a.value| ==> Native(SiteAt(tile, x, y)) == c
    ensures Difference(a, x, c) == Difference(b, x, c)
  {
    hide SiteAt;
    if a.Some? && 0 <= x < |a.value| {
      assert SameSample(a.value[x], b.value[x], SiteAt(tile, x, y));
    }
  }

  lemma RbValueLocal(up: Option<row>, mid: row, down: Option<row>, up': Option<row>, mid': row, down': Option<row>,
                     x: nat, y: nat, tile: Tile, c: Colour)
    requires Surrounded(up, mid, down) && Surrounded(up', mid', down') && x < |mid|
    requires SameNeighbour(up, up', tile, y - 1) && SameNeighbour(down, down', tile, y + 1) && SameSamples(mid, mid', tile, y)
    requires c != Green && Native(SiteAt(tile, x, y)) != c
    ensures RbValue(up, mid, down, x, SiteAt(tile, x, y), c) == RbValue(up', mid', down', x, SiteAt(tile, x, y), c)
  {
    hide SiteAt, SameNeighbour, Difference;
    Neighbours(tile, x, y);
    Neighbours(tile, x + 1, y);
    if x > 0 {
      Neighbours(tile, x - 1, y);
    }
    MidLocal(mid, mid', tile, x, y);
    match SiteAt(tile, x, y)
    case RedSite => DiagonalsLocal(up, down, up', down', x, y, tile, c);
    case BlueSite => DiagonalsLocal(up, down, up', down', x, y, tile, c);
    case _ => CrossLocal(up, mid, down, up', mid', down', x, y, tile, c);
  }

  lemma MidLocal(mid: row, mid': row, tile: Tile, x: nat, y: nat)
    requires SameSamples(mid, mid', tile, y) && x < |mid|
    ensures mid[x].g == mid'[x].g
  {
    assert SameSample(mid[x], mid'[x], SiteAt(tile, x, y));
  }

  lemma DiagonalsLocal(up: Option<row>, down: Option<row>, up': Option<row>, down': Option<row>,
                       x: nat, y: nat, tile: Tile, c: Colour)
    requires SameNeighbour(up, up', tile, y - 1) && SameNeighbour(down, down', tile, y + 1)
    requires c != Green && Native(SiteAt(tile, x, y)) != c && Native(SiteAt(tile, x, y)) != Green
    ensures Difference(up, x - 1, c) == Difference(up', x - 1, c) && Difference(up, x + 1, c) == Difference(up', x + 1, c)
    ensures Difference(down, x - 1, c) == Difference(down', x - 1, c)
    ensures Difference(down, x + 1, c) == Difference(down', x + 1, c)
  {
    hide SiteAt;
    Neighbours(tile, x + 1, y);
    if x > 0 {
      Neighbours(tile, x - 1, y);
    }
    Neighbours(tile, x, y);
    DifferenceLocal(up, up', x - 1, y - 1, tile, c);
    DifferenceLocal(up, up', x + 1, y - 1, tile, c);
    DifferenceLocal(down, down', x - 1, y + 1, tile, c);
    DifferenceLocal(down, down', x + 1, y + 1, tile, c);
  }

  lemma CrossLocal(up: Option<row>, mid: row, down: Option<row>, up': Option<row>, mid': row, down': Option<row>,
                   x: nat, y: nat, tile: Tile, c: Colour)
    requires SameNeighbour(up, up', tile, y - 1) && SameNeighbour(down, down', tile, y + 1) && SameSamples(mid, mid', tile, y)
    requires c != Green && Native(SiteAt(tile, x, y)) == Green
    ensures Differences(up, mid, down, x, SiteAt(tile, x, y), c) == Differences(up', mid', down', x, SiteAt(tile, x, y), c)
  {
    hide SiteAt, Difference;
    Neighbours(tile, x, y);
    var site := SiteAt(tile, x, y);
    if (site == GreenInRedRow) == (c == Red) {
      DifferenceLocal(Some(mid), Some(mid'), x - 1, y, tile, c);
      DifferenceLocal(Some(mid), Some(mid'), x + 1, y, tile, c);
    } else {
      DifferenceLocal(up, up', x, y - 1, tile, c);
      DifferenceLocal(down, down', x, y + 1, tile, c);
    }
  }

  lemma RbPixelLocal(up: Option<row>, mid: row, down: Option<row>, up': Option<row>, mid': row, down': Option<row>,
                     x: nat, y: nat, tile: Tile)
    requires Surrounded(up, mid, down) && Surrounded(up', mid', down') && x < |mid|
    requires SameNeighbour(up, up', tile, y - 1) && SameNeighbour(down, down', tile, y + 1) && SameSamples(mid, mid', tile, y)
    requires mid[x] == mid'[x]
    ensures RbPixel(up, mid, down, x, SiteAt(tile, x, y)) == RbPixel(up', mid', down', x, SiteAt(tile, x, y))
  {
    hide SiteAt, SameNeighbour, SameSamples, RbValue, Surrounded;
    var site := SiteAt(tile, x, y);
    if Native(site) != Red {
      RbValueLocal(up, mid, down, up', mid', down', x, y, tile, Red);
    }
    if Native(site) != Blue {
      RbValueLocal(up, mid, down, up', mid', down', x, y, tile, Blue);
    }
  }

  // ---- the stages on a window ----

  /** Rows of the image from `lo` up to but excluding `hi` are still the raw ones. */
  ghost predicate RawFrom(rows: seq<row>, img: seq<row>, lo: int) {
    |rows| == |img| && forall i :: lo <= i < |img| && 0 <= i ==> rows[i] == img[i]
  }

  /** do_green_ctr_row for one of the two windows; row `r` of the window holds image row `y`. */
  method DoGreenRow(image: array<row>, win: array<row>, r: nat, d: Direction, tile: Tile, w: nat, y: nat, ghost img: seq<row>)
    requires image != win && win.Length == 6 && r < 6 && Big(img, w) && Big(image[..], w) && y < |img|
    requires RawFrom(image[..], img, y - 2) && win[r] == img[y]
    modifies win
    ensures win[r] == GreenRow(img, d, tile, w, y)
    ensures forall k :: 0 <= k < 6 && k != r ==> win[k] == old(win[k])
  {
    hide GreenPixel;
    var x := 0;
    while x < w
      invariant 0 <= x <= w && |win[r]| == w
      invariant forall k :: 0 <= k < x ==> win[r][k] == GreenPixel(img, d, tile, w, k, y)
      invariant forall k :: x <= k < w ==> win[r][k] == img[y][k]
      invariant forall k :: 0 <= k < 6 && k != r ==> win[k] == old(win[k])
    {
      GreenPixelLocal(image[..], img, d, tile, w, x, y);
      win[r] := win[r][x := GreenPixel(image[..], d, tile, w, x, y)];
      x := x + 1;
    }
  }

  ghost predicate RowDone(cur: row, mid: row, up: Option<row>, down: Option<row>, tile: Tile, y: nat, x: nat)
    requires Surrounded(up, mid, down)
  {
    && |cur| == |mid| && x <= |mid|
    && (forall k :: 0 <= k < x ==> cur[k] == RbPixel(up, mid, down, k, SiteAt(tile, k, y)))
    && (forall k :: x <= k < |mid| ==> cur[k] == mid[k])
  }

  lemma RowDoneSamples(cur: row, mid: row, up: Option<row>, down: Option<row>, tile: Tile, y: nat, x: nat)
    requires Surrounded(up, mid, down) && RowDone(cur, mid, up, down, tile, y, x)
    ensures SameSamples(cur, mid, tile, y)
  {
    hide SiteAt, RbValue, Surrounded;
    forall k | 0 <= k < |cur| ensures SameSample(cur[k], mid[k], SiteAt(tile, k, y)) {
    }
  }

  lemma SameAsItself(r: Option<row>, tile: Tile, y: int)
    requires r.Some? ==> y >= 0
    ensures SameNeighbour(r, r, tile, y)
  {
  }

  /** do_rb_ctr_row for one of the two windows: row `r` holds image row `y` with its greens filled in, and the rows
      beside it the rows beside it. Filling pixels in on the spot does not disturb the pixels still to come. */
  method DoRbRow(win: array<row>, r: nat, tile: Tile, w: nat, h: nat, y: nat)
    requires win.Length == 6 && 1 <= r <= 4 && y < h && h >= 2 && w >= 2
    requires |win[r - 1]| == |win[r]| == |win[r + 1]| == w
    modifies win
    ensures win[r] == RbRow(if y > 0 then Some(old(win[r - 1])) else None, old(win[r]),
                            if y < h - 1 then Some(old(win[r + 1])) else None, tile, y)
    ensures forall k :: 0 <= k < 6 && k != r ==> win[k] == old(win[k])
  {
    hide RbPixel, SiteAt, SameNeighbour, SameSamples;
    ghost var mid := win[r];
    ghost var above, below := if y > 0 then Some(win[r - 1]) else None, if y < h - 1 then Some(win[r + 1]) else None;
    var x := 0;
    while x < w
      invariant 0 <= x <= w && RowDone(win[r], mid, above, below, tile, y, x)
      invariant forall k :: 0 <= k < 6 && k != r ==> win[k] == old(win[k])
    {
      var up, down := if y > 0 then Some(win[r - 1]) else None, if y < h - 1 then Some(win[r + 1]) else None;
      RowDoneSamples(win[r], mid, up, down, tile, y, x);
      SameAsItself(up, tile, y - 1);
      SameAsItself(down, tile, y + 1);
      RbPixelLocal(up, win[r], down, up, mid, down, x, y, tile);
      win[r] := win[r][x := RbPixel(up, win[r], down, x, SiteAt(tile, x, y))];
      x := x + 1;
    }
  }

  /** A finished row above gives the same result as the row with only its greens. */
  lemma FinishedAbove(img: seq<row>, d: Direction, tile: Tile, w: nat, y: nat)
    requires Big(img, w) && y < |img|
    ensures var up := if y > 0 then Some(FullRow(img, d, tile, w, y - 1)) else None;
      RbRow(up, GreenRow(img, d, tile, w, y), GreenRowAt(img, d, tile, w, y + 1), tile, y) == FullRow(img, d, tile, w, y)
  {
    hide SiteAt, RbPixel, SameNeighbour, GreenRow;
    var up := if y > 0 then Some(FullRow(img, d, tile, w, y - 1)) else None;
    var mid, down := GreenRow(img, d, tile, w, y), GreenRowAt(img, d, tile, w, y + 1);
    var green := GreenRowAt(img, d, tile, w, y - 1);
    FinishedSamples(img, d, tile, w, y);
    SameAsItself(down, tile, y + 1);
    forall x | 0 <= x < w
      ensures RbPixel(up, mid, down, x, SiteAt(tile, x, y)) == RbPixel(green, mid, down, x, SiteAt(tile, x, y))
    {
      RbPixelLocal(up, mid, down, green, mid, down, x, y, tile);
    }
  }

  lemma FinishedSamples(img: seq<row>, d: Direction, tile: Tile, w: nat, y: nat)
    requires Big(img, w) && y < |img|
    ensures SameNeighbour(if y > 0 then Some(FullRow(img, d, tile, w, y - 1)) else None,
                          GreenRowAt(img, d, tile, w, y - 1), tile, y - 1)
  {
    hide SiteAt, RbValue, GreenRow;
    if y > 0 {
      var a, b := FullRow(img, d, tile, w, y - 1), GreenRow(img, d, tile, w, y - 1);
      forall x | 0 <= x < w ensures SameSample(a[x], b[x], SiteAt(tile, x, y - 1)) {
      }
    }
  }

  /** get_diffs_row2: scores of the pixels in row 3 of the windows, into the last row of the score buffers. */
  method GetDiffs(homoH: array<nat>, homoV: array<nat>, winH: array<row>, winV: array<row>, w: nat)
    requires homoH != homoV && homoH.Length == homoV.Length == 3 * w && winH.Length == winV.Length == 6
    requires Rows3(winH[2], winH[3], winH[4], w) && Rows3(winV[2], winV[3], winV[4], w)
    modifies homoH, homoV
    ensures forall j :: 0 <= j < 3 * w ==>
      var inside := 1 <= j - 2 * w < w - 1;
      && homoH[j] == (if inside then ScoreIn(winH, winH, winV, w, j - 2 * w) else old(homoH[j]))
      && homoV[j] == (if inside then ScoreIn(winV, winH, winV, w, j - 2 * w) else old(homoV[j]))
  {
    hide Score, Radius;
    var j := 1;
    while j < w - 1
      invariant w >= 2 ==> 1 <= j <= w - 1
      invariant forall k :: 0 <= k < 3 * w ==>
        var done := 1 <= k - 2 * w < j && k - 2 * w < w - 1;
        && homoH[k] == (if done then ScoreIn(winH, winH, winV, w, k - 2 * w) else old(homoH[k]))
        && homoV[k] == (if done then ScoreIn(winV, winH, winV, w, k - 2 * w) else old(homoV[k]))
    {
      var radius := Radius(winH[3], winV[2], winV[3], winV[4], j);
      homoH[j + 2 * w] := Score(winH[2], winH[3], winH[4], j, radius);
      homoV[j + 2 * w] := Score(winV[2], winV[3], winV[4], j, radius);
      j := j + 1;
    }
  }

  function ScoreIn(win: array<row>, winH: array<row>, winV: array<row>, w: nat, j: int): nat
    requires win.Length == winH.Length == winV.Length == 6 && 1 <= j < w - 1
    requires Rows3(win[2], win[3], win[4], w) && Rows3(winH[2], winH[3], winH[4], w) && Rows3(winV[2], winV[3], winV[4], w)
    reads win, winH, winV
  {
    Score(win[2], win[3], win[4], j, Radius(winH[3], winV[2], winV[3], winV[4], j))
  }

  // ---- summing scores in the flat buffers ----

  function Flat(s: seq<nat>, j: int): nat {
    if 0 <= j < |s| then s[j] else 0
  }

  /** The score buffer holds three rows whose border columns are zero. */
  ghost predicate HoldsRows(s: seq<nat>, a: seq<nat>, b: seq<nat>, c: seq<nat>, w: nat) {
    && |a| == |b| == |c| == w && w >= 2 && s == a + b + c
    && a[0] == b[0] == c[0] == 0 && a[w - 1] == b[w - 1] == c[w - 1] == 0
  }

  function ColumnSum(s: seq<nat>, w: nat, col: int): nat {
    Flat(s, col) + Flat(s, col + w) + Flat(s, col + 2 * w)
  }

  /** The index that runs over the end of a row lands on a border column and adds nothing. */
  lemma ColumnSumIs(s: seq<nat>, a: seq<nat>, b: seq<nat>, c: seq<nat>, w: nat, col: int)
    requires HoldsRows(s, a, b, c, w) && -1 <= col <= w
    ensures ColumnSum(s, w, col) == if 0 <= col < w then a[col] + b[col] + c[col] else 0
  {
  }

  /** The nested loops over the nine neighbours of pixel `x`. */
  method SumAround(homo: array<nat>, w: nat, x: nat, ghost a: seq<nat>, ghost b: seq<nat>, ghost c: seq<nat>) returns (sum: nat)
    requires x < w && homo.Length == 3 * w && HoldsRows(homo[..], a, b, c, w)
    ensures sum == Beside(a, x) + Beside(b, x) + Beside(c, x)
  {
    hide ColumnSum, HoldsRows;
    sum := 0;
    ghost var s := homo[..];
    var i := -1;
    while i < 2
      invariant -1 <= i <= 2
      invariant sum == (if i > -1 then ColumnSum(s, w, x - 1) else 0) + (if i > 0 then ColumnSum(s, w, x) else 0)
                       + (if i > 1 then ColumnSum(s, w, x + 1) else 0)
    {
      var column := SumColumn(homo, w, i + x);
      sum := sum + column;
      i := i + 1;
    }
    ColumnSumIs(s, a, b, c, w, x - 1);
    ColumnSumIs(s, a, b, c, w, x);
    ColumnSumIs(s, a, b, c, w, x + 1);
    HeldLengths(s, a, b, c, w);
  }

  lemma HeldLengths(s: seq<nat>, a: seq<nat>, b: seq<nat>, c: seq<nat>, w: nat)
    requires HoldsRows(s, a, b, c, w)
    ensures |a| == |b| == |c| == w
  {
  }

  method SumColumn(homo: array<nat>, w: nat, col: int) returns (sum: nat)
    requires homo.Length == 3 * w && -1 <= col <= w
    ensures sum == ColumnSum(homo[..], w, col)
  {
    sum := 0;
    var k, j := 0, col;
    while k < 3
      invariant 0 <= k <= 3 && j == (if k == 0 then col else if k == 1 then col + w else if k == 2 then col + 2 * w else col + 3 * w)
      invariant sum == (if k > 0 then Flat(homo[..], col) else 0) + (if k > 1 then Flat(homo[..], col + w) else 0)
                       + (if k > 2 then Flat(homo[..], col + 2 * w) else 0)
    {
      if j >= 0 && j < w * 3 {
        sum := sum + homo[j];
      }
      k, j := k + 1, j + w;
    }
  }

  // ---- moving the windows ----

  method MoveWindow(win: array<row>)
    requires win.Length == 6
    modifies win
    ensures forall k :: 0 <= k < 5 ==> win[k] == old(win[k + 1])
    ensures win[5] == old(win[5])
  {
    win[0], win[1], win[2], win[3], win[4] := win[1], win[2], win[3], win[4], win[5];
  }

  method MoveScores(homo: array<nat>, w: nat, ghost a: seq<nat>, ghost b: seq<nat>, ghost c: seq<nat>)
    requires homo.Length == 3 * w && HoldsRows(homo[..], a, b, c, w)
    modifies homo
    ensures HoldsRows(homo[..], b, c, c, w) && homo[2 * w..] == c
  {
    forall j | 0 <= j < 2 * w {
      homo[j] := homo[j + w];
    }
    assert homo[..] == b + c + c;
  }

  /** Fresh scores replace the last row. */
  lemma ScoresStored(before: seq<nat>, after: seq<nat>, a: seq<nat>, b: seq<nat>, c: seq<nat>, d: seq<nat>, w: nat)
    requires HoldsRows(before, a, b, c, w) && |after| == 3 * w && |d| == w && d[0] == 0 && d[w - 1] == 0
    requires forall j :: 0 <= j < 3 * w ==> after[j] == if 1 <= j - 2 * w < w - 1 then d[j - 2 * w] else before[j]
    ensures HoldsRows(after, a, b, d, w)
  {
    forall j | 0 <= j < 3 * w ensures after[j] == (a + b + d)[j] {
    }
  }

  // ---- the whole algorithm ----

  function GreenOrBlack(img: seq<row>, d: Direction, tile: Tile, w: nat, i: nat): (r: row)
    requires Big(img, w)
    ensures |r| == w
  {
    if i < |img| then GreenRow(img, d, tile, w, i) else BlackRow(w)
  }

  /** Row r of the window holds row y - 2 + r of the copy; row 4 has only its greens, rows 0, 1 and 5 do not matter. */
  ghost predicate Slid(win: array<row>, img: seq<row>, d: Direction, tile: Tile, w: nat, y: nat)
    requires Big(img, w)
    reads win
  {
    && win.Length == 6
    && win[2] == Padded(img, d, tile, w, y) && win[3] == Padded(img, d, tile, w, y + 1)
    && win[4] == GreenOrBlack(img, d, tile, w, y + 2)
  }

  /** After the next row has come in, rows 2 to 4 are finished. */
  ghost predicate Finished(win: array<row>, img: seq<row>, d: Direction, tile: Tile, w: nat, y: nat)
    requires Big(img, w)
    reads win
  {
    && win.Length == 6
    && win[2] == Padded(img, d, tile, w, y) && win[3] == Padded(img, d, tile, w, y + 1)
    && win[4] == Padded(img, d, tile, w, y + 2) && win[5] == GreenOrBlack(img, d, tile, w, y + 3)
  }

  /** Filling the window before the main loop. */
  method StartWindow(image: array<row>, win: array<row>, d: Direction, tile: Tile, w: nat, ghost img: seq<row>)
    requires image != win && win.Length == 6 && Big(img, w) && image[..] == img
    requires forall k :: 0 <= k < 6 ==> |win[k]| == w
    modifies win
    ensures Slid(win, img, d, tile, w, 0)
  {
    hide GreenRow, RbRow, BlackRow;
    win[4], win[5] := image[0], image[1];
    DoGreenRow(image, win, 4, d, tile, w, 0, img);
    DoGreenRow(image, win, 5, d, tile, w, 1, img);
    DoRbRow(win, 4, tile, w, image.Length, 0);
    FinishedAbove(img, d, tile, w, 0);
    MoveWindow(win);
    win[5] := image[2];
    DoGreenRow(image, win, 5, d, tile, w, 2, img);
    DoRbRow(win, 4, tile, w, image.Length, 1);
    FinishedAbove(img, d, tile, w, 1);
    MoveWindow(win);
  }

  /** Row y + 3 comes in and row y + 2 is finished. */
  method NextRow(image: array<row>, win: array<row>, d: Direction, tile: Tile, w: nat, y: nat, ghost img: seq<row>)
    requires image != win && Big(img, w) && Big(image[..], w) && RawFrom(image[..], img, y) && y < |img|
    requires Slid(win, img, d, tile, w, y)
    modifies win
    ensures Finished(win, img, d, tile, w, y)
  {
    hide GreenRow, RbRow, BlackRow;
    var h := image.Length;
    if y < h - 3 {
      win[5] := image[y + 3];
      DoGreenRow(image, win, 5, d, tile, w, y + 3, img);
    } else {
      win[5] := BlackRow(w);
    }
    if y < h - 2 {
      DoRbRow(win, 4, tile, w, h, y + 2);
      FinishedAbove(img, d, tile, w, y + 2);
    }
  }

  lemma ScoreRowBorders(img: seq<row>, d: Direction, tile: Tile, w: nat, i: int)
    requires Big(img, w)
    ensures ScoreRow(img, d, tile, w, i)[0] == 0 && ScoreRow(img, d, tile, w, i)[w - 1] == 0
    ensures i < 1 ==> forall x :: 0 <= x < w ==> ScoreRow(img, d, tile, w, i)[x] == 0
  {
    hide Padded, Radius, Score;
  }

  /** The score buffer before row `y`: scores of rows y - 1 and y, and a last row that is about to be replaced. */
  ghost predicate ScoresBefore(s: seq<nat>, img: seq<row>, d: Direction, tile: Tile, w: nat, y: nat)
    requires Big(img, w)
  {
    |s| == 3 * w && HoldsRows(s, ScoreRow(img, d, tile, w, y - 1), ScoreRow(img, d, tile, w, y), s[2 * w..], w)
  }

  /** The score buffer while row `y` is chosen. */
  ghost predicate ScoresAround(s: seq<nat>, img: seq<row>, d: Direction, tile: Tile, w: nat, y: nat)
    requires Big(img, w)
  {
    HoldsRows(s, ScoreRow(img, d, tile, w, y - 1), ScoreRow(img, d, tile, w, y), ScoreRow(img, d, tile, w, y + 1), w)
  }

  lemma ScoresAtStart(s: seq<nat>, img: seq<row>, d: Direction, tile: Tile, w: nat)
    requires Big(img, w) && |s| == 3 * w && forall j :: 0 <= j < 3 * w ==> s[j] == 0
    ensures ScoresBefore(s, img, d, tile, w, 0)
  {
    hide ScoreRow;
    var a, b := ScoreRow(img, d, tile, w, -1), ScoreRow(img, d, tile, w, 0);
    ScoreRowBorders(img, d, tile, w, -1);
    ScoreRowBorders(img, d, tile, w, 0);
    assert HoldsRows(s, a, b, s[2 * w..], w);
  }

  /** get_diffs_row2 on finished windows gives the scores of row y + 1. */
  method ScoreNext(homoH: array<nat>, homoV: array<nat>, winH: array<row>, winV: array<row>, tile: Tile, w: nat, y: nat,
                   ghost img: seq<row>)
    requires Big(img, w) && y < |img| && homoH != homoV && homoH.Length == homoV.Length == 3 * w
    requires Finished(winH, img, Horizontal, tile, w, y) && Finished(winV, img, Vertical, tile, w, y)
    requires ScoresBefore(homoH[..], img, Horizontal, tile, w, y) && ScoresBefore(homoV[..], img, Vertical, tile, w, y)
    modifies homoH, homoV
    ensures ScoresAround(homoH[..], img, Horizontal, tile, w, y) && ScoresAround(homoV[..], img, Vertical, tile, w, y)
  {
    hide Padded, Radius, Score, HoldsRows, GreenOrBlack;
    ghost var ch, cv := homoH[2 * w..], homoV[2 * w..];
    ghost var beforeH, beforeV := homoH[..], homoV[..];
    GetDiffs(homoH, homoV, winH, winV, w);
    ScoreRowBorders(img, Horizontal, tile, w, y + 1);
    ScoreRowBorders(img, Vertical, tile, w, y + 1);
    ScoresStored(beforeH, homoH[..], ScoreRow(img, Horizontal, tile, w, y - 1), ScoreRow(img, Horizontal, tile, w, y), ch,
                 ScoreRow(img, Horizontal, tile, w, y + 1), w);
    ScoresStored(beforeV, homoV[..], ScoreRow(img, Vertical, tile, w, y - 1), ScoreRow(img, Vertical, tile, w, y), cv,
                 ScoreRow(img, Vertical, tile, w, y + 1), w);
  }

  /** The choice algorithm writes row `y` of the image. */
  method WriteRow(image: array<row>, homoH: array<nat>, homoV: array<nat>, h: row, v: row, tile: Tile, w: nat, y: nat,
                  ghost img: seq<row>)
    requires Big(img, w) && y < |img| == image.Length && |image[y]| == w && homoH.Length == homoV.Length == 3 * w
    requires h == FullRow(img, Horizontal, tile, w, y) && v == FullRow(img, Vertical, tile, w, y)
    requires ScoresAround(homoH[..], img, Horizontal, tile, w, y) && ScoresAround(homoV[..], img, Vertical, tile, w, y)
    modifies image
    ensures image[y] == OutRow(img, tile, w, y)
    ensures forall k :: 0 <= k < image.Length && k != y ==> image[k] == old(image[k])
  {
    hide FullRow, ScoreRow, HoldsRows, Choose, Beside;
    var x := 0;
    while x < w
      invariant 0 <= x <= w && |image[y]| == w
      invariant forall k :: 0 <= k < x ==> image[y][k] == OutPixel(img, tile, w, k, y)
      invariant forall k :: 0 <= k < image.Length && k != y ==> image[k] == old(image[k])
    {
      var sumH := SumAround(homoH, w, x, ScoreRow(img, Horizontal, tile, w, y - 1), ScoreRow(img, Horizontal, tile, w, y),
                            ScoreRow(img, Horizontal, tile, w, y + 1));
      var sumV := SumAround(homoV, w, x, ScoreRow(img, Vertical, tile, w, y - 1), ScoreRow(img, Vertical, tile, w, y),
                            ScoreRow(img, Vertical, tile, w, y + 1));
      image[y] := image[y][x := Choose(sumH, sumV, h[x], v[x])];
      x := x + 1;
    }
  }

  /** gp_ahd_interpolate. The result is a function of the raw image: no row is read after it was overwritten. */
  method Interpolate(image: array<row>, w: nat, tile: Tile)
    requires Big(image[..], w)
    modifies image
    ensures image[..] == Demosaiced(old(image[..]), tile, w)
  {
    hide OutRow, Slid, Finished, ScoresBefore, ScoresAround, HoldsRows, BlackRow;
    ghost var img := image[..];
    var winH := new row[6](_ => BlackRow(w));
    var winV := new row[6](_ => BlackRow(w));
    var homoH, homoV := new nat[3 * w](_ => 0), new nat[3 * w](_ => 0);
    StartWindow(image, winH, Horizontal, tile, w, img);
    StartWindow(image, winV, Vertical, tile, w, img);
    ScoresAtStart(homoH[..], img, Horizontal, tile, w);
    ScoresAtStart(homoV[..], img, Vertical, tile, w);
    var y := 0;
    while y < image.Length
      invariant 0 <= y <= image.Length && |img| == image.Length
      invariant forall k :: 0 <= k < y ==> image[k] == OutRow(img, tile, w, k)
      invariant RawFrom(image[..], img, y)
      invariant Slid(winH, img, Horizontal, tile, w, y) && Slid(winV, img, Vertical, tile, w, y)
      invariant ScoresBefore(homoH[..], img, Horizontal, tile, w, y) && ScoresBefore(homoV[..], img, Vertical, tile, w, y)
    {
      OneRow(image, winH, winV, homoH, homoV, tile, w, y, img);
      y := y + 1;
    }
  }

  /** One round of the main loop. */
  method OneRow(image: array<row>, winH: array<row>, winV: array<row>, homoH: array<nat>, homoV: array<nat>,
                tile: Tile, w: nat, y: nat, ghost img: seq<row>)
    requires image != winH && image != winV && winH != winV && homoH != homoV && homoH.Length == homoV.Length == 3 * w
    requires Big(img, w) && y < |img| && Big(image[..], w) && RawFrom(image[..], img, y)
    requires Slid(winH, img, Horizontal, tile, w, y) && Slid(winV, img, Vertical, tile, w, y)
    requires ScoresBefore(homoH[..], img, Horizontal, tile, w, y) && ScoresBefore(homoV[..], img, Vertical, tile, w, y)
    modifies image, winH, winV, homoH, homoV
    ensures image[y] == OutRow(img, tile, w, y)
    ensures forall k :: 0 <= k < image.Length && k != y ==> image[k] == old(image[k])
    ensures Slid(winH, img, Horizontal, tile, w, y + 1) && Slid(winV, img, Vertical, tile, w, y + 1)
    ensures ScoresBefore(homoH[..], img, Horizontal, tile, w, y + 1) && ScoresBefore(homoV[..], img, Vertical, tile, w, y + 1)
  {
    hide OutRow, ScoreRow, FullRow, HoldsRows, GreenRow, BlackRow;
    NextRow(image, winH, Horizontal, tile, w, y, img);
    NextRow(image, winV, Vertical, tile, w, y, img);
    ScoreNext(homoH, homoV, winH, winV, tile, w, y, img);
    WriteRow(image, homoH, homoV, winH[2], winV[2], tile, w, y, img);
    MoveWindow(winV);
    MoveWindow(winH);
    MoveScores(homoH, w, ScoreRow(img, Horizontal, tile, w, y - 1), ScoreRow(img, Horizontal, tile, w, y),
               ScoreRow(img, Horizontal, tile, w, y + 1));
    MoveScores(homoV, w, ScoreRow(img, Vertical, tile, w, y - 1), ScoreRow(img, Vertical, tile, w, y),
               ScoreRow(img, Vertical, tile, w, y + 1));
  }
}
