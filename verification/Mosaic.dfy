/** Bayer mosaics: pixels, tilings, and which colour the sensor sampled where. */
module Mosaic {
  import opened Bytes

  datatype Colour = Red | Green | Blue

  datatype Rgb = Rgb(r: byte, g: byte, b: byte)

  const BLACK := Rgb(0, 0, 0)

  function Channel(p: Rgb, c: Colour): byte {
    match c
    case Red => p.r
    case Green => p.g
    case Blue => p.b
  }

  function WithChannel(p: Rgb, c: Colour, v: byte): (q: Rgb)
    ensures forall d :: Channel(q, d) == if d == c then v else Channel(p, d)
  {
    match c
    case Red => p.(r := v)
    case Green => p.(g := v)
    case Blue => p.(b := v)
  }

  type row = seq<Rgb>

  /** Rows of one length. */
  ghost predicate IsImage(rows: seq<row>, w: nat) {
    forall y :: 0 <= y < |rows| ==> |rows[y]| == w
  }

  datatype Tile = RGGB | GRBG | BGGR | GBRG | RGGBInterlaced | GRBGInterlaced | BGGRInterlaced | GBRGInterlaced

  /** What a sensor site has beside its own sample: the site kinds 0 to 3 of the demosaicing code. */
  datatype Site = RedSite | GreenInRedRow | GreenInBlueRow | BlueSite

  /** Position code of a pixel within its 2x2 square. */
  function Bayer(x: nat, y: nat): nat {
    (if x % 2 == 1 then 0 else 1) + (if y % 2 == 1 then 0 else 2)
  }

  /** The position code of each site kind. */
  function PosCodes(tile: Tile): (p: seq<nat>)
    ensures |p| == 4
  {
    match tile
    case GRBG => [1, 0, 3, 2]
    case GRBGInterlaced => [1, 0, 3, 2]
    case BGGR => [3, 2, 1, 0]
    case BGGRInterlaced => [3, 2, 1, 0]
    case GBRG => [2, 3, 0, 1]
    case GBRGInterlaced => [2, 3, 0, 1]
    case _ => [0, 1, 2, 3]
  }

  function SiteAt(tile: Tile, x: nat, y: nat): Site {
    var p, bayer := PosCodes(tile), Bayer(x, y);
    if bayer == p[0] then RedSite
    else if bayer == p[1] then GreenInRedRow
    else if bayer == p[2] then GreenInBlueRow
    else BlueSite
  }

  function Native(s: Site): Colour {
    match s
    case RedSite => Red
    case BlueSite => Blue
    case _ => Green
  }

  /** tile_colours: the colour gp_bayer_expand gives the sample of a position code. */
  function TileColour(tile: Tile, bayer: nat): Colour
    requires bayer < 4
  {
    match tile
    case GRBG => [Green, Red, Blue, Green][bayer]
    case GRBGInterlaced => [Green, Red, Blue, Green][bayer]
    case BGGR => [Blue, Green, Green, Red][bayer]
    case BGGRInterlaced => [Blue, Green, Green, Red][bayer]
    case GBRG => [Green, Blue, Red, Green][bayer]
    case GBRGInterlaced => [Green, Blue, Red, Green][bayer]
    case _ => [Red, Green, Green, Blue][bayer]
  }

  /** Expansion and interpolation agree on where each colour was sampled. */
  lemma TilesAgree(tile: Tile, x: nat, y: nat)
    ensures TileColour(tile, Bayer(x, y)) == Native(SiteAt(tile, x, y))
  {
  }

  function FlipX(s: Site): Site {
    match s
    case RedSite => GreenInRedRow
    case GreenInRedRow => RedSite
    case GreenInBlueRow => BlueSite
    case BlueSite => GreenInBlueRow
  }

  function FlipY(s: Site): Site {
    match s
    case RedSite => GreenInBlueRow
    case GreenInBlueRow => RedSite
    case GreenInRedRow => BlueSite
    case BlueSite => GreenInRedRow
  }

  lemma NextSite(tile: Tile, x: nat, y: nat)
    ensures SiteAt(tile, x + 1, y) == FlipX(SiteAt(tile, x, y))
    ensures SiteAt(tile, x, y + 1) == FlipY(SiteAt(tile, x, y))
  {
    assert (x + 1) % 2 != x % 2;
    assert (y + 1) % 2 != y % 2;
  }

  /** The sites beside and above a site. */
  lemma Neighbours(tile: Tile, x: nat, y: nat)
    ensures var s := SiteAt(tile, x, y);
      && SiteAt(tile, x + 1, y) == FlipX(s) && (x > 0 ==> SiteAt(tile, x - 1, y) == FlipX(s))
      && SiteAt(tile, x, y + 1) == FlipY(s) && (y > 0 ==> SiteAt(tile, x, y - 1) == FlipY(s))
  {
    hide SiteAt;
    NextSite(tile, x, y);
    if x > 0 {
      NextSite(tile, x - 1, y);
    }
    if y > 0 {
      NextSite(tile, x, y - 1);
    }
  }
}
