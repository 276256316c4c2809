/** Expanding the raw sensor data to pixels, and the two decoders built on it. */
module BayerDecode {
  import opened Bytes
  import opened Mosaic
  import AhdStages
  import AhdWindows
  import Bilinear

  predicate Interlaced(tile: Tile) {
    tile.RGGBInterlaced? || tile.GRBGInterlaced? || tile.BGGRInterlaced? || tile.GBRGInterlaced?
  }

  /** Where in its sensor row the sample of column `x` is stored: interlaced sensors send the odd columns first. */
  function SensorIndex(tile: Tile, w: nat, x: nat): (i: nat)
    requires x < w
    ensures i < w
  {
    if !Interlaced(tile) then x else if x % 2 == 1 then x / 2 else w / 2 + x / 2
  }

  function ColumnOf(tile: Tile, w: nat, i: nat): (x: nat)
    requires i < w
    ensures x < w
  {
    if !Interlaced(tile) then i else if i < w / 2 then 2 * i + 1 else 2 * (i - w / 2)
  }

  /** Every sensor sample is used exactly once. */
  lemma SamplesUsedOnce(tile: Tile, w: nat, x: nat)
    requires x < w
    ensures ColumnOf(tile, w, SensorIndex(tile, w, x)) == x && SensorIndex(tile, w, ColumnOf(tile, w, x)) == x
  {
  }

  predicate IsSensor(input: seq<bytes>, w: nat) {
    forall y :: 0 <= y < |input| ==> |input[y]| == w
  }

  function ExpandedPixel(input: seq<bytes>, w: nat, tile: Tile, x: nat, y: nat): Rgb
    requires IsSensor(input, w) && x < w && y < |input|
  {
    WithChannel(BLACK, TileColour(tile, Bayer(x, y)), input[y][SensorIndex(tile, w, x)])
  }

  function Expanded(input: seq<bytes>, w: nat, tile: Tile): (img: seq<row>)
    requires IsSensor(input, w)
    ensures |img| == |input| && forall y :: 0 <= y < |img| ==> |img[y]| == w
  {
    seq(|input|, y requires 0 <= y < |input| => seq(w, x requires 0 <= x < w => ExpandedPixel(input, w, tile, x, y)))
  }

  /** gp_bayer_expand */
  method Expand(input: seq<bytes>, w: nat, output: array<row>, tile: Tile)
    requires IsSensor(input, w) && output.Length == |input|
    modifies output
    ensures output[..] == Expanded(input, w, tile)
  {
    hide ExpandedPixel;
    var y := 0;
    while y < |input|
      invariant 0 <= y <= |input|
      invariant forall i :: 0 <= i < y ==> output[i] == Expanded(input, w, tile)[i]
    {
      ExpandRow(input, w, output, tile, y);
      y := y + 1;
    }
  }

  method ExpandRow(input: seq<bytes>, w: nat, output: array<row>, tile: Tile, y: nat)
    requires IsSensor(input, w) && output.Length == |input| && y < |input|
    modifies output
    ensures output[y] == Expanded(input, w, tile)[y]
    ensures forall i :: 0 <= i < output.Length && i != y ==> output[i] == old(output[i])
  {
    output[y] := [];
    var x := 0;
    while x < w
      invariant 0 <= x <= w && |output[y]| == x
      invariant forall j :: 0 <= j < x ==> output[y][j] == ExpandedPixel(input, w, tile, j, y)
      invariant forall i :: 0 <= i < output.Length && i != y ==> output[i] == old(output[i])
    {
      var colour := TileColour(tile, Bayer(x, y));
      var sample := if !Interlaced(tile) then input[y][x]
                    else if x % 2 == 1 then input[y][x / 2] else input[y][w / 2 + x / 2];
      output[y] := output[y] + [WithChannel(BLACK, colour, sample)];
      x := x + 1;
    }
  }

  /** The sample of the sensor at pixel (x, y) is in the picture. */
  ghost predicate ShowsSample(out: seq<row>, input: seq<bytes>, w: nat, tile: Tile, x: nat, y: nat)
    requires IsSensor(input, w) && x < w && y < |input|
  {
    && y < |out| && x < |out[y]|
    && Channel(out[y][x], TileColour(tile, Bayer(x, y))) == input[y][SensorIndex(tile, w, x)]
  }

  /** gp_ahd_decode */
  method AhdDecode(input: seq<bytes>, w: nat, output: array<row>, tile: Tile)
    requires IsSensor(input, w) && output.Length == |input| && w >= 2 && |input| >= 3
    modifies output
    ensures output[..] == AhdStages.Demosaiced(Expanded(input, w, tile), tile, w)
    ensures forall x, y :: 0 <= x < w && 0 <= y < |input| ==> ShowsSample(output[..], input, w, tile, x, y)
  {
    hide AhdStages.OutRow;
    Expand(input, w, output, tile);
    ghost var raw := output[..];
    AhdWindows.Interpolate(output, w, tile);
    forall x, y | 0 <= x < w && 0 <= y < |input| ensures ShowsSample(output[..], input, w, tile, x, y) {
      AhdStages.SamplesSurvive(raw, tile, w, x, y);
      TilesAgree(tile, x, y);
    }
  }

  /** gp_bayer_decode */
  method BilinearDecode(input: seq<bytes>, w: nat, output: array<row>, tile: Tile)
    requires IsSensor(input, w) && output.Length == |input|
    modifies output
    ensures output[..] == if w >= 2 && |input| >= 2 then Bilinear.Done(Expanded(input, w, tile), w, tile) else Expanded(input, w, tile)
    ensures forall x, y :: 0 <= x < w && 0 <= y < |input| ==> ShowsSample(output[..], input, w, tile, x, y)
  {
    hide Bilinear.Interpolated;
    Expand(input, w, output, tile);
    ghost var raw := output[..];
    var ok := Bilinear.Interpolate(output, w, tile);
    forall x, y | 0 <= x < w && 0 <= y < |input| ensures ShowsSample(output[..], input, w, tile, x, y) {
      TilesAgree(tile, x, y);
      if ok {
        Bilinear.SamplesSurvive(raw, w, tile, x, y);
      }
    }
  }
}
