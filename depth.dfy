/**
 * Depth estimation (`estimateDepthMap`) up to, and not including, the
 * canvas blur: an edge map from a Sobel operator over the mean of R, G and
 * B, a brightness map, a radial distance from the image centre, and a fixed
 * weighted combination written out as a grey RGBA image.
 */
module DepthEstimator {
  import opened Bytes
  import opened RealSqrt
  import opened Raster

  // ---------------------------------------------------------------------
  // Per-pixel formulas
  // ---------------------------------------------------------------------

  /** The mean of the red, green and blue bytes of pixel (x, y). */
  function Mean(data: seq<byte>, w: nat, h: nat, x: nat, y: nat): (m: real)
    requires IsRgba(data, w, h) && x < w && y < h
    ensures 0.0 <= m <= 255.0
  {
    (Channel(data, w, h, x, y, 0) + Channel(data, w, h, x, y, 1) + Channel(data, w, h, x, y, 2)) / 3.0
  }

  /** The means of the eight neighbours of a pixel, named by their position. */
  datatype Window = Window(tl: real, t: real, tr: real, l: real, r: real, bl: real, b: real, br: real)

  function WindowAt(data: seq<byte>, w: nat, h: nat, x: nat, y: nat): Window
    requires IsRgba(data, w, h) && IsInterior(w, h, x, y)
  {
    Window(Mean(data, w, h, x - 1, y - 1), Mean(data, w, h, x, y - 1), Mean(data, w, h, x + 1, y - 1),
           Mean(data, w, h, x - 1, y), Mean(data, w, h, x + 1, y),
           Mean(data, w, h, x - 1, y + 1), Mean(data, w, h, x, y + 1), Mean(data, w, h, x + 1, y + 1))
  }

  /** Horizontal Sobel response. */
  function SobelX(n: Window): real
  {
    -n.tl - 2.0 * n.l - n.bl + n.tr + 2.0 * n.r + n.br
  }

  /** Vertical Sobel response. */
  function SobelY(n: Window): real
  {
    -n.tl - 2.0 * n.t - n.tr + n.bl + 2.0 * n.b + n.br
  }

  /** The gradient magnitude `Math.sqrt(gx * gx + gy * gy)`. */
  function Magnitude(sqrt: real -> real, n: Window): (mag: real)
    requires IsSqrt(sqrt)
    ensures 0.0 <= mag && mag * mag == SobelX(n) * SobelX(n) + SobelY(n) * SobelY(n)
  {
    sqrt(SobelX(n) * SobelX(n) + SobelY(n) * SobelY(n))
  }

  /**
   * The byte that `edgeMap[y * width + x] = Math.min(255, mag)` keeps: the
   * magnitude capped at 255 and truncated by the `Uint8Array` store.
   */
  function EdgeByte(sqrt: real -> real, n: Window): (e: byte)
    requires IsSqrt(sqrt)
    ensures e as real <= Magnitude(sqrt, n)
    ensures e == 255 || Magnitude(sqrt, n) < e as real + 1.0
    ensures 255.0 <= Magnitude(sqrt, n) ==> e == 255
  {
    TruncToByte(Min(255.0, Magnitude(sqrt, n)))
  }

  /** Entry (x, y) of the edge map: the Sobel byte inside, 0 (never written) on the border. */
  function EdgeAt(sqrt: real -> real, data: seq<byte>, w: nat, h: nat, x: nat, y: nat): byte
    requires IsSqrt(sqrt) && IsRgba(data, w, h) && x < w && y < h
  {
    if IsInterior(w, h, x, y) then EdgeByte(sqrt, WindowAt(data, w, h, x, y)) else 0
  }

  /**
   * The byte that `brightnessMap[y * width + x] = brightness * 255` keeps,
   * where brightness is the mean of R/255, G/255 and B/255.
   */
  function BrightnessAt(data: seq<byte>, w: nat, h: nat, x: nat, y: nat): (v: byte)
    requires IsRgba(data, w, h) && x < w && y < h
    ensures v as real <= Mean(data, w, h, x, y) < v as real + 1.0
  {
    var r := Channel(data, w, h, x, y, 0) / 255.0;
    var g := Channel(data, w, h, x, y, 1) / 255.0;
    var b := Channel(data, w, h, x, y, 2) / 255.0;
    assert (r + g + b) / 3.0 * 255.0 == Mean(data, w, h, x, y);
    TruncToByte((r + g + b) / 3.0 * 255.0)
  }

  /** `centerX * centerX + centerY * centerY` with centerX = W / 2 and centerY = H / 2. */
  function SquaredHalfDiagonal(w: nat, h: nat): (d: real)
    ensures 0 < w ==> 0.0 < d
  {
    assert 0.0 <= (h as real / 2.0) * (h as real / 2.0);
    (w as real / 2.0) * (w as real / 2.0) + (h as real / 2.0) * (h as real / 2.0)
  }

  /** `distX * distX + distY * distY` with distX = x - W / 2 and distY = y - H / 2. */
  function SquaredOffset(w: nat, h: nat, x: nat, y: nat): (d: real)
    ensures 0.0 <= d
  {
    var distX, distY := x as real - w as real / 2.0, y as real - h as real / 2.0;
    assert 0.0 <= distX * distX by {
      if distX < 0.0 { assert distX * distX == (-distX) * (-distX); }
    }
    assert 0.0 <= distY * distY by {
      if distY < 0.0 { assert distY * distY == (-distY) * (-distY); }
    }
    (x as real - w as real / 2.0) * (x as real - w as real / 2.0) + (y as real - h as real / 2.0) * (y as real - h as real / 2.0)
  }

  /** `maxDist`, the half diagonal: the square root of the squared half diagonal. */
  function MaxDist(sqrt: real -> real, w: nat, h: nat): (d: real)
    requires IsSqrt(sqrt) && 0 < w
    ensures 0.0 < d && d * d == SquaredHalfDiagonal(w, h)
  {
    SqrtPositive(sqrt, SquaredHalfDiagonal(w, h));
    sqrt(SquaredHalfDiagonal(w, h))
  }

  /** The distance of (x, y) from (W/2, H/2), divided by the half diagonal. */
  function RadialDistance(sqrt: real -> real, w: nat, h: nat, x: nat, y: nat): (d: real)
    requires IsSqrt(sqrt) && x < w && y < h
    ensures 0.0 <= d
  {
    sqrt(SquaredOffset(w, h, x, y)) / MaxDist(sqrt, w, h)
  }

  /** The combined depth of a pixel, clamped to [0, 1]. */
  function DepthValue(sqrt: real -> real, w: nat, h: nat, x: nat, y: nat, edge: byte, brightness: byte): (v: real)
    requires IsSqrt(sqrt) && x < w && y < h
    ensures 0.0 <= v <= 1.0
  {
    var dist := RadialDistance(sqrt, w, h, x, y);
    Clamp01(0.5 + 0.3 * (1.0 - dist) + 0.3 * (brightness as real / 255.0) + 0.1 * (edge as real / 255.0))
  }

  /** The byte `depth * 255` becomes in the `ImageData` buffer. */
  function DepthByte(sqrt: real -> real, w: nat, h: nat, x: nat, y: nat, edge: byte, brightness: byte): (b: byte)
    requires IsSqrt(sqrt) && x < w && y < h
    ensures var v := DepthValue(sqrt, w, h, x, y, edge, brightness) * 255.0;
      -0.5 <= b as real - v <= 0.5
  {
    ClampToByte(DepthValue(sqrt, w, h, x, y, edge, brightness) * 255.0)
  }

  // ---------------------------------------------------------------------
  // Whole-buffer specifications
  // ---------------------------------------------------------------------

  /** The edge map, one byte per pixel. */
  function EdgeMapSpec(sqrt: real -> real, data: seq<byte>, w: nat, h: nat): (m: seq<byte>)
    requires IsSqrt(sqrt) && IsRgba(data, w, h)
    ensures |m| == w * h
  {
    AllCoordinates(w, h);
    seq(w * h, k requires 0 <= k < w * h => EdgeAt(sqrt, data, w, h, Col(w, k), Row(w, k)))
  }

  /** The brightness map, one byte per pixel. */
  function BrightnessMapSpec(data: seq<byte>, w: nat, h: nat): (m: seq<byte>)
    requires IsRgba(data, w, h)
    ensures |m| == w * h
  {
    AllCoordinates(w, h);
    seq(w * h, k requires 0 <= k < w * h => BrightnessAt(data, w, h, Col(w, k), Row(w, k)))
  }

  /** Byte k of the depth image built from an edge map and a brightness map. */
  function DepthChannel(sqrt: real -> real, w: nat, h: nat, edgeMap: seq<byte>, brightnessMap: seq<byte>, k: nat): byte
    requires IsSqrt(sqrt) && |edgeMap| == w * h && |brightnessMap| == w * h && k < w * h * 4
  {
    var p := k / 4;
    CoordinatesOfOffset(w, h, p);
    if k % 4 == 3 then 255
    else DepthByte(sqrt, w, h, Col(w, p), Row(w, p), edgeMap[p], brightnessMap[p])
  }

  /** The grey RGBA depth image built from an edge map and a brightness map. */
  function DepthPixelsSpec(sqrt: real -> real, w: nat, h: nat, edgeMap: seq<byte>, brightnessMap: seq<byte>): (d: seq<byte>)
    requires IsSqrt(sqrt) && |edgeMap| == w * h && |brightnessMap| == w * h
    ensures IsRgba(d, w, h)
  {
    seq(w * h * 4, k requires 0 <= k < w * h * 4 => DepthChannel(sqrt, w, h, edgeMap, brightnessMap, k))
  }

  /** The depth image of an RGBA image, before the blur. */
  function DepthMapSpec(sqrt: real -> real, data: seq<byte>, w: nat, h: nat): (d: seq<byte>)
    requires IsSqrt(sqrt) && IsRgba(data, w, h)
    ensures IsRgba(d, w, h)
  {
    DepthPixelsSpec(sqrt, w, h, EdgeMapSpec(sqrt, data, w, h), BrightnessMapSpec(data, w, h))
  }

  // ---------------------------------------------------------------------
  // The loops
  // ---------------------------------------------------------------------

  /** Step 1: the Sobel edge map over a zero-filled `Uint8Array`, interior pixels only. */
  method ComputeEdgeMap(sqrt: real -> real, data: array<byte>, w: nat, h: nat) returns (edgeMap: array<byte>)
    requires IsSqrt(sqrt) && IsRgba(data[..], w, h)
    ensures fresh(edgeMap)
    ensures edgeMap[..] == EdgeMapSpec(sqrt, data[..], w, h)
  {
    edgeMap := new byte[w * h](_ => 0);
    var y := 1;
    while y < h - 1
      invariant 1 <= y && (2 <= h ==> y <= h - 1)
      invariant edgeMap.Length == w * h
      invariant EdgeRowsDone(sqrt, data[..], w, h, edgeMap[..], y, 0)
    {
      EdgeMapRow(sqrt, data, w, h, y, edgeMap);
      y := y + 1;
    }
    EdgeRowsComplete(sqrt, data[..], w, h, edgeMap[..], y);
  }

  /**
   * The edge map after the loops have reached column x of row y: entries
   * before that point hold their final value, the rest are still 0.
   */
  ghost predicate EdgeRowsDone(sqrt: real -> real, data: seq<byte>, w: nat, h: nat, edgeMap: seq<byte>, y: nat, x: nat)
    requires IsSqrt(sqrt) && IsRgba(data, w, h)
  {
    |edgeMap| == w * h &&
    forall k: nat :: k < w * h ==>
      edgeMap[k] == if Row(w, k) < y || (Row(w, k) == y && Col(w, k) < x)
                    then EdgeAt(sqrt, data, w, h, Col(w, k), Row(w, k)) else 0
  }

  /** Writing pixel (x, y) of row y advances the edge map to column x + 1. */
  lemma EdgeRowsStep(sqrt: real -> real, data: seq<byte>, w: nat, h: nat, edgeMap: seq<byte>, y: nat, x: nat)
    requires IsSqrt(sqrt) && IsRgba(data, w, h) && x < w && y < h
    requires EdgeRowsDone(sqrt, data, w, h, edgeMap, y, x)
    ensures Offset(w, x, y) < |edgeMap|
    ensures EdgeRowsDone(sqrt, data, w, h, edgeMap[Offset(w, x, y) := EdgeAt(sqrt, data, w, h, x, y)], y, x + 1)
  {
    OffsetInRange(w, h, x, y);
    OffsetCoordinates(w, x, y);
    var j := Offset(w, x, y);
    var after := edgeMap[j := EdgeAt(sqrt, data, w, h, x, y)];
    AllCoordinates(w, h);
    forall k: nat | k < w * h
      ensures after[k] == if Row(w, k) < y || (Row(w, k) == y && Col(w, k) < x + 1)
                          then EdgeAt(sqrt, data, w, h, Col(w, k), Row(w, k)) else 0
    {
      CoordinatesOfOffset(w, h, k);
    }
  }

  /** Once column x has passed the last interior column, row y is complete. */
  lemma EdgeRowsNextRow(sqrt: real -> real, data: seq<byte>, w: nat, h: nat, edgeMap: seq<byte>, y: nat, x: nat)
    requires IsSqrt(sqrt) && IsRgba(data, w, h)
    requires x + 1 >= w && x >= 1
    requires EdgeRowsDone(sqrt, data, w, h, edgeMap, y, x)
    ensures EdgeRowsDone(sqrt, data, w, h, edgeMap, y + 1, 0)
  {
    AllCoordinates(w, h);
    forall k: nat | k < w * h
      ensures edgeMap[k] == if Row(w, k) < y + 1 then EdgeAt(sqrt, data, w, h, Col(w, k), Row(w, k)) else 0
    {
      CoordinatesOfOffset(w, h, k);
      if Row(w, k) == y && Col(w, k) >= x {
        assert !IsInterior(w, h, Col(w, k), Row(w, k));
      }
    }
  }

  /** Once row y has passed the last interior row, the edge map is complete. */
  lemma EdgeRowsComplete(sqrt: real -> real, data: seq<byte>, w: nat, h: nat, edgeMap: seq<byte>, y: nat)
    requires IsSqrt(sqrt) && IsRgba(data, w, h)
    requires y + 1 >= h && y >= 1
    requires EdgeRowsDone(sqrt, data, w, h, edgeMap, y, 0)
    ensures edgeMap == EdgeMapSpec(sqrt, data, w, h)
  {
    AllCoordinates(w, h);
    forall k: nat | k < w * h
      ensures edgeMap[k] == EdgeMapSpec(sqrt, data, w, h)[k]
    {
      CoordinatesOfOffset(w, h, k);
    }
  }

  /** The inner loop of step 1: the interior pixels of row y. */
  method EdgeMapRow(sqrt: real -> real, data: array<byte>, w: nat, h: nat, y: nat, edgeMap: array<byte>)
    requires IsSqrt(sqrt) && IsRgba(data[..], w, h) && 1 <= y && y + 2 <= h && data != edgeMap
    requires EdgeRowsDone(sqrt, data[..], w, h, edgeMap[..], y, 0)
    modifies edgeMap
    ensures EdgeRowsDone(sqrt, data[..], w, h, edgeMap[..], y + 1, 0)
  {
    var x := 1;
    while x < w - 1
      invariant 1 <= x && (2 <= w ==> x <= w - 1)
      invariant EdgeRowsDone(sqrt, data[..], w, h, edgeMap[..], y, x)
    {
      EdgeRowsStep(sqrt, data[..], w, h, edgeMap[..], y, x);
      edgeMap[Offset(w, x, y)] := EdgeByte(sqrt, WindowAt(data[..], w, h, x, y));
      x := x + 1;
    }
    EdgeRowsNextRow(sqrt, data[..], w, h, edgeMap[..], y, x);
  }

  /** Step 2: the brightness map, every pixel. */
  method ComputeBrightnessMap(data: array<byte>, w: nat, h: nat) returns (brightnessMap: array<byte>)
    requires IsRgba(data[..], w, h)
    ensures fresh(brightnessMap)
    ensures brightnessMap[..] == BrightnessMapSpec(data[..], w, h)
  {
    brightnessMap := new byte[w * h](_ => 0);
    AllCoordinates(w, h);
    var y := 0;
    while y < h
      invariant 0 <= y <= h
      invariant brightnessMap.Length == w * h
      invariant forall k: nat :: k < w * h && Row(w, k) < y ==>
        brightnessMap[k] == BrightnessAt(data[..], w, h, Col(w, k), Row(w, k))
    {
      var x := 0;
      while x < w
        invariant 0 <= x <= w
        invariant forall k: nat :: k < w * h && (Row(w, k) < y || (Row(w, k) == y && Col(w, k) < x)) ==>
          brightnessMap[k] == BrightnessAt(data[..], w, h, Col(w, k), Row(w, k))
      {
        assert Row(w, Offset(w, x, y)) == y && Col(w, Offset(w, x, y)) == x;
        brightnessMap[Offset(w, x, y)] := BrightnessAt(data[..], w, h, x, y);
        x := x + 1;
      }
      y := y + 1;
    }
  }

  /** The depth image after the loops have reached pixel (x, y): every earlier byte is final. */
  ghost predicate DepthPixelsDone(sqrt: real -> real, w: nat, h: nat, edgeMap: seq<byte>, brightnessMap: seq<byte>,
                                  depthPixels: seq<byte>, x: nat, y: nat)
    requires IsSqrt(sqrt) && |edgeMap| == w * h && |brightnessMap| == w * h
  {
    |depthPixels| == w * h * 4 &&
    forall k: nat :: k < 4 * Offset(w, x, y) && k < w * h * 4 ==>
      depthPixels[k] == DepthChannel(sqrt, w, h, edgeMap, brightnessMap, k)
  }

  /** Writing the four bytes of pixel (x, y) advances the depth image by one pixel. */
  lemma DepthPixelsStep(sqrt: real -> real, w: nat, h: nat, edgeMap: seq<byte>, brightnessMap: seq<byte>,
                        depthPixels: seq<byte>, x: nat, y: nat)
    requires IsSqrt(sqrt) && |edgeMap| == w * h && |brightnessMap| == w * h && x < w && y < h
    requires DepthPixelsDone(sqrt, w, h, edgeMap, brightnessMap, depthPixels, x, y)
    ensures 4 * Offset(w, x, y) + 3 < |depthPixels|
    ensures var p := Offset(w, x, y);
            var v := DepthByte(sqrt, w, h, x, y, edgeMap[p], brightnessMap[p]);
            DepthPixelsDone(sqrt, w, h, edgeMap, brightnessMap,
                            depthPixels[4 * p + 2 := v][4 * p + 1 := v][4 * p := v][4 * p + 3 := 255], x + 1, y)
  {
    OffsetInRange(w, h, x, y);
    OffsetCoordinates(w, x, y);
  }

  /** The chained store of one grey pixel, blue first, then green and red, then alpha 255. */
  method StoreGrey(depthPixels: array<byte>, idx: nat, v: byte)
    requires idx + 3 < depthPixels.Length
    modifies depthPixels
    ensures depthPixels[..] == old(depthPixels[..])[idx + 2 := v][idx + 1 := v][idx := v][idx + 3 := 255]
  {
    depthPixels[idx + 2] := v;
    depthPixels[idx + 1] := v;
    depthPixels[idx] := v;
    depthPixels[idx + 3] := 255;
  }

  /** Step 4: combine the factors and write every pixel as grey with alpha 255. */
  method CombineDepth(sqrt: real -> real, w: nat, h: nat, edgeMap: array<byte>, brightnessMap: array<byte>)
    returns (depthPixels: array<byte>)
    requires IsSqrt(sqrt) && edgeMap.Length == w * h && brightnessMap.Length == w * h
    ensures fresh(depthPixels)
    ensures depthPixels[..] == DepthPixelsSpec(sqrt, w, h, edgeMap[..], brightnessMap[..])
  {
    depthPixels := new byte[w * h * 4](_ => 0);
    ghost var edges, bright := edgeMap[..], brightnessMap[..];
    var y := 0;
    while y < h
      invariant 0 <= y <= h
      invariant DepthPixelsDone(sqrt, w, h, edges, bright, depthPixels[..], 0, y)
    {
      var x := 0;
      while x < w
        invariant 0 <= x <= w
        invariant DepthPixelsDone(sqrt, w, h, edges, bright, depthPixels[..], x, y)
      {
        DepthPixelsStep(sqrt, w, h, edges, bright, depthPixels[..], x, y);
        var p := Offset(w, x, y);
        var v := DepthByte(sqrt, w, h, x, y, edgeMap[p], brightnessMap[p]);
        StoreGrey(depthPixels, 4 * p, v);
        x := x + 1;
      }
      assert Offset(w, w, y) == Offset(w, 0, y + 1);
      y := y + 1;
    }
    assert Offset(w, 0, h) == w * h;
  }

  /** `estimateDepthMap` before its blur: steps 1, 2 and 4 in order. */
  method EstimateDepth(sqrt: real -> real, data: array<byte>, w: nat, h: nat) returns (depthPixels: array<byte>)
    requires IsSqrt(sqrt) && IsRgba(data[..], w, h)
    ensures fresh(depthPixels)
    ensures depthPixels[..] == DepthMapSpec(sqrt, data[..], w, h)
  {
    var edgeMap := ComputeEdgeMap(sqrt, data, w, h);
    var brightnessMap := ComputeBrightnessMap(data, w, h);
    depthPixels := CombineDepth(sqrt, w, h, edgeMap, brightnessMap);
  }
}
