/**
 * What the depth estimator promises: which edge-map entries are written
 * and with what, when the Sobel operator sees no edge, the ranges of the
 * brightness and radial factors, the value of every depth pixel, and how
 * the estimate behaves on uniform and black images.
 */
module DepthProperties {
  import opened Bytes
  import opened RealSqrt
  import opened Raster
  import opened DepthEstimator

  // ---------------------------------------------------------------------
  // Edge map
  // ---------------------------------------------------------------------

  /**
   * The edge map holds 0 at every border pixel and, at every interior pixel,
   * the Sobel magnitude capped at 255 and truncated to an integer.
   */
  lemma EdgeMapEntry(sqrt: real -> real, data: seq<byte>, w: nat, h: nat, x: nat, y: nat)
    requires IsSqrt(sqrt) && IsRgba(data, w, h) && x < w && y < h
    ensures |EdgeMapSpec(sqrt, data, w, h)| == w * h && Offset(w, x, y) < w * h
    ensures !IsInterior(w, h, x, y) ==> EdgeMapSpec(sqrt, data, w, h)[Offset(w, x, y)] == 0
    ensures IsInterior(w, h, x, y) ==>
      var e := EdgeMapSpec(sqrt, data, w, h)[Offset(w, x, y)];
      var mag := Magnitude(sqrt, WindowAt(data, w, h, x, y));
      && e == EdgeByte(sqrt, WindowAt(data, w, h, x, y))
      && e as real <= mag
      && (e == 255 || mag < e as real + 1.0)
      && (255.0 <= mag ==> e == 255)
  {
    OffsetInRange(w, h, x, y);
    OffsetCoordinates(w, x, y);
    assert EdgeMapSpec(sqrt, data, w, h)[Offset(w, x, y)] == EdgeAt(sqrt, data, w, h, x, y);
  }

  /** Where all eight neighbours have the same mean, both Sobel responses vanish and the edge entry is 0. */
  lemma FlatNeighbourhoodHasNoEdge(sqrt: real -> real, data: seq<byte>, w: nat, h: nat, x: nat, y: nat)
    requires IsSqrt(sqrt) && IsRgba(data, w, h) && IsInterior(w, h, x, y)
    requires var n := WindowAt(data, w, h, x, y);
      n.t == n.tl && n.tr == n.tl && n.l == n.tl && n.r == n.tl && n.bl == n.tl && n.b == n.tl && n.br == n.tl
    ensures SobelX(WindowAt(data, w, h, x, y)) == 0.0 && SobelY(WindowAt(data, w, h, x, y)) == 0.0
    ensures Offset(w, x, y) < w * h && EdgeMapSpec(sqrt, data, w, h)[Offset(w, x, y)] == 0
  {
    var n := WindowAt(data, w, h, x, y);
    SqrtUnique(sqrt, 0.0, 0.0);
    assert Magnitude(sqrt, n) == 0.0;
    EdgeMapEntry(sqrt, data, w, h, x, y);
  }

  // ---------------------------------------------------------------------
  // Brightness and radial factors
  // ---------------------------------------------------------------------

  /** The brightness entry is the integer part of the mean of R, G and B, which lies in [0, 255]. */
  lemma BrightnessMapEntry(data: seq<byte>, w: nat, h: nat, x: nat, y: nat)
    requires IsRgba(data, w, h) && x < w && y < h
    ensures |BrightnessMapSpec(data, w, h)| == w * h && Offset(w, x, y) < w * h
    ensures 0.0 <= Mean(data, w, h, x, y) <= 255.0
    ensures var b := BrightnessMapSpec(data, w, h)[Offset(w, x, y)];
      b as real <= Mean(data, w, h, x, y) < b as real + 1.0
  {
    OffsetInRange(w, h, x, y);
    OffsetCoordinates(w, x, y);
    var r, g, b := Channel(data, w, h, x, y, 0), Channel(data, w, h, x, y, 1), Channel(data, w, h, x, y, 2);
    assert (r / 255.0 + g / 255.0 + b / 255.0) / 3.0 * 255.0 == Mean(data, w, h, x, y);
  }

  /** a * a <= b * b whenever |a| <= |b|. */
  lemma SquareOfSmallerMagnitude(a: real, b: real)
    requires -b <= a <= b || b <= a <= -b
    ensures a * a <= b * b
  {
    var pa := if a < 0.0 then -a else a;
    var pb := if b < 0.0 then -b else b;
    assert a * a == pa * pa && b * b == pb * pb;
    if pa < pb {
      SquareStrictlyMonotone(pa, pb);
    }
  }

  /** The squared distance from the centre is at most the squared half diagonal. */
  lemma SquaredDistanceBound(w: nat, h: nat, x: nat, y: nat)
    requires x < w && y < h
    ensures 0.0 <= SquaredOffset(w, h, x, y) <= SquaredHalfDiagonal(w, h)
  {
    SquareOfSmallerMagnitude(x as real - w as real / 2.0, w as real / 2.0);
    SquareOfSmallerMagnitude(y as real - h as real / 2.0, h as real / 2.0);
    SquareOfSmallerMagnitude(0.0, x as real - w as real / 2.0);
    SquareOfSmallerMagnitude(0.0, y as real - h as real / 2.0);
  }

  /** The normalised radial distance of every in-image pixel lies in [0, 1]. */
  lemma RadialDistanceInUnit(sqrt: real -> real, w: nat, h: nat, x: nat, y: nat)
    requires IsSqrt(sqrt) && x < w && y < h
    ensures 0.0 <= RadialDistance(sqrt, w, h, x, y) <= 1.0
  {
    SquaredDistanceBound(w, h, x, y);
    var s, m := sqrt(SquaredOffset(w, h, x, y)), MaxDist(sqrt, w, h);
    OrderedBySquares(s, m);
    DivideByPositive(s, m, m);
    DivideByPositive(0.0, s, m);
  }

  /** Dividing by a positive number keeps the order. */
  lemma DivideByPositive(a: real, b: real, m: real)
    requires a <= b && 0.0 < m
    ensures a / m <= b / m
    ensures b == m ==> b / m == 1.0
  {
  }

  /** The top-left corner is exactly one half diagonal away: its radial distance is 1. */
  lemma CornerRadialDistance(sqrt: real -> real, w: nat, h: nat)
    requires IsSqrt(sqrt) && 0 < w && 0 < h
    ensures RadialDistance(sqrt, w, h, 0, 0) == 1.0
  {
    assert SquaredOffset(w, h, 0, 0) == SquaredHalfDiagonal(w, h);
    DivideByPositive(MaxDist(sqrt, w, h), MaxDist(sqrt, w, h), MaxDist(sqrt, w, h));
  }

  // ---------------------------------------------------------------------
  // Depth pixels
  // ---------------------------------------------------------------------

  /**
   * Bytes 0-2 of pixel (x, y) of the combined image are its depth byte
   * from the two maps' entries at (x, y), and byte 3 is 255.
   */
  lemma DepthPixelsEntry(sqrt: real -> real, w: nat, h: nat, edgeMap: seq<byte>, brightnessMap: seq<byte>,
                         x: nat, y: nat, c: nat)
    requires IsSqrt(sqrt) && |edgeMap| == w * h && |brightnessMap| == w * h && x < w && y < h && c < 4
    ensures Offset(w, x, y) < w * h && 4 * Offset(w, x, y) + c < w * h * 4
    ensures var p := Offset(w, x, y);
      DepthPixelsSpec(sqrt, w, h, edgeMap, brightnessMap)[4 * p + c] ==
        if c == 3 then 255 else DepthByte(sqrt, w, h, x, y, edgeMap[p], brightnessMap[p])
  {
    OffsetInRange(w, h, x, y);
    OffsetCoordinates(w, x, y);
    var p := Offset(w, x, y);
    assert (4 * p + c) / 4 == p && (4 * p + c) % 4 == c;
  }

  /**
   * Every pixel of the depth image is written: its R, G and B bytes are the
   * clamped combination of the radial, brightness and edge factors times
   * 255, stored with rounding, and its alpha byte is 255.
   */
  lemma DepthMapPixel(sqrt: real -> real, data: seq<byte>, w: nat, h: nat, x: nat, y: nat, c: nat)
    requires IsSqrt(sqrt) && IsRgba(data, w, h) && x < w && y < h && c < 4
    ensures |DepthMapSpec(sqrt, data, w, h)| == w * h * 4 && 4 * Offset(w, x, y) + c < w * h * 4
    ensures DepthMapSpec(sqrt, data, w, h)[4 * Offset(w, x, y) + c] ==
      if c == 3 then 255
      else
        var dist := RadialDistance(sqrt, w, h, x, y);
        var edgeFactor := EdgeAt(sqrt, data, w, h, x, y) as real / 255.0;
        var brightnessFactor := BrightnessAt(data, w, h, x, y) as real / 255.0;
        ClampToByte(Clamp01(0.5 + 0.3 * (1.0 - dist) + 0.3 * brightnessFactor + 0.1 * edgeFactor) * 255.0)
  {
    var edges, bright := EdgeMapSpec(sqrt, data, w, h), BrightnessMapSpec(data, w, h);
    DepthPixelsEntry(sqrt, w, h, edges, bright, x, y, c);
    OffsetCoordinates(w, x, y);
    var p := Offset(w, x, y);
    assert edges[p] == EdgeAt(sqrt, data, w, h, x, y);
    assert bright[p] == BrightnessAt(data, w, h, x, y);
  }

  /**
   * All three factors are non-negative, so the lower clamp never binds:
   * every depth lies in [0.5, 1] and every stored depth byte in [128, 255].
   */
  lemma DepthRange(sqrt: real -> real, w: nat, h: nat, x: nat, y: nat, edge: byte, brightness: byte)
    requires IsSqrt(sqrt) && x < w && y < h
    ensures 0.5 <= DepthValue(sqrt, w, h, x, y, edge, brightness) <= 1.0
    ensures 128 <= DepthByte(sqrt, w, h, x, y, edge, brightness)
  {
    RadialDistanceInUnit(sqrt, w, h, x, y);
    var v := DepthValue(sqrt, w, h, x, y, edge, brightness) * 255.0;
    assert 127.5 <= v <= 255.0;
    assert DepthByte(sqrt, w, h, x, y, edge, brightness) == ClampToByte(v);
  }

  // ---------------------------------------------------------------------
  // Black and uniform images
  // ---------------------------------------------------------------------

  /**
   * A uniform-brightness image: every pixel has the same mean of its red,
   * green and blue bytes as pixel (0, 0). The colours themselves may differ.
   */
  ghost predicate IsUniform(data: seq<byte>, w: nat, h: nat)
    requires IsRgba(data, w, h) && 0 < w && 0 < h
  {
    forall x: nat, y: nat :: x < w && y < h ==> Mean(data, w, h, x, y) == Mean(data, w, h, 0, 0)
  }

  /** In a uniform image no pixel has an edge and every pixel has the brightness of pixel (0, 0). */
  lemma UniformImageFactors(sqrt: real -> real, data: seq<byte>, w: nat, h: nat, x: nat, y: nat)
    requires IsSqrt(sqrt) && IsRgba(data, w, h) && 0 < w && 0 < h && IsUniform(data, w, h)
    requires x < w && y < h
    ensures EdgeAt(sqrt, data, w, h, x, y) == 0
    ensures BrightnessAt(data, w, h, x, y) == BrightnessAt(data, w, h, 0, 0)
  {
    if IsInterior(w, h, x, y) {
      var n := WindowAt(data, w, h, x, y);
      assert n.t == n.tl && n.tr == n.tl && n.l == n.tl && n.r == n.tl && n.bl == n.tl && n.b == n.tl && n.br == n.tl;
      FlatNeighbourhoodHasNoEdge(sqrt, data, w, h, x, y);
      OffsetCoordinates(w, x, y);
      OffsetInRange(w, h, x, y);
    }
    var m := Mean(data, w, h, 0, 0);
    var b, b0 := BrightnessAt(data, w, h, x, y), BrightnessAt(data, w, h, 0, 0);
    assert b as real <= m < b as real + 1.0;
    assert b0 as real <= m < b0 as real + 1.0;
  }

  /** The pixel (W div 2) is at least as close to the centre, horizontally, as any column. */
  lemma CentreColumnIsNearest(w: nat, x: nat)
    requires x < w
    ensures var c := w as real / 2.0;
      ((w / 2) as real - c) * ((w / 2) as real - c) <= (x as real - c) * (x as real - c)
  {
    var c := w as real / 2.0;
    var m := w / 2;
    if w % 2 == 0 {
      assert (m as real - c) == 0.0;
    } else {
      assert m as real - c == -0.5;
      if x <= m {
        assert x as real - c <= -0.5;
      } else {
        assert 0.5 <= x as real - c;
      }
      SquareOfSmallerMagnitude(m as real - c, x as real - c);
    }
  }

  /** A pixel no farther from the centre than another, with the same factors, is at least as deep. */
  lemma DepthDecreasesWithDistance(sqrt: real -> real, w: nat, h: nat, x1: nat, y1: nat, x2: nat, y2: nat,
                                   edge: byte, brightness: byte)
    requires IsSqrt(sqrt) && x1 < w && y1 < h && x2 < w && y2 < h
    requires RadialDistance(sqrt, w, h, x1, y1) <= RadialDistance(sqrt, w, h, x2, y2)
    ensures DepthValue(sqrt, w, h, x1, y1, edge, brightness) >= DepthValue(sqrt, w, h, x2, y2, edge, brightness)
    ensures DepthByte(sqrt, w, h, x1, y1, edge, brightness) >= DepthByte(sqrt, w, h, x2, y2, edge, brightness)
  {
    ClampToByteMonotone(DepthValue(sqrt, w, h, x2, y2, edge, brightness) * 255.0,
                        DepthValue(sqrt, w, h, x1, y1, edge, brightness) * 255.0);
  }

  /** The centre pixel (W div 2, H div 2) is no farther from the centre than any pixel. */
  lemma CentrePixelIsNearest(sqrt: real -> real, w: nat, h: nat, x: nat, y: nat)
    requires IsSqrt(sqrt) && x < w && y < h
    ensures RadialDistance(sqrt, w, h, w / 2, h / 2) <= RadialDistance(sqrt, w, h, x, y)
  {
    CentreColumnIsNearest(w, x);
    CentreColumnIsNearest(h, y);
    SqrtMonotone(sqrt, SquaredOffset(w, h, w / 2, h / 2), SquaredOffset(w, h, x, y));
    DivideByPositive(sqrt(SquaredOffset(w, h, w / 2, h / 2)), sqrt(SquaredOffset(w, h, x, y)), MaxDist(sqrt, w, h));
  }

  /** On a uniform image the red byte of depth pixel (x, y) depends on the radial distance alone. */
  lemma UniformImageDepthByte(sqrt: real -> real, data: seq<byte>, w: nat, h: nat, x: nat, y: nat)
    requires IsSqrt(sqrt) && IsRgba(data, w, h) && 0 < w && 0 < h && IsUniform(data, w, h)
    requires x < w && y < h
    ensures |DepthMapSpec(sqrt, data, w, h)| == w * h * 4 && 4 * Offset(w, x, y) < w * h * 4
    ensures DepthMapSpec(sqrt, data, w, h)[4 * Offset(w, x, y)]
            == DepthByte(sqrt, w, h, x, y, 0, BrightnessAt(data, w, h, 0, 0))
  {
    UniformImageFactors(sqrt, data, w, h, x, y);
    OffsetInRange(w, h, x, y);
    OffsetCoordinates(w, x, y);
    var p := Offset(w, x, y);
    assert (4 * p) / 4 == p && (4 * p) % 4 == 0;
    assert EdgeMapSpec(sqrt, data, w, h)[p] == EdgeAt(sqrt, data, w, h, x, y);
    assert BrightnessMapSpec(data, w, h)[p] == BrightnessAt(data, w, h, x, y);
  }

  /**
   * On a uniform image the centre pixel (W div 2, H div 2) is the deepest
   * and the corner (0, 0) the shallowest: for every pixel (x, y), the
   * depth byte at the centre is at least that at (x, y), which is at least
   * that at the corner.
   */
  lemma UniformImageCentreNearestCornerFarthest(sqrt: real -> real, data: seq<byte>, w: nat, h: nat, x: nat, y: nat)
    requires IsSqrt(sqrt) && IsRgba(data, w, h) && 0 < w && 0 < h && IsUniform(data, w, h)
    requires x < w && y < h
    ensures |DepthMapSpec(sqrt, data, w, h)| == w * h * 4
    ensures 4 * Offset(w, w / 2, h / 2) < w * h * 4 && 4 * Offset(w, x, y) < w * h * 4
    ensures DepthMapSpec(sqrt, data, w, h)[4 * Offset(w, w / 2, h / 2)] >= DepthMapSpec(sqrt, data, w, h)[4 * Offset(w, x, y)]
    ensures DepthMapSpec(sqrt, data, w, h)[4 * Offset(w, x, y)] >= DepthMapSpec(sqrt, data, w, h)[4 * Offset(w, 0, 0)]
  {
    var b := BrightnessAt(data, w, h, 0, 0);
    UniformImageDepthByte(sqrt, data, w, h, x, y);
    UniformImageDepthByte(sqrt, data, w, h, w / 2, h / 2);
    UniformImageDepthByte(sqrt, data, w, h, 0, 0);
    CentrePixelIsNearest(sqrt, w, h, x, y);
    DepthDecreasesWithDistance(sqrt, w, h, w / 2, h / 2, x, y, 0, b);
    RadialDistanceInUnit(sqrt, w, h, x, y);
    CornerRadialDistance(sqrt, w, h);
    DepthDecreasesWithDistance(sqrt, w, h, x, y, 0, 0, 0, b);
  }

  /**
   * On an all-black image the depth before the blur is exactly
   * 0.5 + 0.3 * (1 - radial distance) at every pixel.
   */
  lemma BlackImageDepth(sqrt: real -> real, data: seq<byte>, w: nat, h: nat, x: nat, y: nat)
    requires IsSqrt(sqrt) && IsRgba(data, w, h) && x < w && y < h
    requires forall px: nat, py: nat, c: nat :: px < w && py < h && c < 3 ==> Channel(data, w, h, px, py, c) == 0.0
    ensures DepthValue(sqrt, w, h, x, y, EdgeAt(sqrt, data, w, h, x, y), BrightnessAt(data, w, h, x, y))
            == 0.5 + 0.3 * (1.0 - RadialDistance(sqrt, w, h, x, y))
  {
    assert IsUniform(data, w, h);
    UniformImageFactors(sqrt, data, w, h, x, y);
    assert BrightnessAt(data, w, h, 0, 0) == 0;
    RadialDistanceInUnit(sqrt, w, h, x, y);
  }
}
