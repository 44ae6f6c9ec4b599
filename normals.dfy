/**
 * The normal map `NormalMappedModel` derives from a depth image: for every
 * interior pixel, the central differences of the depth (the red byte / 255)
 * of its four direct neighbours give a surface normal, which is stored as
 * an RGBA pixel. Border pixels keep the zero bytes `createImageData` starts
 * with, alpha included.
 */
module NormalMap {
  import opened Bytes
  import opened RealSqrt
  import opened Raster

  /** A surface normal. */
  datatype Normal = Normal(x: real, y: real, z: real)

  /** The depth of pixel (x, y): its red byte / 255. */
  function Depth(depthPixels: seq<byte>, w: nat, h: nat, x: nat, y: nat): (d: real)
    requires IsRgba(depthPixels, w, h) && x < w && y < h
    ensures 0.0 <= d <= 1.0
  {
    Channel(depthPixels, w, h, x, y, 0) / 255.0
  }

  /** `dx = (right - left) * 2.0`. */
  function SlopeX(depthPixels: seq<byte>, w: nat, h: nat, x: nat, y: nat): (dx: real)
    requires IsRgba(depthPixels, w, h) && IsInterior(w, h, x, y)
    ensures -2.0 <= dx <= 2.0
  {
    (Depth(depthPixels, w, h, x + 1, y) - Depth(depthPixels, w, h, x - 1, y)) * 2.0
  }

  /** `dy = (bottom - top) * 2.0`. */
  function SlopeY(depthPixels: seq<byte>, w: nat, h: nat, x: nat, y: nat): (dy: real)
    requires IsRgba(depthPixels, w, h) && IsInterior(w, h, x, y)
    ensures -2.0 <= dy <= 2.0
  {
    (Depth(depthPixels, w, h, x, y + 1) - Depth(depthPixels, w, h, x, y - 1)) * 2.0
  }

  /** The squared length of the vector (dx, dy, dz). */
  function SquaredLength(dx: real, dy: real, dz: real): real
  {
    dx * dx + dy * dy + dz * dz
  }

  /** A square of a number of magnitude at most 2 lies in [0, 4]. */
  lemma SquareOfSlope(d: real)
    requires -2.0 <= d <= 2.0
    ensures 0.0 <= d * d <= 4.0
  {
    if d < 0.0 {
      assert d * d == (-d) * (-d);
      assert (-d) * (-d) <= 2.0 * (-d);
    } else {
      assert d * d <= 2.0 * d;
    }
  }

  /** Dividing a vector by its length gives a unit vector. */
  lemma NormaliseToUnit(dx: real, dy: real, dz: real, len: real)
    requires 0.0 < len && len * len == SquaredLength(dx, dy, dz)
    ensures SquaredLength(dx / len, dy / len, dz / len) == 1.0
  {
    var qx, qy, qz := dx / len, dy / len, dz / len;
    var l := len * len;
    ScaledSquare(qx, len, dx);
    ScaledSquare(qy, len, dy);
    ScaledSquare(qz, len, dz);
    var u := SquaredLength(qx, qy, qz);
    assert u * l == qx * qx * l + qy * qy * l + qz * qz * l;
    assert (u - 1.0) * l == 0.0;
    SquareStrictlyMonotone(0.0, len);
  }

  /** If q * len == d then q * q * len * len == d * d. */
  lemma ScaledSquare(q: real, len: real, d: real)
    requires 0.0 < len && d / len == q
    ensures q * q * (len * len) == d * d
  {
    assert q * len == d;
    assert q * q * (len * len) == (q * len) * (q * len);
  }

  /** A vector (dx, dy, 1) with |dx|, |dy| <= 2 has a length in [1, 3]. */
  lemma LengthBounds(sqrt: real -> real, dx: real, dy: real)
    requires IsSqrt(sqrt) && -2.0 <= dx <= 2.0 && -2.0 <= dy <= 2.0
    ensures 1.0 <= SquaredLength(dx, dy, 1.0) <= 9.0
    ensures 1.0 <= sqrt(SquaredLength(dx, dy, 1.0)) <= 3.0
  {
    SquareOfSlope(dx);
    SquareOfSlope(dy);
    var len := sqrt(SquaredLength(dx, dy, 1.0));
    assert 0.0 <= len && len * len == SquaredLength(dx, dy, 1.0);
    assert 1.0 * 1.0 <= len * len <= 3.0 * 3.0;
    OrderedBySquares(1.0, len);
    OrderedBySquares(len, 3.0);
  }

  /** The reciprocal of a number in [1, 3] lies in [1/3, 1]. */
  lemma ReciprocalBounds(len: real)
    requires 1.0 <= len <= 3.0
    ensures 1.0 / 3.0 <= 1.0 / len <= 1.0
  {
    assert (1.0 / len) * len == 1.0;
  }

  /**
   * (dx, dy, 1) divided by `Math.sqrt(dx * dx + dy * dy + dz * dz)`: the
   * unit vector along (dx, dy, 1), facing the viewer with z at least 1/3.
   */
  function UnitNormal(sqrt: real -> real, dx: real, dy: real): (n: Normal)
    requires IsSqrt(sqrt) && -2.0 <= dx <= 2.0 && -2.0 <= dy <= 2.0
    ensures SquaredLength(n.x, n.y, n.z) == 1.0
    ensures n.x == dx * n.z && n.y == dy * n.z
    ensures 1.0 / 3.0 <= n.z <= 1.0
  {
    var len := sqrt(SquaredLength(dx, dy, 1.0));
    LengthBounds(sqrt, dx, dy);
    NormaliseToUnit(dx, dy, 1.0, len);
    ReciprocalBounds(len);
    Normal(dx / len, dy / len, 1.0 / len)
  }

  /** The normal of interior pixel (x, y), from the central differences of its depth. */
  function SurfaceNormal(sqrt: real -> real, depthPixels: seq<byte>, w: nat, h: nat, x: nat, y: nat): (n: Normal)
    requires IsSqrt(sqrt) && IsRgba(depthPixels, w, h) && IsInterior(w, h, x, y)
    ensures SquaredLength(n.x, n.y, n.z) == 1.0 && 1.0 / 3.0 <= n.z <= 1.0
    ensures n.x == SlopeX(depthPixels, w, h, x, y) * n.z && n.y == SlopeY(depthPixels, w, h, x, y) * n.z
  {
    UnitNormal(sqrt, SlopeX(depthPixels, w, h, x, y), SlopeY(depthPixels, w, h, x, y))
  }

  /**
   * A unit normal as an RGBA pixel: x and y mapped from [-1, 1] to
   * [0, 255], z scaled by 255, alpha 255, each through the clamped store.
   */
  function EncodeNormal(n: Normal): (px: seq<byte>)
    ensures |px| == 4 && px[3] == 255
  {
    [ClampToByte((n.x * 0.5 + 0.5) * 255.0), ClampToByte((n.y * 0.5 + 0.5) * 255.0), ClampToByte(n.z * 255.0), 255]
  }

  /** Byte k of the normal map: the encoded normal of an interior pixel, 0 on the border. */
  function NormalChannel(sqrt: real -> real, depthPixels: seq<byte>, w: nat, h: nat, k: nat): byte
    requires IsSqrt(sqrt) && IsRgba(depthPixels, w, h) && k < w * h * 4
  {
    var p := k / 4;
    CoordinatesOfOffset(w, h, p);
    if IsInterior(w, h, Col(w, p), Row(w, p))
    then EncodeNormal(SurfaceNormal(sqrt, depthPixels, w, h, Col(w, p), Row(w, p)))[k % 4]
    else 0
  }

  /** The normal map of a depth image. */
  function NormalMapSpec(sqrt: real -> real, depthPixels: seq<byte>, w: nat, h: nat): (m: seq<byte>)
    requires IsSqrt(sqrt) && IsRgba(depthPixels, w, h)
    ensures IsRgba(m, w, h)
  {
    seq(w * h * 4, k requires 0 <= k < w * h * 4 => NormalChannel(sqrt, depthPixels, w, h, k))
  }

  // ---------------------------------------------------------------------
  // The loops
  // ---------------------------------------------------------------------

  /** Pixel p comes before (x, y) in row-major order. */
  predicate Reached(w: nat, p: nat, x: nat, y: nat)
    requires 0 < w
  {
    Row(w, p) < y || (Row(w, p) == y && Col(w, p) < x)
  }

  /** The normal map once the loops have reached pixel (x, y): earlier pixels are final, the rest still zero. */
  ghost predicate NormalRowsDone(sqrt: real -> real, depthPixels: seq<byte>, w: nat, h: nat,
                                 normalPixels: seq<byte>, y: nat, x: nat)
    requires IsSqrt(sqrt) && IsRgba(depthPixels, w, h)
  {
    |normalPixels| == w * h * 4 &&
    forall k: nat :: k < w * h * 4 ==>
      normalPixels[k] == if 0 < w && Reached(w, k / 4, x, y) then NormalChannel(sqrt, depthPixels, w, h, k) else 0
  }

  /** Writing the four bytes of interior pixel (x, y) advances the normal map to column x + 1. */
  lemma NormalRowsStep(sqrt: real -> real, depthPixels: seq<byte>, w: nat, h: nat,
                       normalPixels: seq<byte>, y: nat, x: nat)
    requires IsSqrt(sqrt) && IsRgba(depthPixels, w, h) && IsInterior(w, h, x, y)
    requires NormalRowsDone(sqrt, depthPixels, w, h, normalPixels, y, x)
    ensures 4 * Offset(w, x, y) + 3 < |normalPixels|
    ensures var i := 4 * Offset(w, x, y);
            var px := EncodeNormal(SurfaceNormal(sqrt, depthPixels, w, h, x, y));
            NormalRowsDone(sqrt, depthPixels, w, h,
                           normalPixels[i := px[0]][i + 1 := px[1]][i + 2 := px[2]][i + 3 := 255], y, x + 1)
  {
    OffsetInRange(w, h, x, y);
    OffsetCoordinates(w, x, y);
    var i := 4 * Offset(w, x, y);
    var px := EncodeNormal(SurfaceNormal(sqrt, depthPixels, w, h, x, y));
    var after := normalPixels[i := px[0]][i + 1 := px[1]][i + 2 := px[2]][i + 3 := 255];
    AllCoordinates(w, h);
    forall k: nat | k < w * h * 4
      ensures after[k] == if 0 < w && Reached(w, k / 4, x + 1, y) then NormalChannel(sqrt, depthPixels, w, h, k) else 0
    {
      CoordinatesOfOffset(w, h, k / 4);
      if k / 4 == Offset(w, x, y) {
        assert k == i + k % 4;
      } else {
        assert k < i || i + 3 < k;
      }
    }
  }

  /** Once column x has passed the last interior column, row y is complete. */
  lemma NormalRowsNextRow(sqrt: real -> real, depthPixels: seq<byte>, w: nat, h: nat,
                          normalPixels: seq<byte>, y: nat, x: nat)
    requires IsSqrt(sqrt) && IsRgba(depthPixels, w, h)
    requires x + 1 >= w && x >= 1
    requires NormalRowsDone(sqrt, depthPixels, w, h, normalPixels, y, x)
    ensures NormalRowsDone(sqrt, depthPixels, w, h, normalPixels, y + 1, 0)
  {
    AllCoordinates(w, h);
    forall k: nat | k < w * h * 4
      ensures normalPixels[k] == if 0 < w && Reached(w, k / 4, 0, y + 1) then NormalChannel(sqrt, depthPixels, w, h, k) else 0
    {
      CoordinatesOfOffset(w, h, k / 4);
      if Row(w, k / 4) == y && Col(w, k / 4) >= x {
        assert !IsInterior(w, h, Col(w, k / 4), Row(w, k / 4));
      }
    }
  }

  /** Once row y has passed the last interior row, the normal map is complete. */
  lemma NormalRowsComplete(sqrt: real -> real, depthPixels: seq<byte>, w: nat, h: nat,
                           normalPixels: seq<byte>, y: nat)
    requires IsSqrt(sqrt) && IsRgba(depthPixels, w, h)
    requires y + 1 >= h && y >= 1
    requires NormalRowsDone(sqrt, depthPixels, w, h, normalPixels, y, 0)
    ensures normalPixels == NormalMapSpec(sqrt, depthPixels, w, h)
  {
    AllCoordinates(w, h);
    forall k: nat | k < w * h * 4
      ensures normalPixels[k] == NormalMapSpec(sqrt, depthPixels, w, h)[k]
    {
      CoordinatesOfOffset(w, h, k / 4);
    }
  }

  /** The four stores of one pixel of the inner loop, in source order. */
  method StoreNormal(normalPixels: array<byte>, idx: nat, n: Normal)
    requires idx + 3 < normalPixels.Length
    modifies normalPixels
    ensures var px := EncodeNormal(n);
            normalPixels[..] == old(normalPixels[..])[idx := px[0]][idx + 1 := px[1]][idx + 2 := px[2]][idx + 3 := 255]
  {
    normalPixels[idx] := ClampToByte((n.x * 0.5 + 0.5) * 255.0);
    normalPixels[idx + 1] := ClampToByte((n.y * 0.5 + 0.5) * 255.0);
    normalPixels[idx + 2] := ClampToByte(n.z * 255.0);
    normalPixels[idx + 3] := 255;
  }

  /** The inner loop: the interior pixels of row y. */
  method NormalMapRow(sqrt: real -> real, depthPixels: array<byte>, w: nat, h: nat, y: nat, normalPixels: array<byte>)
    requires IsSqrt(sqrt) && IsRgba(depthPixels[..], w, h) && 1 <= y && y + 2 <= h && depthPixels != normalPixels
    requires NormalRowsDone(sqrt, depthPixels[..], w, h, normalPixels[..], y, 0)
    modifies normalPixels
    ensures NormalRowsDone(sqrt, depthPixels[..], w, h, normalPixels[..], y + 1, 0)
  {
    var x := 1;
    while x < w - 1
      invariant 1 <= x && (2 <= w ==> x <= w - 1)
      invariant NormalRowsDone(sqrt, depthPixels[..], w, h, normalPixels[..], y, x)
    {
      NormalRowsStep(sqrt, depthPixels[..], w, h, normalPixels[..], y, x);
      var n := SurfaceNormal(sqrt, depthPixels[..], w, h, x, y);
      StoreNormal(normalPixels, 4 * Offset(w, x, y), n);
      x := x + 1;
    }
    NormalRowsNextRow(sqrt, depthPixels[..], w, h, normalPixels[..], y, x);
  }

  /** The normal-map loops over a zero-filled `ImageData` of the same size. */
  method ComputeNormalMap(sqrt: real -> real, depthPixels: array<byte>, w: nat, h: nat) returns (normalPixels: array<byte>)
    requires IsSqrt(sqrt) && IsRgba(depthPixels[..], w, h)
    ensures fresh(normalPixels)
    ensures normalPixels[..] == NormalMapSpec(sqrt, depthPixels[..], w, h)
  {
    normalPixels := new byte[w * h * 4](_ => 0);
    var y := 1;
    while y < h - 1
      invariant 1 <= y && (2 <= h ==> y <= h - 1)
      invariant NormalRowsDone(sqrt, depthPixels[..], w, h, normalPixels[..], y, 0)
    {
      NormalMapRow(sqrt, depthPixels, w, h, y, normalPixels);
      y := y + 1;
    }
    NormalRowsComplete(sqrt, depthPixels[..], w, h, normalPixels[..], y);
  }

  // ---------------------------------------------------------------------
  // Properties
  // ---------------------------------------------------------------------

  /**
   * Each byte of the normal map: an interior pixel holds its encoded
   * normal with alpha 255; a border pixel is four zero bytes.
   */
  lemma NormalMapPixel(sqrt: real -> real, depthPixels: seq<byte>, w: nat, h: nat, x: nat, y: nat, c: nat)
    requires IsSqrt(sqrt) && IsRgba(depthPixels, w, h) && x < w && y < h && c < 4
    ensures |NormalMapSpec(sqrt, depthPixels, w, h)| == w * h * 4
    ensures 4 * Offset(w, x, y) + c < w * h * 4
    ensures IsInterior(w, h, x, y) ==>
      NormalMapSpec(sqrt, depthPixels, w, h)[4 * Offset(w, x, y) + c] == EncodeNormal(SurfaceNormal(sqrt, depthPixels, w, h, x, y))[c]
    ensures IsInterior(w, h, x, y) && c == 3 ==> NormalMapSpec(sqrt, depthPixels, w, h)[4 * Offset(w, x, y) + c] == 255
    ensures !IsInterior(w, h, x, y) ==> NormalMapSpec(sqrt, depthPixels, w, h)[4 * Offset(w, x, y) + c] == 0
  {
    OffsetInRange(w, h, x, y);
    OffsetCoordinates(w, x, y);
    var k := 4 * Offset(w, x, y) + c;
    assert k / 4 == Offset(w, x, y) && k % 4 == c;
  }

  /** A component of a unit vector lies in [-1, 1]. */
  lemma UnitComponent(a: real, b: real, c: real)
    requires SquaredLength(a, b, c) == 1.0
    ensures -1.0 <= a <= 1.0
  {
    assert 0.0 <= b * b + c * c by {
      SquareNonNegative(b);
      SquareNonNegative(c);
    }
    if a < 0.0 {
      assert a * a == (-a) * (-a);
      OrderedBySquares(-a, 1.0);
    } else {
      OrderedBySquares(a, 1.0);
    }
  }

  /** The square of a real is non-negative. */
  lemma SquareNonNegative(a: real)
    ensures 0.0 <= a * a
  {
    if a < 0.0 {
      assert a * a == (-a) * (-a);
    }
  }

  /**
   * Decoding an encoded unit normal that faces the viewer recovers it to
   * within the rounding of the byte store: R and G are within half a step
   * of (n * 0.5 + 0.5) * 255, B of n.z * 255, and B is at least 85 when
   * n.z >= 1/3.
   */
  lemma EncodeNormalRounding(n: Normal)
    requires SquaredLength(n.x, n.y, n.z) == 1.0 && 0.0 < n.z
    ensures var px := EncodeNormal(n);
      && -0.5 <= px[0] as real - (n.x * 0.5 + 0.5) * 255.0 <= 0.5
      && -0.5 <= px[1] as real - (n.y * 0.5 + 0.5) * 255.0 <= 0.5
      && -0.5 <= px[2] as real - n.z * 255.0 <= 0.5
      && px[3] == 255
      && (1.0 / 3.0 <= n.z ==> 85 <= px[2])
  {
    UnitComponent(n.x, n.y, n.z);
    UnitComponent(n.y, n.x, n.z);
    UnitComponent(n.z, n.x, n.y);
    if 1.0 / 3.0 <= n.z {
      ClampToByteMonotone(85.0, n.z * 255.0);
    }
  }

  /**
   * The red byte of the unit normal along (dx, dy, 1) is at least 128
   * exactly when dx >= 0, and the green byte exactly when dy >= 0.
   */
  lemma UnitNormalSlopeSign(sqrt: real -> real, dx: real, dy: real)
    requires IsSqrt(sqrt) && -2.0 <= dx <= 2.0 && -2.0 <= dy <= 2.0
    ensures var px := EncodeNormal(UnitNormal(sqrt, dx, dy));
      && (128 <= px[0] <==> 0.0 <= dx)
      && (128 <= px[1] <==> 0.0 <= dy)
  {
    var n := UnitNormal(sqrt, dx, dy);
    ComponentSignByte(n.x, dx, n.z);
    ComponentSignByte(n.y, dy, n.z);
  }

  /**
   * The red byte of an interior pixel is at least 128 exactly when the
   * depth to its right is at least the depth to its left.
   */
  lemma NormalEncodesSlopeSignX(sqrt: real -> real, depthPixels: seq<byte>, w: nat, h: nat, x: nat, y: nat)
    requires IsSqrt(sqrt) && IsRgba(depthPixels, w, h) && IsInterior(w, h, x, y)
    ensures 128 <= EncodeNormal(SurfaceNormal(sqrt, depthPixels, w, h, x, y))[0]
            <==> Depth(depthPixels, w, h, x - 1, y) <= Depth(depthPixels, w, h, x + 1, y)
  {
    UnitNormalSlopeSign(sqrt, SlopeX(depthPixels, w, h, x, y), SlopeY(depthPixels, w, h, x, y));
  }

  /**
   * The green byte of an interior pixel is at least 128 exactly when the
   * depth below it is at least the depth above it.
   */
  lemma NormalEncodesSlopeSignY(sqrt: real -> real, depthPixels: seq<byte>, w: nat, h: nat, x: nat, y: nat)
    requires IsSqrt(sqrt) && IsRgba(depthPixels, w, h) && IsInterior(w, h, x, y)
    ensures 128 <= EncodeNormal(SurfaceNormal(sqrt, depthPixels, w, h, x, y))[1]
            <==> Depth(depthPixels, w, h, x, y - 1) <= Depth(depthPixels, w, h, x, y + 1)
  {
    UnitNormalSlopeSign(sqrt, SlopeX(depthPixels, w, h, x, y), SlopeY(depthPixels, w, h, x, y));
  }

  /** For a = d * z with z > 0: the encoded byte of a is at least 128 exactly when d >= 0. */
  lemma ComponentSignByte(a: real, d: real, z: real)
    requires a == d * z && 0.0 < z
    ensures 128 <= ClampToByte((a * 0.5 + 0.5) * 255.0) <==> 0.0 <= d
  {
    if 0.0 <= d {
      assert 0.0 <= a;
      ClampToByteMonotone(127.5, (a * 0.5 + 0.5) * 255.0);
    } else {
      assert a < 0.0;
    }
  }

  /**
   * Where the depth is level across a pixel in both directions, its normal
   * points straight at the viewer and encodes as (128, 128, 255, 255).
   */
  lemma LevelDepthFacesViewer(sqrt: real -> real, depthPixels: seq<byte>, w: nat, h: nat, x: nat, y: nat)
    requires IsSqrt(sqrt) && IsRgba(depthPixels, w, h) && IsInterior(w, h, x, y)
    requires Depth(depthPixels, w, h, x - 1, y) == Depth(depthPixels, w, h, x + 1, y)
    requires Depth(depthPixels, w, h, x, y - 1) == Depth(depthPixels, w, h, x, y + 1)
    ensures SurfaceNormal(sqrt, depthPixels, w, h, x, y) == Normal(0.0, 0.0, 1.0)
    ensures EncodeNormal(SurfaceNormal(sqrt, depthPixels, w, h, x, y)) == [128, 128, 255, 255]
  {
    assert SquaredLength(0.0, 0.0, 1.0) == 1.0;
    SqrtUnique(sqrt, 1.0, 1.0);
    assert ClampToByte(127.5) == 128;
  }
}
