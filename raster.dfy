/**
 * Flat, row-major raster buffers. A W x H image keeps pixel (x, y) at
 * offset y * W + x; in an RGBA buffer its red, green, blue and alpha bytes
 * sit at 4 * (y * W + x) + 0, 1, 2, 3. Row 0 is the top of the image.
 */
module Raster {
  import opened Bytes

  /** An RGBA8 buffer of a W x H image. */
  predicate IsRgba(data: seq<byte>, w: nat, h: nat)
  {
    |data| == w * h * 4
  }

  /** The pixel offset `y * width + x`. */
  function Offset(w: nat, x: nat, y: nat): nat
  {
    y * w + x
  }

  /** Pixels with all eight neighbours inside the image: 1 <= x <= W-2, 1 <= y <= H-2. */
  predicate IsInterior(w: nat, h: nat, x: nat, y: nat)
  {
    1 <= x && x + 2 <= w && 1 <= y && y + 2 <= h
  }

  /** The column of the pixel at a given offset. */
  function Col(w: nat, k: nat): nat
    requires 0 < w
  {
    k % w
  }

  /** The row of the pixel at a given offset. */
  function Row(w: nat, k: nat): nat
    requires 0 < w
  {
    k / w
  }

  lemma MulMonotone(a: int, b: int, c: int)
    requires a <= b && 0 <= c
    ensures a * c <= b * c
  {
    assert b * c - a * c == (b - a) * c;
  }

  /** A pixel inside the image has its offset inside the W * H range. */
  lemma OffsetInRange(w: nat, h: nat, x: nat, y: nat)
    requires x < w && y < h
    ensures Offset(w, x, y) < w * h
    ensures 4 * Offset(w, x, y) + 3 < w * h * 4
  {
    MulMonotone(y, h - 1, w);
    assert (h - 1) * w == h * w - w;
  }

  /** An offset determines its pixel: the column and row are recovered. */
  lemma OffsetCoordinates(w: nat, x: nat, y: nat)
    requires x < w
    ensures Col(w, Offset(w, x, y)) == x && Row(w, Offset(w, x, y)) == y
  {
    var k := y * w + x;
    var q, r := k / w, k % w;
    assert q * w + r == k && 0 <= r < w;
    assert (y + 1) * w == y * w + w && (q + 1) * w == q * w + w;
    if q > y {
      MulMonotone(y + 1, q, w);
    } else if q < y {
      MulMonotone(q + 1, y, w);
    }
    assert q == y;
  }

  /** Every offset below W * H is the offset of a pixel of the image. */
  lemma CoordinatesOfOffset(w: nat, h: nat, k: nat)
    requires k < w * h
    ensures 0 < w
    ensures Col(w, k) < w && Row(w, k) < h
    ensures Offset(w, Col(w, k), Row(w, k)) == k
  {
    var q := k / w;
    assert q * w + k % w == k;
    if q >= h {
      MulMonotone(h, q, w);
    }
  }

  /** All offsets below W * H at once, and all in-image pixels at once. */
  lemma AllCoordinates(w: nat, h: nat)
    ensures forall k: nat {:trigger Row(w, k)} :: k < w * h ==>
      0 < w && Col(w, k) < w && Row(w, k) < h && Offset(w, Col(w, k), Row(w, k)) == k
    ensures forall x: nat, y: nat {:trigger Offset(w, x, y)} :: x < w && y < h ==>
      Offset(w, x, y) < w * h && Col(w, Offset(w, x, y)) == x && Row(w, Offset(w, x, y)) == y
  {
    forall k: nat | k < w * h
      ensures 0 < w && Col(w, k) < w && Row(w, k) < h && Offset(w, Col(w, k), Row(w, k)) == k
    {
      CoordinatesOfOffset(w, h, k);
    }
    forall x: nat, y: nat | x < w && y < h
      ensures Offset(w, x, y) < w * h && Col(w, Offset(w, x, y)) == x && Row(w, Offset(w, x, y)) == y
    {
      OffsetInRange(w, h, x, y);
      OffsetCoordinates(w, x, y);
    }
  }

  /** `Math.floor(t * n)` for t in [0, 1]: an integer in [0, n], the coordinate a fraction t along n. */
  function ScaledFloor(t: real, n: nat): (f: nat)
    requires 0.0 <= t <= 1.0
    ensures f <= n
    ensures f as real <= t * n as real < f as real + 1.0
  {
    assert 0.0 <= t * n as real <= n as real by {
      assert n as real - t * n as real == (1.0 - t) * n as real;
    }
    (t * n as real).Floor
  }

  /** A larger fraction never gives a smaller coordinate. */
  lemma ScaledFloorMonotone(s: real, t: real, n: nat)
    requires 0.0 <= s <= t <= 1.0
    ensures ScaledFloor(s, n) <= ScaledFloor(t, n)
  {
    var sn, tn := s * n as real, t * n as real;
    assert sn <= tn by {
      assert tn - sn == (t - s) * n as real;
    }
    var f, g := ScaledFloor(s, n), ScaledFloor(t, n);
    assert f as real <= sn && tn < g as real + 1.0;
    assert (f as int) < (g as int) + 1;
  }

  /** Byte `c` of pixel (x, y) of an RGBA buffer, as a number. */
  function Channel(data: seq<byte>, w: nat, h: nat, x: nat, y: nat, c: nat): (v: real)
    requires IsRgba(data, w, h) && x < w && y < h && c < 4
    ensures 0.0 <= v <= 255.0
  {
    OffsetInRange(w, h, x, y);
    data[4 * Offset(w, x, y) + c] as real
  }
}
