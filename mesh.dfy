/**
 * The displacement loop of `createMeshFromDepthMap`: every vertex of the
 * plane's flat position buffer (x, y, z per vertex) samples the depth
 * pixel at column floor(u * (W - 1)) and row floor((1 - v) * (H - 1)), u and
 * v its texture coordinates, and has its z overwritten with depth * 0.5.
 */
module MeshBuilder {
  import opened Bytes
  import opened Raster

  /**
   * `Math.max(0, Math.min(1, p / 2 + 0.5))`: the texture coordinate of a
   * plane coordinate, u from x and v from y.
   */
  function TextureCoord(p: real): (t: real)
    ensures 0.0 <= t <= 1.0
    ensures -1.0 <= p <= 1.0 ==> t == p / 2.0 + 0.5
    ensures p <= -1.0 ==> t == 0.0
    ensures 1.0 <= p ==> t == 1.0
  {
    Clamp01(p / 2.0 + 0.5)
  }

  /** `pixelX = Math.floor(u * (width - 1))`. */
  function SampleColumn(w: nat, vx: real): (px: nat)
    requires 0 < w
    ensures px < w
  {
    ScaledFloor(TextureCoord(vx), w - 1)
  }

  /** `pixelY = Math.floor((1 - v) * (height - 1))`: the texture's v runs bottom to top, rows top to bottom. */
  function SampleRow(h: nat, vy: real): (py: nat)
    requires 0 < h
    ensures py < h
  {
    ScaledFloor(1.0 - TextureCoord(vy), h - 1)
  }

  /** `pixelIndex = (pixelY * width + pixelX) * 4`, the red byte of the sampled pixel. */
  function SampleIndex(w: nat, h: nat, vx: real, vy: real): (i: nat)
    requires 0 < w && 0 < h
    ensures i + 3 < w * h * 4
  {
    OffsetInRange(w, h, SampleColumn(w, vx), SampleRow(h, vy));
    4 * Offset(w, SampleColumn(w, vx), SampleRow(h, vy))
  }

  /** `depth * 0.5` with depth the sampled red byte / 255: the new z of a vertex at (vx, vy). */
  function DisplacedZ(depthPixels: seq<byte>, w: nat, h: nat, vx: real, vy: real): (z: real)
    requires IsRgba(depthPixels, w, h) && 0 < w && 0 < h
    ensures 0.0 <= z <= 0.5
  {
    depthPixels[SampleIndex(w, h, vx, vy)] as real / 255.0 * 0.5
  }

  /**
   * The position buffer after displacement: entry 3i + 2 of every complete
   * vertex i is its new z; every other entry is as before.
   */
  function Displaced(vertices: seq<real>, depthPixels: seq<byte>, w: nat, h: nat): (r: seq<real>)
    requires IsRgba(depthPixels, w, h) && 0 < w && 0 < h
    ensures |r| == |vertices|
  {
    seq(|vertices|, k requires 0 <= k < |vertices| =>
      if k % 3 == 2 then DisplacedZ(depthPixels, w, h, vertices[k - 2], vertices[k - 1]) else vertices[k])
  }

  /** The position buffer once the first i vertices have been displaced. */
  ghost predicate DisplacedUpTo(orig: seq<real>, cur: seq<real>, depthPixels: seq<byte>, w: nat, h: nat, i: nat)
    requires IsRgba(depthPixels, w, h) && 0 < w && 0 < h
  {
    && |cur| == |orig|
    && forall k {:trigger cur[k]} :: 0 <= k < |cur| ==>
         cur[k] == if k % 3 == 2 && k / 3 < i then DisplacedZ(depthPixels, w, h, orig[k - 2], orig[k - 1]) else orig[k]
  }

  /** Displacing vertex i reads its untouched x and y and advances the buffer to i + 1 vertices. */
  lemma DisplaceStep(orig: seq<real>, cur: seq<real>, depthPixels: seq<byte>, w: nat, h: nat, i: nat)
    requires IsRgba(depthPixels, w, h) && 0 < w && 0 < h && 3 * i + 2 < |orig|
    requires DisplacedUpTo(orig, cur, depthPixels, w, h, i)
    ensures cur[3 * i] == orig[3 * i] && cur[3 * i + 1] == orig[3 * i + 1]
    ensures DisplacedUpTo(orig, cur[3 * i + 2 := DisplacedZ(depthPixels, w, h, cur[3 * i], cur[3 * i + 1])],
                          depthPixels, w, h, i + 1)
  {
    assert (3 * i) % 3 == 0 && (3 * i + 1) % 3 == 1;
    var z := DisplacedZ(depthPixels, w, h, cur[3 * i], cur[3 * i + 1]);
    var next := cur[3 * i + 2 := z];
    forall k | 0 <= k < |next|
      ensures next[k] == if k % 3 == 2 && k / 3 < i + 1 then DisplacedZ(depthPixels, w, h, orig[k - 2], orig[k - 1]) else orig[k]
    {
      assert k == 3 * (k / 3) + k % 3;
      if k == 3 * i + 2 {
        assert k % 3 == 2 && k / 3 == i;
      } else {
        assert next[k] == cur[k];
      }
    }
  }

  /** Once every complete vertex is displaced, the buffer is the displaced buffer. */
  lemma DisplaceComplete(orig: seq<real>, cur: seq<real>, depthPixels: seq<byte>, w: nat, h: nat)
    requires IsRgba(depthPixels, w, h) && 0 < w && 0 < h
    requires DisplacedUpTo(orig, cur, depthPixels, w, h, |orig| / 3)
    ensures cur == Displaced(orig, depthPixels, w, h)
  {
    forall k | 0 <= k < |cur|
      ensures cur[k] == Displaced(orig, depthPixels, w, h)[k]
    {
      if k % 3 == 2 {
        assert k / 3 < |orig| / 3;
      }
    }
  }

  /** The displacement loop: overwrite the z of every vertex, in order, in place. */
  method Displace(vertices: array<real>, depthPixels: array<byte>, w: nat, h: nat)
    requires IsRgba(depthPixels[..], w, h) && 0 < w && 0 < h
    modifies vertices
    ensures vertices[..] == Displaced(old(vertices[..]), depthPixels[..], w, h)
  {
    ghost var orig := vertices[..];
    var i := 0;
    while i < vertices.Length / 3
      invariant 0 <= i <= vertices.Length / 3
      invariant DisplacedUpTo(orig, vertices[..], depthPixels[..], w, h, i)
    {
      DisplaceStep(orig, vertices[..], depthPixels[..], w, h, i);
      var x := vertices[i * 3];
      var y := vertices[i * 3 + 1];
      vertices[i * 3 + 2] := DisplacedZ(depthPixels[..], w, h, x, y);
      i := i + 1;
    }
    DisplaceComplete(orig, vertices[..], depthPixels[..], w, h);
  }

  // ---------------------------------------------------------------------
  // Properties
  // ---------------------------------------------------------------------

  /**
   * Displacement keeps the x and y of every vertex and replaces its z with
   * the sampled depth byte / 255 * 0.5, a value in [0, 0.5].
   */
  lemma DisplacedVertex(vertices: seq<real>, depthPixels: seq<byte>, w: nat, h: nat, i: nat)
    requires IsRgba(depthPixels, w, h) && 0 < w && 0 < h && 3 * i + 2 < |vertices|
    ensures var r := Displaced(vertices, depthPixels, w, h);
      && |r| == |vertices|
      && r[3 * i] == vertices[3 * i]
      && r[3 * i + 1] == vertices[3 * i + 1]
      && r[3 * i + 2] == depthPixels[SampleIndex(w, h, vertices[3 * i], vertices[3 * i + 1])] as real / 255.0 * 0.5
      && 0.0 <= r[3 * i + 2] <= 0.5
  {
    assert (3 * i) % 3 == 0 && (3 * i + 1) % 3 == 1 && (3 * i + 2) % 3 == 2;
  }

  /** The sampled column and row of a vertex and the bytes its index reaches lie inside the image. */
  lemma SampleInImage(w: nat, h: nat, vx: real, vy: real)
    requires 0 < w && 0 < h
    ensures SampleColumn(w, vx) <= w - 1 && SampleRow(h, vy) <= h - 1
    ensures SampleIndex(w, h, vx, vy) == 4 * (SampleRow(h, vy) * w + SampleColumn(w, vx))
    ensures SampleIndex(w, h, vx, vy) + 3 < w * h * 4
  {
  }

  /**
   * The vertical flip: a vertex at y >= 1 (the top of a plane whose height
   * is at least its width) samples image row 0, one at y <= -1 samples the
   * last row; x <= -1 samples column 0 and x >= 1 the last column.
   */
  lemma SampleEdges(w: nat, h: nat, vx: real, vy: real)
    requires 0 < w && 0 < h
    ensures 1.0 <= vy ==> SampleRow(h, vy) == 0
    ensures vy <= -1.0 ==> SampleRow(h, vy) == h - 1
    ensures vx <= -1.0 ==> SampleColumn(w, vx) == 0
    ensures 1.0 <= vx ==> SampleColumn(w, vx) == w - 1
  {
  }

  /**
   * Sampling is monotone: a higher vertex never samples a lower image row,
   * and a vertex further right never samples a column further left.
   */
  lemma SampleMonotone(w: nat, h: nat, vx1: real, vy1: real, vx2: real, vy2: real)
    requires 0 < w && 0 < h && vx1 <= vx2 && vy1 <= vy2
    ensures SampleColumn(w, vx1) <= SampleColumn(w, vx2)
    ensures SampleRow(h, vy2) <= SampleRow(h, vy1)
  {
    ScaledFloorMonotone(TextureCoord(vx1), TextureCoord(vx2), w - 1);
    ScaledFloorMonotone(1.0 - TextureCoord(vy2), 1.0 - TextureCoord(vy1), h - 1);
  }

  /**
   * The plane's top edge sits at y = H / W. It samples row 0 whenever
   * H >= W (then y >= 1, `SampleEdges`); a wider image may sample a lower
   * row: with W = 20 and H = 10 the top edge y = 0.5 samples row 2, while
   * with W = 11 and H = 10 the top edge y = 10 / 11 still samples row 0.
   */
  lemma WideImageTopEdgeRow()
    ensures SampleRow(10, 0.5) == 2
    ensures SampleRow(10, 10.0 / 11.0) == 0
  {
    assert TextureCoord(10.0 / 11.0) == 21.0 / 22.0;
    assert (1.0 - 21.0 / 22.0) * 9.0 == 9.0 / 22.0;
    assert TextureCoord(0.5) == 0.75;
    assert (1.0 - 0.75) * 9.0 == 2.25;
  }
}
