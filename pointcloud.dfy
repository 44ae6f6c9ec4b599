/**
 * The point-sampling loop of `DepthPointCloudModel`: random pixels are
 * drawn, transparent ones (alpha / 255 < 0.5) are rejected and redrawn,
 * and each accepted pixel fills the next slot of the position and colour
 * buffers. `Math.random` is a finite sequence of draws in [0, 1), two per
 * attempt (x first, then y); when the draws run out before every slot is
 * filled the model reports it instead of drawing forever.
 */
module PointCloud {
  import opened Bytes
  import opened Raster

  /** A pixel an attempt hit. */
  datatype Sample = Sample(x: nat, y: nat)

  /** Three numbers of one slot of a `Float32Array` of triples. */
  datatype Triple = Triple(a: real, b: real, c: real)

  predicate IsDraw(r: real)
  {
    0.0 <= r < 1.0
  }

  /** Every value `Math.random` returned lies in [0, 1). */
  predicate AreDraws(draws: seq<real>)
  {
    forall i :: 0 <= i < |draws| ==> IsDraw(draws[i])
  }

  /** `Math.floor(Math.random() * n)`: a coordinate in [0, n). */
  function DrawCoord(r: real, n: nat): (c: nat)
    requires IsDraw(r) && 0 < n
    ensures c < n
    ensures c as real <= r * n as real < c as real + 1.0
  {
    assert r * n as real < n as real by {
      assert n as real - r * n as real == (1.0 - r) * n as real;
    }
    ScaledFloor(r, n)
  }

  /** The pixel of attempt t: draws 2t and 2t + 1. */
  function AttemptPixel(draws: seq<real>, w: nat, h: nat, t: nat): (s: Sample)
    requires AreDraws(draws) && 2 * t + 1 < |draws| && 0 < w && 0 < h
    ensures s.x < w && s.y < h
  {
    Sample(DrawCoord(draws[2 * t], w), DrawCoord(draws[2 * t + 1], h))
  }

  /** `a < 0.5` fails, with a = alpha byte / 255: the pixel is kept. */
  predicate IsOpaque(image: seq<byte>, w: nat, h: nat, s: Sample)
    requires IsRgba(image, w, h) && s.x < w && s.y < h
  {
    !(Channel(image, w, h, s.x, s.y, 3) / 255.0 < 0.5)
  }

  /** The pixels of the first n attempts that were kept, in order of attempt. */
  function AcceptedPixels(image: seq<byte>, w: nat, h: nat, draws: seq<real>, n: nat): (acc: seq<Sample>)
    requires IsRgba(image, w, h) && 0 < w && 0 < h && AreDraws(draws) && 2 * n <= |draws|
    ensures |acc| <= n
    ensures forall j :: 0 <= j < |acc| ==> acc[j].x < w && acc[j].y < h && IsOpaque(image, w, h, acc[j])
  {
    if n == 0 then []
    else
      var s := AttemptPixel(draws, w, h, n - 1);
      AcceptedPixels(image, w, h, draws, n - 1) + (if IsOpaque(image, w, h, s) then [s] else [])
  }

  /** `xPos`, `yPos` and `zPos` of an accepted pixel. */
  function PositionOf(depthPixels: seq<byte>, w: nat, h: nat, s: Sample): Triple
    requires IsRgba(depthPixels, w, h) && s.x < w && s.y < h
  {
    var depth := Channel(depthPixels, w, h, s.x, s.y, 0) / 255.0;
    Triple(s.x as real / w as real * 2.0 - 1.0, -(s.y as real / h as real * 2.0 - 1.0), depth * 0.5 - 0.25)
  }

  /** `r`, `g` and `b` of an accepted pixel. */
  function ColorOf(image: seq<byte>, w: nat, h: nat, s: Sample): Triple
    requires IsRgba(image, w, h) && s.x < w && s.y < h
  {
    Triple(Channel(image, w, h, s.x, s.y, 0) / 255.0, Channel(image, w, h, s.x, s.y, 1) / 255.0,
           Channel(image, w, h, s.x, s.y, 2) / 255.0)
  }

  function Component(t: Triple, c: nat): real
    requires c < 3
  {
    if c == 0 then t.a else if c == 1 then t.b else t.c
  }

  /** A buffer of `slots` triples whose first |values| slots hold `values`, the rest zero. */
  function TripleBuffer(values: seq<Triple>, slots: nat): (buf: seq<real>)
    requires |values| <= slots
    ensures |buf| == 3 * slots
  {
    seq(3 * slots, k requires 0 <= k < 3 * slots => if k / 3 < |values| then Component(values[k / 3], k % 3) else 0.0)
  }

  function Positions(depthPixels: seq<byte>, w: nat, h: nat, samples: seq<Sample>): (ps: seq<Triple>)
    requires IsRgba(depthPixels, w, h) && forall j :: 0 <= j < |samples| ==> samples[j].x < w && samples[j].y < h
    ensures |ps| == |samples|
  {
    seq(|samples|, j requires 0 <= j < |samples| => PositionOf(depthPixels, w, h, samples[j]))
  }

  function Colors(image: seq<byte>, w: nat, h: nat, samples: seq<Sample>): (cs: seq<Triple>)
    requires IsRgba(image, w, h) && forall j :: 0 <= j < |samples| ==> samples[j].x < w && samples[j].y < h
    ensures |cs| == |samples|
  {
    seq(|samples|, j requires 0 <= j < |samples| => ColorOf(image, w, h, samples[j]))
  }

  /** Accepting one more attempt extends the accepted pixels and every earlier prefix stays. */
  lemma {:induction false} AcceptedPrefix(image: seq<byte>, w: nat, h: nat, draws: seq<real>, n: nat, m: nat)
    requires IsRgba(image, w, h) && 0 < w && 0 < h && AreDraws(draws) && n <= m && 2 * m <= |draws|
    ensures AcceptedPixels(image, w, h, draws, n) <= AcceptedPixels(image, w, h, draws, m)
  {
    if n < m {
      AcceptedPrefix(image, w, h, draws, n, m - 1);
    }
  }

  /** Appending a triple to the values fills the next slot of the buffer. */
  lemma TripleBufferAppend(values: seq<Triple>, t: Triple, slots: nat)
    requires |values| < slots
    ensures var i := |values|;
      TripleBuffer(values + [t], slots) == TripleBuffer(values, slots)[3 * i := t.a][3 * i + 1 := t.b][3 * i + 2 := t.c]
  {
    var i := |values|;
    var lhs := TripleBuffer(values + [t], slots);
    var rhs := TripleBuffer(values, slots)[3 * i := t.a][3 * i + 1 := t.b][3 * i + 2 := t.c];
    forall k | 0 <= k < 3 * slots
      ensures lhs[k] == rhs[k]
    {
      if k / 3 == i {
        assert k == 3 * i + k % 3;
      } else {
        assert k < 3 * i || 3 * i + 2 < k;
      }
    }
  }

  /** The buffers after n attempts: one slot per kept pixel, in order, the other slots still zero. */
  ghost predicate SlotsFilled(image: seq<byte>, depthPixels: seq<byte>, w: nat, h: nat, draws: seq<real>, numPoints: nat,
                              n: nat, points: seq<real>, colors: seq<real>)
    requires IsRgba(image, w, h) && IsRgba(depthPixels, w, h) && 0 < w && 0 < h && AreDraws(draws) && 2 * n <= |draws|
  {
    var acc := AcceptedPixels(image, w, h, draws, n);
    && |acc| <= numPoints
    && points == TripleBuffer(Positions(depthPixels, w, h, acc), numPoints)
    && colors == TripleBuffer(Colors(image, w, h, acc), numPoints)
  }

  /** A rejected attempt leaves the accepted pixels, and so the buffers, as they were. */
  lemma RejectStep(image: seq<byte>, depthPixels: seq<byte>, w: nat, h: nat, draws: seq<real>, numPoints: nat,
                   n: nat, points: seq<real>, colors: seq<real>)
    requires IsRgba(image, w, h) && IsRgba(depthPixels, w, h) && 0 < w && 0 < h && AreDraws(draws) && 2 * n + 1 < |draws|
    requires !IsOpaque(image, w, h, AttemptPixel(draws, w, h, n))
    requires SlotsFilled(image, depthPixels, w, h, draws, numPoints, n, points, colors)
    ensures AcceptedPixels(image, w, h, draws, n + 1) == AcceptedPixels(image, w, h, draws, n)
    ensures SlotsFilled(image, depthPixels, w, h, draws, numPoints, n + 1, points, colors)
  {
  }

  /** A kept attempt fills slot i, the next free one, with its position and colour. */
  lemma AcceptStep(image: seq<byte>, depthPixels: seq<byte>, w: nat, h: nat, draws: seq<real>, numPoints: nat,
                   n: nat, points: seq<real>, colors: seq<real>)
    requires IsRgba(image, w, h) && IsRgba(depthPixels, w, h) && 0 < w && 0 < h && AreDraws(draws) && 2 * n + 1 < |draws|
    requires IsOpaque(image, w, h, AttemptPixel(draws, w, h, n))
    requires SlotsFilled(image, depthPixels, w, h, draws, numPoints, n, points, colors)
    requires |AcceptedPixels(image, w, h, draws, n)| < numPoints
    ensures var i := |AcceptedPixels(image, w, h, draws, n)|;
            var s := AttemptPixel(draws, w, h, n);
            var p := PositionOf(depthPixels, w, h, s);
            var c := ColorOf(image, w, h, s);
      && |AcceptedPixels(image, w, h, draws, n + 1)| == i + 1
      && 3 * i + 2 < |points| && 3 * i + 2 < |colors|
      && SlotsFilled(image, depthPixels, w, h, draws, numPoints, n + 1,
                     points[3 * i := p.a][3 * i + 1 := p.b][3 * i + 2 := p.c],
                     colors[3 * i := c.a][3 * i + 1 := c.b][3 * i + 2 := c.c])
  {
    var acc := AcceptedPixels(image, w, h, draws, n);
    var s := AttemptPixel(draws, w, h, n);
    assert AcceptedPixels(image, w, h, draws, n + 1) == acc + [s];
    assert Positions(depthPixels, w, h, acc + [s]) == Positions(depthPixels, w, h, acc) + [PositionOf(depthPixels, w, h, s)];
    assert Colors(image, w, h, acc + [s]) == Colors(image, w, h, acc) + [ColorOf(image, w, h, s)];
    TripleBufferAppend(Positions(depthPixels, w, h, acc), PositionOf(depthPixels, w, h, s), numPoints);
    TripleBufferAppend(Colors(image, w, h, acc), ColorOf(image, w, h, s), numPoints);
  }

  /**
   * When the loop stops, either every slot is filled from a prefix of all
   * the accepted pixels, or the draws ran out with fewer pixels kept than
   * slots.
   */
  lemma SamplingDone(image: seq<byte>, depthPixels: seq<byte>, w: nat, h: nat, draws: seq<real>, numPoints: nat,
                     n: nat, points: seq<real>, colors: seq<real>)
    requires IsRgba(image, w, h) && IsRgba(depthPixels, w, h) && 0 < w && 0 < h && AreDraws(draws) && 2 * n <= |draws|
    requires SlotsFilled(image, depthPixels, w, h, draws, numPoints, n, points, colors)
    requires |AcceptedPixels(image, w, h, draws, n)| == numPoints || |draws| <= 2 * n + 1
    ensures var all := AcceptedPixels(image, w, h, draws, |draws| / 2);
            var ok := |AcceptedPixels(image, w, h, draws, n)| == numPoints;
      && (ok <==> numPoints <= |all|)
      && var taken := if ok then all[..numPoints] else all;
      && points == TripleBuffer(Positions(depthPixels, w, h, taken), numPoints)
      && colors == TripleBuffer(Colors(image, w, h, taken), numPoints)
  {
    AcceptedPrefix(image, w, h, draws, n, |draws| / 2);
    if |AcceptedPixels(image, w, h, draws, n)| != numPoints {
      assert n == |draws| / 2;
    }
  }

  /** The three stores of one slot, in source order. */
  method StoreSlot(buf: array<real>, i: nat, t: Triple)
    requires 3 * i + 2 < buf.Length
    modifies buf
    ensures buf[..] == old(buf[..])[3 * i := t.a][3 * i + 1 := t.b][3 * i + 2 := t.c]
  {
    buf[i * 3] := t.a;
    buf[i * 3 + 1] := t.b;
    buf[i * 3 + 2] := t.c;
  }

  /**
   * One iteration of the sampling loop: draw a pixel, reject it when
   * transparent, otherwise fill slot i. Returns the next free slot.
   */
  method Attempt(image: array<byte>, depthPixels: array<byte>, w: nat, h: nat, numPoints: nat, draws: seq<real>,
                 attempts: nat, i: nat, points: array<real>, colors: array<real>) returns (next: nat)
    requires IsRgba(image[..], w, h) && IsRgba(depthPixels[..], w, h) && 0 < w && 0 < h && AreDraws(draws)
    requires 2 * attempts + 1 < |draws| && i < numPoints && i == |AcceptedPixels(image[..], w, h, draws, attempts)|
    requires points != colors
    requires SlotsFilled(image[..], depthPixels[..], w, h, draws, numPoints, attempts, points[..], colors[..])
    modifies points, colors
    ensures next == |AcceptedPixels(image[..], w, h, draws, attempts + 1)|
    ensures SlotsFilled(image[..], depthPixels[..], w, h, draws, numPoints, attempts + 1, points[..], colors[..])
  {
    var x := DrawCoord(draws[2 * attempts], w);
    var y := DrawCoord(draws[2 * attempts + 1], h);
    OffsetInRange(w, h, x, y);
    var pixelIndex := 4 * Offset(w, x, y);
    var r := image[pixelIndex] as real / 255.0;
    var g := image[pixelIndex + 1] as real / 255.0;
    var b := image[pixelIndex + 2] as real / 255.0;
    var a := image[pixelIndex + 3] as real / 255.0;
    ghost var img, dep := image[..], depthPixels[..];
    ghost var s := AttemptPixel(draws, w, h, attempts);
    assert s == Sample(x, y);
    assert IsOpaque(img, w, h, s) <==> !(a < 0.5);
    if a < 0.5 {
      // Rejected: `i--` undoes the loop's increment, so slot i waits for the next attempt.
      RejectStep(img, dep, w, h, draws, numPoints, attempts, points[..], colors[..]);
      next := i;
    } else {
      AcceptStep(img, dep, w, h, draws, numPoints, attempts, points[..], colors[..]);
      var depth := depthPixels[pixelIndex] as real / 255.0;
      var xPos := x as real / w as real * 2.0 - 1.0;
      var yPos := -(y as real / h as real * 2.0 - 1.0);
      var zPos := depth * 0.5 - 0.25;
      assert Triple(xPos, yPos, zPos) == PositionOf(dep, w, h, s);
      assert Triple(r, g, b) == ColorOf(img, w, h, s);
      StoreSlot(points, i, Triple(xPos, yPos, zPos));
      StoreSlot(colors, i, Triple(r, g, b));
      assert image[..] == img && depthPixels[..] == dep;
      next := i + 1;
    }
  }

  /**
   * The sampling loop. `numPoints` slots of three numbers each are filled
   * from the accepted pixels in order; `ok` says whether the draws lasted
   * until every slot was filled.
   */
  method SamplePoints(image: array<byte>, depthPixels: array<byte>, w: nat, h: nat, numPoints: nat, draws: seq<real>)
    returns (ok: bool, points: array<real>, colors: array<real>)
    requires IsRgba(image[..], w, h) && IsRgba(depthPixels[..], w, h) && 0 < w && 0 < h && AreDraws(draws)
    ensures fresh(points) && fresh(colors) && points != colors
    ensures var all := AcceptedPixels(image[..], w, h, draws, |draws| / 2);
      && (ok <==> numPoints <= |all|)
      && var taken := if ok then all[..numPoints] else all;
      && points[..] == TripleBuffer(Positions(depthPixels[..], w, h, taken), numPoints)
      && colors[..] == TripleBuffer(Colors(image[..], w, h, taken), numPoints)
  {
    points := new real[numPoints * 3](_ => 0.0);
    colors := new real[numPoints * 3](_ => 0.0);
    var i := 0;
    var attempts := 0;
    while i < numPoints && 2 * attempts + 1 < |draws|
      invariant 2 * attempts <= |draws|
      invariant i == |AcceptedPixels(image[..], w, h, draws, attempts)| && i <= numPoints
      invariant points.Length == 3 * numPoints && colors.Length == 3 * numPoints
      invariant SlotsFilled(image[..], depthPixels[..], w, h, draws, numPoints, attempts, points[..], colors[..])
      decreases |draws| - 2 * attempts
    {
      i := Attempt(image, depthPixels, w, h, numPoints, draws, attempts, i, points, colors);
      attempts := attempts + 1;
    }
    ok := i == numPoints;
    SamplingDone(image[..], depthPixels[..], w, h, draws, numPoints, attempts, points[..], colors[..]);
  }

  // ---------------------------------------------------------------------
  // Properties
  // ---------------------------------------------------------------------

  /** A pixel is kept exactly when its alpha byte is at least 128. */
  lemma OpaqueIffAlphaAtLeastHalf(image: seq<byte>, w: nat, h: nat, s: Sample)
    requires IsRgba(image, w, h) && s.x < w && s.y < h
    ensures 4 * Offset(w, s.x, s.y) + 3 < |image|
    ensures IsOpaque(image, w, h, s) <==> 128 <= image[4 * Offset(w, s.x, s.y) + 3]
  {
    OffsetInRange(w, h, s.x, s.y);
    var alpha := image[4 * Offset(w, s.x, s.y) + 3];
    if alpha <= 127 {
      assert alpha as real / 255.0 <= 127.0 / 255.0;
    }
  }

  /**
   * The position of a pixel lies in [-1, 1) x (-1, 1] x [-0.25, 0.25] and
   * its colour in [0, 1]^3.
   */
  lemma PointRanges(image: seq<byte>, depthPixels: seq<byte>, w: nat, h: nat, s: Sample)
    requires IsRgba(image, w, h) && IsRgba(depthPixels, w, h) && s.x < w && s.y < h
    ensures var p := PositionOf(depthPixels, w, h, s);
      -1.0 <= p.a < 1.0 && -1.0 < p.b <= 1.0 && -0.25 <= p.c <= 0.25
    ensures var c := ColorOf(image, w, h, s);
      0.0 <= c.a <= 1.0 && 0.0 <= c.b <= 1.0 && 0.0 <= c.c <= 1.0
  {
    FractionBelowOne(s.x, w);
    FractionBelowOne(s.y, h);
  }

  /** For 0 <= c < n, c / n lies in [0, 1). */
  lemma FractionBelowOne(c: nat, n: nat)
    requires c < n
    ensures 0.0 <= c as real / n as real < 1.0
  {
    assert (c as real / n as real) * n as real == c as real;
  }

  /**
   * Slot j of a buffer: the j-th value when it exists, zeros otherwise.
   * With `taken` the accepted pixels, every filled slot holds one of them,
   * in order of attempt, and the remaining slots are untouched.
   */
  lemma TripleBufferSlot(values: seq<Triple>, slots: nat, j: nat)
    requires |values| <= slots && j < slots
    ensures var buf := TripleBuffer(values, slots);
      && (j < |values| ==> buf[3 * j] == values[j].a && buf[3 * j + 1] == values[j].b && buf[3 * j + 2] == values[j].c)
      && (|values| <= j ==> buf[3 * j] == 0.0 && buf[3 * j + 1] == 0.0 && buf[3 * j + 2] == 0.0)
  {
    assert (3 * j) / 3 == j && (3 * j + 1) / 3 == j && (3 * j + 2) / 3 == j;
  }

  /** One attempt at pixel `s` on an image whose every alpha byte is at least 128 keeps it, and one whose every alpha byte is below 128 rejects it. */
  lemma UniformAlphaDecides(image: seq<byte>, w: nat, h: nat, s: Sample)
    requires IsRgba(image, w, h) && s.x < w && s.y < h
    ensures (forall k :: 0 <= k < |image| && k % 4 == 3 ==> 128 <= image[k]) ==> IsOpaque(image, w, h, s)
    ensures (forall k :: 0 <= k < |image| && k % 4 == 3 ==> image[k] < 128) ==> !IsOpaque(image, w, h, s)
  {
    OpaqueIffAlphaAtLeastHalf(image, w, h, s);
    var k := 4 * Offset(w, s.x, s.y) + 3;
    assert k % 4 == 3;
  }

  /** On an image whose every alpha byte is at least 128, every attempt is kept. */
  lemma {:induction false} OpaqueImageKeepsEveryAttempt(image: seq<byte>, w: nat, h: nat, draws: seq<real>, n: nat)
    requires IsRgba(image, w, h) && 0 < w && 0 < h && AreDraws(draws) && 2 * n <= |draws|
    requires forall k :: 0 <= k < |image| && k % 4 == 3 ==> 128 <= image[k]
    ensures |AcceptedPixels(image, w, h, draws, n)| == n
    ensures forall t :: 0 <= t < n ==> AcceptedPixels(image, w, h, draws, n)[t] == AttemptPixel(draws, w, h, t)
  {
    if n > 0 {
      OpaqueImageKeepsEveryAttempt(image, w, h, draws, n - 1);
      var prev := AcceptedPixels(image, w, h, draws, n - 1);
      var s := AttemptPixel(draws, w, h, n - 1);
      UniformAlphaDecides(image, w, h, s);
      assert AcceptedPixels(image, w, h, draws, n) == prev + [s];
    }
  }

  /**
   * On an image whose every alpha byte is below 128 no attempt is kept, so
   * the sampling loop can fill no slot: the source would draw forever.
   */
  lemma {:induction false} TransparentImageKeepsNothing(image: seq<byte>, w: nat, h: nat, draws: seq<real>, n: nat)
    requires IsRgba(image, w, h) && 0 < w && 0 < h && AreDraws(draws) && 2 * n <= |draws|
    requires forall k :: 0 <= k < |image| && k % 4 == 3 ==> image[k] < 128
    ensures AcceptedPixels(image, w, h, draws, n) == []
  {
    if n > 0 {
      TransparentImageKeepsNothing(image, w, h, draws, n - 1);
      UniformAlphaDecides(image, w, h, AttemptPixel(draws, w, h, n - 1));
    }
  }

  /**
   * On an image whose every alpha byte is at least 128, draws for
   * `numPoints` attempts are enough to fill every slot.
   */
  lemma OpaqueImageFillsEverySlot(image: seq<byte>, w: nat, h: nat, draws: seq<real>, numPoints: nat)
    requires IsRgba(image, w, h) && 0 < w && 0 < h && AreDraws(draws) && 2 * numPoints <= |draws|
    requires forall k :: 0 <= k < |image| && k % 4 == 3 ==> 128 <= image[k]
    ensures numPoints <= |AcceptedPixels(image, w, h, draws, |draws| / 2)|
  {
    OpaqueImageKeepsEveryAttempt(image, w, h, draws, |draws| / 2);
  }
}
