# Heuristic 2D-to-3D reconstruction, modelled in Dafny

This project models the image-to-depth pipeline of the 2D-to-3D image
converter. The pipeline lives in `components/model-viewer.tsx`. It has four
stages:

- **Depth estimator** (`estimateDepthMap`). It turns an RGBA image into a
  grey RGBA depth image. It builds a Sobel edge map over the mean of R, G
  and B, only for interior pixels, into a zero-filled `Uint8Array`. It
  builds a brightness map for every pixel. It computes a radial distance
  from the image centre, normalised by the half diagonal. It combines these
  as `clamp(0.5 + 0.3 (1 - dist) + 0.3 brightness + 0.1 edge, 0, 1) * 255`
  into R, G and B, with alpha 255.
- **Mesh displacement** (`createMeshFromDepthMap`). Every vertex of the
  plane samples the depth pixel at column ⌊u·(W−1)⌋ and row ⌊(1−v)·(H−1)⌋,
  with u, v its texture coordinates. Its z becomes `depth * 0.5`.
- **Normal map** (`NormalMappedModel`). Every interior pixel gets the unit
  normal along `(2 (right - left), 2 (bottom - top), 1)`, packed into RGBA.
- **Point cloud** (`DepthPointCloudModel`). Random pixels are drawn, and
  transparent ones are rejected. Accepted pixels fill the position and
  colour buffers in order.

Files:

| file | module | contents |
|---|---|---|
| `bytes.dfy` | `Bytes` | bytes; the `Uint8Array` store (ECMAScript ToUint8, as `TruncToByte`) and the `Uint8ClampedArray` store (ECMAScript ToUint8Clamp, as `ClampToByte`); `Math.min`, the unit clamp |
| `sqrt.dfy` | `RealSqrt` | what `Math.sqrt` is taken to satisfy, and facts about square roots |
| `raster.dfy` | `Raster` | row-major RGBA buffers, pixel offsets and their inverses, `Math.floor` of a fraction of a size |
| `depth.dfy` | `DepthEstimator` | per-pixel formulas, whole-image specification functions, the three loops of `estimateDepthMap` as methods |
| `depth_properties.dfy` | `DepthProperties` | lemmas about the depth estimate |
| `mesh.dfy` | `MeshBuilder` | vertex sampling and the displacement loop, with lemmas |
| `normals.dfy` | `NormalMap` | the normal of a pixel, its encoding, the normal-map loops, with lemmas |
| `pointcloud.dfy` | `PointCloud` | rejection sampling over a draw sequence, with lemmas |

Every loop of the source is a Dafny `method` with a `while` loop. Each
method is proved against a specification function of its inputs: the result
buffer equals that function, or the new state of the array it modifies does.
The meaning of those functions is then proved as lemmas.

How the source is represented:

- **Numbers.** JavaScript numbers are exact reals.
- **Byte stores.** A store into a `Uint8Array` truncates toward zero and
  reduces modulo 256 (`Bytes.TruncToByte`). A store into `ImageData.data`
  clamps to [0, 255] and rounds half to even (`Bytes.ClampToByte`). Both
  convert exactly as ECMAScript does for finite numbers.
- **`Math.sqrt`** is a parameter `sqrt`. It is required to return the
  non-negative square root of every non-negative real (`RealSqrt.IsSqrt`).
- **`Math.random`** is a finite sequence of draws in [0, 1). Each attempt
  uses two draws: x first, then y.

Facts about the code that the model keeps:

- Depth is stored as bytes. The combined depth goes through the clamped
  `ImageData` store, so every later stage reads a byte, not a float.
- The modelled loops raise no errors. An image with no opaque pixel makes the
  point-sampling loop run forever; nothing reports it.
- The normal-map loops never write border pixels. They keep the zero bytes
  of `createImageData`, alpha included.
- The top edge of the plane, at y = H / W, samples image row 0 whenever
  H ≥ W. A wider image may sample a lower row: row 2 when W = 20 and
  H = 10, but still row 0 when W = 11 and H = 10
  (`MeshBuilder.WideImageTopEdgeRow`).

## Model

| member | source | states |
|---|---|---|
| Bytes.TruncToByte | 2d-to-3d-converter/components/model-viewer.tsx:81 | the `Uint8Array` store: congruent modulo 256 to the value truncated toward zero; for a value in [0, 256), its integer part |
| Bytes.Truncate | 2d-to-3d-converter/components/model-viewer.tsx:96 | rounds toward zero: for v ≥ 0 the integer part of v; for v < 0 the integer t ≤ 0 with v ≤ t < v + 1 |
| Bytes.ClampToByte | 2d-to-3d-converter/components/model-viewer.tsx:133 | the clamped store: 0 at or below 0, 255 at or above 255, else within 0.5 of the value, and even on an exact tie |
| Bytes.Clamp01 | 2d-to-3d-converter/components/model-viewer.tsx:130 | `Math.max(0, Math.min(1, v))` lies in [0, 1], is v inside it, and is 0 below it and 1 above it |
| Bytes.Min | 2d-to-3d-converter/components/model-viewer.tsx:81 | `Math.min` is at most both arguments and equal to one of them |
| RealSqrt.IsSqrt | 2d-to-3d-converter/components/model-viewer.tsx:103 | no contract of its own: what `Math.sqrt` is taken to return, the non-negative square root of every non-negative real (also used at lines 113 and 313) |
| DepthEstimator.Mean | 2d-to-3d-converter/components/model-viewer.tsx:42-73 | the mean of a pixel's R, G and B bytes lies in [0, 255] |
| DepthEstimator.WindowAt | 2d-to-3d-converter/components/model-viewer.tsx:42-73 | no contract of its own: the means of the eight neighbours tl, t, tr, l, r, bl, b, br; FlatNeighbourhoodHasNoEdge and UniformImageFactors state what follows from them |
| DepthEstimator.SobelX | 2d-to-3d-converter/components/model-viewer.tsx:76 | no contract of its own: the horizontal kernel gx; Magnitude ties it to the edge magnitude and FlatNeighbourhoodHasNoEdge shows it vanishes on a flat window |
| DepthEstimator.SobelY | 2d-to-3d-converter/components/model-viewer.tsx:77 | no contract of its own: the vertical kernel gy; Magnitude ties it to the edge magnitude and FlatNeighbourhoodHasNoEdge shows it vanishes on a flat window |
| DepthEstimator.Magnitude | 2d-to-3d-converter/components/model-viewer.tsx:76-80 | the Sobel magnitude is non-negative and its square is gx² + gy² |
| DepthEstimator.EdgeByte | 2d-to-3d-converter/components/model-viewer.tsx:80-81 | the stored edge value is at most the magnitude; it is either 255 or within 1 of the magnitude; and it is 255 whenever the magnitude reaches 255 |
| DepthEstimator.EdgeAt | 2d-to-3d-converter/components/model-viewer.tsx:36-81 | no contract of its own: the edge-map entry of one pixel, the Sobel byte inside and 0 on the border; EdgeMapEntry states it |
| DepthEstimator.BrightnessAt | 2d-to-3d-converter/components/model-viewer.tsx:90-96 | the stored brightness byte b satisfies b ≤ (R + G + B) / 3 < b + 1 |
| DepthEstimator.MaxDist | 2d-to-3d-converter/components/model-viewer.tsx:101-103 | the half diagonal is positive and its square is (W/2)² + (H/2)² |
| DepthEstimator.SquaredHalfDiagonal | 2d-to-3d-converter/components/model-viewer.tsx:101-103 | centerX² + centerY², positive whenever W ≥ 1 |
| DepthEstimator.SquaredOffset | 2d-to-3d-converter/components/model-viewer.tsx:111-113 | distX² + distY² is non-negative |
| DepthEstimator.RadialDistance | 2d-to-3d-converter/components/model-viewer.tsx:111-113 | the normalised radial distance is non-negative (RadialDistanceInUnit adds that it is at most 1) |
| DepthEstimator.DepthValue | 2d-to-3d-converter/components/model-viewer.tsx:123-130 | the combined depth after the clamp lies in [0, 1] (DepthRange adds that it is at least 0.5) |
| DepthEstimator.DepthByte | 2d-to-3d-converter/components/model-viewer.tsx:133 | the stored grey byte is within half a step of depth · 255 |
| DepthEstimator.EdgeMapSpec | 2d-to-3d-converter/components/model-viewer.tsx:36-83 | the edge map has W·H entries; EdgeMapEntry states each entry |
| DepthEstimator.BrightnessMapSpec | 2d-to-3d-converter/components/model-viewer.tsx:86-98 | the brightness map has W·H entries; BrightnessMapEntry states each entry |
| DepthEstimator.DepthChannel | 2d-to-3d-converter/components/model-viewer.tsx:106-134 | no contract of its own: byte k of the combined image, the depth byte of pixel k div 4 or 255 for alpha; DepthPixelsEntry states it |
| DepthEstimator.DepthPixelsSpec | 2d-to-3d-converter/components/model-viewer.tsx:106-135 | the combined image is an RGBA buffer of W·H pixels; DepthPixelsEntry states its bytes |
| DepthEstimator.DepthMapSpec | 2d-to-3d-converter/components/model-viewer.tsx:15-136 | the depth image before the blur is an RGBA buffer of W·H pixels; DepthMapPixel states its bytes |
| DepthEstimator.ComputeEdgeMap | 2d-to-3d-converter/components/model-viewer.tsx:36-83 | the edge-map loops fill a new array with exactly the edge map: the Sobel byte at interior pixels and 0 elsewhere |
| DepthEstimator.EdgeMapRow | 2d-to-3d-converter/components/model-viewer.tsx:38-82 | the inner loop extends the finished rows by row y and leaves every later entry 0 |
| DepthEstimator.ComputeBrightnessMap | 2d-to-3d-converter/components/model-viewer.tsx:86-98 | the brightness loops fill a new array with the brightness byte of every pixel |
| DepthEstimator.CombineDepth | 2d-to-3d-converter/components/model-viewer.tsx:100-136 | the combination loops write every byte of a new depth image: grey bytes from the combined factors and alpha 255 |
| DepthEstimator.StoreGrey | 2d-to-3d-converter/components/model-viewer.tsx:133-134 | the chained store writes the same byte to B, then G, then R, then 255 to A; only bytes idx to idx+3 change |
| DepthEstimator.EstimateDepth | 2d-to-3d-converter/components/model-viewer.tsx:15-136 | the depth estimate before the blur is a new array equal to the depth map of the image |
| DepthProperties.EdgeMapEntry | 2d-to-3d-converter/components/model-viewer.tsx:36-81 | border entries of the edge map are 0; each interior entry is the capped, truncated Sobel magnitude |
| DepthProperties.FlatNeighbourhoodHasNoEdge | 2d-to-3d-converter/components/model-viewer.tsx:42-81 | if all eight neighbours have equal means, gx = gy = 0 and the edge entry is 0 |
| DepthProperties.BrightnessMapEntry | 2d-to-3d-converter/components/model-viewer.tsx:86-97 | the brightness entry is the integer part of the mean of R, G and B, which lies in [0, 255] |
| DepthProperties.SquaredDistanceBound | 2d-to-3d-converter/components/model-viewer.tsx:101-112 | for every in-image pixel, 0 ≤ distX² + distY² ≤ centerX² + centerY² |
| DepthProperties.SquareOfSmallerMagnitude | 2d-to-3d-converter/components/model-viewer.tsx:111-113 | a² ≤ b² whenever \|a\| ≤ \|b\| |
| DepthProperties.RadialDistanceInUnit | 2d-to-3d-converter/components/model-viewer.tsx:101-113 | the normalised radial distance of every in-image pixel lies in [0, 1] |
| DepthProperties.CornerRadialDistance | 2d-to-3d-converter/components/model-viewer.tsx:101-113 | the corner (0, 0) has radial distance exactly 1 |
| DepthProperties.DepthPixelsEntry | 2d-to-3d-converter/components/model-viewer.tsx:106-134 | bytes 0-2 of pixel (x, y) of the combined image are the depth byte of the two maps' entries at (x, y), and byte 3 is 255 |
| DepthProperties.DepthMapPixel | 2d-to-3d-converter/components/model-viewer.tsx:106-135 | every one of the W·H pixels is written: R = G = B = store(clamp(0.5 + 0.3 (1 - dist) + 0.3 brightness/255 + 0.1 edge/255) · 255), and A = 255 |
| DepthProperties.DepthRange | 2d-to-3d-converter/components/model-viewer.tsx:123-133 | every depth lies in [0.5, 1], and every stored depth byte is at least 128 |
| DepthProperties.UniformImageFactors | 2d-to-3d-converter/components/model-viewer.tsx:36-97 | in a uniform-brightness image (every pixel has the same mean of R, G and B; the colours may differ) every edge entry is 0 and every brightness entry equals that of pixel (0, 0) |
| DepthProperties.CentreColumnIsNearest | 2d-to-3d-converter/components/model-viewer.tsx:101-111 | column W div 2 is at least as close to centerX as any column |
| DepthProperties.CentrePixelIsNearest | 2d-to-3d-converter/components/model-viewer.tsx:101-113 | the pixel (W div 2, H div 2) has the smallest radial distance |
| DepthProperties.DepthDecreasesWithDistance | 2d-to-3d-converter/components/model-viewer.tsx:123-133 | with equal edge and brightness factors, a pixel nearer the centre has a depth and a depth byte at least as large |
| DepthProperties.UniformImageDepthByte | 2d-to-3d-converter/components/model-viewer.tsx:106-135 | on a uniform-brightness image (equal means of R, G and B, colours free), a pixel's depth byte depends only on its radial distance |
| DepthProperties.UniformImageCentreNearestCornerFarthest | 2d-to-3d-converter/components/model-viewer.tsx:100-135 | on a uniform-brightness image (equal means of R, G and B, colours free), depth at the centre ≥ depth at any pixel ≥ depth at the corner |
| DepthProperties.BlackImageDepth | 2d-to-3d-converter/components/model-viewer.tsx:86-130 | on an all-black image, depth before the blur is exactly 0.5 + 0.3 (1 - dist) |
| MeshBuilder.TextureCoord | 2d-to-3d-converter/components/model-viewer.tsx:165-166 | u (from x) and v (from y) lie in [0, 1]: p/2 + 0.5 for p in [-1, 1], 0 below, 1 above |
| Raster.ScaledFloor | 2d-to-3d-converter/components/model-viewer.tsx:168-169 | `Math.floor(t · n)` for t in [0, 1] is an integer f ≤ n with f ≤ t · n < f + 1 |
| Raster.ScaledFloorMonotone | 2d-to-3d-converter/components/model-viewer.tsx:168-169 | a larger fraction never gives a smaller coordinate |
| Raster.Offset | 2d-to-3d-converter/components/model-viewer.tsx:39 | no contract of its own: `y * width + x`; OffsetInRange and OffsetCoordinates state its range and its inverse |
| Raster.IsInterior | 2d-to-3d-converter/components/model-viewer.tsx:37-38 | no contract of its own: the loop ranges 1 ≤ x ≤ W-2 and 1 ≤ y ≤ H-2 (also lines 297-298); EdgeMapEntry and NormalMapPixel use it |
| Raster.Channel | 2d-to-3d-converter/components/model-viewer.tsx:89-92 | a byte of a pixel, read as a number, lies in [0, 255] |
| Raster.OffsetInRange | 2d-to-3d-converter/components/model-viewer.tsx:39 | an in-image pixel's offset is below W·H, so its four bytes lie inside the buffer |
| Raster.OffsetCoordinates | 2d-to-3d-converter/components/model-viewer.tsx:39 | the offset determines the pixel: column = offset mod W and row = offset div W |
| Raster.CoordinatesOfOffset | 2d-to-3d-converter/components/model-viewer.tsx:106-108 | every offset below W·H is the offset of an in-image pixel |
| MeshBuilder.SampleColumn | 2d-to-3d-converter/components/model-viewer.tsx:168 | pixelX lies in [0, W-1] |
| MeshBuilder.SampleRow | 2d-to-3d-converter/components/model-viewer.tsx:169 | pixelY lies in [0, H-1] |
| MeshBuilder.SampleIndex | 2d-to-3d-converter/components/model-viewer.tsx:171 | pixelIndex + 3 < W·H·4 |
| MeshBuilder.DisplacedZ | 2d-to-3d-converter/components/model-viewer.tsx:174-177 | the new z lies in [0, 0.5] |
| MeshBuilder.Displaced | 2d-to-3d-converter/components/model-viewer.tsx:160-178 | the displaced buffer has the length of the input; DisplacedVertex states what each vertex becomes |
| MeshBuilder.Displace | 2d-to-3d-converter/components/model-viewer.tsx:160-178 | after the loop, the position array is the displaced buffer of its old contents |
| MeshBuilder.DisplacedVertex | 2d-to-3d-converter/components/model-viewer.tsx:160-178 | displacement keeps each vertex's x and y; z becomes the sampled depth byte/255 · 0.5, which lies in [0, 0.5] |
| MeshBuilder.SampleInImage | 2d-to-3d-converter/components/model-viewer.tsx:165-171 | for any vertex position, the sampled column is ≤ W-1, the row is ≤ H-1, and pixelIndex + 3 < W·H·4 |
| MeshBuilder.SampleEdges | 2d-to-3d-converter/components/model-viewer.tsx:165-169 | y ≥ 1 (v = 1) samples row 0; y ≤ -1 samples row H-1; x ≤ -1 samples column 0; x ≥ 1 samples column W-1 |
| MeshBuilder.SampleMonotone | 2d-to-3d-converter/components/model-viewer.tsx:165-169 | a vertex further right never samples a column further left; a higher vertex never samples a lower row |
| MeshBuilder.WideImageTopEdgeRow | 2d-to-3d-converter/components/model-viewer.tsx:155-169 | for W = 20, H = 10, the plane's top edge y = 0.5 samples row 2, not row 0; for W = 11, H = 10, the top edge y = 10/11 still samples row 0 |
| NormalMap.Depth | 2d-to-3d-converter/components/model-viewer.tsx:302-305 | a neighbour's depth (red byte/255) lies in [0, 1] |
| NormalMap.SlopeX | 2d-to-3d-converter/components/model-viewer.tsx:308 | dx lies in [-2, 2] |
| NormalMap.SlopeY | 2d-to-3d-converter/components/model-viewer.tsx:309 | dy lies in [-2, 2] |
| NormalMap.SquaredLength | 2d-to-3d-converter/components/model-viewer.tsx:313 | no contract of its own: dx² + dy² + dz²; LengthBounds and NormaliseToUnit state what follows from it |
| NormalMap.LengthBounds | 2d-to-3d-converter/components/model-viewer.tsx:310-313 | because dz = 1, length² lies in [1, 9] and length in [1, 3] |
| NormalMap.NormaliseToUnit | 2d-to-3d-converter/components/model-viewer.tsx:313-316 | dividing by the length gives nx² + ny² + nz² = 1 |
| NormalMap.UnitNormal | 2d-to-3d-converter/components/model-viewer.tsx:308-316 | the normal is the unit vector along (dx, dy, 1): nx = dx·nz, ny = dy·nz, nx² + ny² + nz² = 1, and nz in [1/3, 1] |
| NormalMap.SurfaceNormal | 2d-to-3d-converter/components/model-viewer.tsx:302-316 | the normal of an interior pixel is the unit vector along its central differences: nx = dx · nz, ny = dy · nz, nx² + ny² + nz² = 1, nz in [1/3, 1] |
| NormalMap.EncodeNormal | 2d-to-3d-converter/components/model-viewer.tsx:320-323 | the packed pixel has four bytes, with A = 255 |
| NormalMap.StoreNormal | 2d-to-3d-converter/components/model-viewer.tsx:320-323 | the four stores of one pixel change only bytes idx to idx+3, to the encoded normal |
| NormalMap.NormalMapRow | 2d-to-3d-converter/components/model-viewer.tsx:298-324 | the inner loop finishes row y and leaves later pixels zero |
| NormalMap.ComputeNormalMap | 2d-to-3d-converter/components/model-viewer.tsx:293-325 | the loops over a new zero-filled image produce exactly the normal map |
| NormalMap.NormalMapSpec | 2d-to-3d-converter/components/model-viewer.tsx:293-325 | the normal map is an RGBA buffer of W·H pixels; NormalMapPixel states its bytes |
| NormalMap.NormalChannel | 2d-to-3d-converter/components/model-viewer.tsx:297-325 | no contract of its own: byte k of the normal map, the encoded normal of an interior pixel or 0 on the border; NormalMapPixel states it |
| NormalMap.NormalMapPixel | 2d-to-3d-converter/components/model-viewer.tsx:293-325 | an interior pixel holds its encoded normal, with A = 255; a border pixel keeps four zero bytes |
| NormalMap.UnitComponent | 2d-to-3d-converter/components/model-viewer.tsx:314-316 | each component of a unit vector lies in [-1, 1] |
| NormalMap.EncodeNormalRounding | 2d-to-3d-converter/components/model-viewer.tsx:320-323 | R and G store (n·0.5 + 0.5)·255 in [0, 255] to within half a step, and B stores nz·255 likewise; B ≥ 85 (so B is in (0, 255]); A = 255 |
| NormalMap.UnitNormalSlopeSign | 2d-to-3d-converter/components/model-viewer.tsx:308-321 | for the unit normal along (dx, dy, 1): R ≥ 128 if and only if dx ≥ 0, and G ≥ 128 if and only if dy ≥ 0 |
| NormalMap.NormalEncodesSlopeSignX | 2d-to-3d-converter/components/model-viewer.tsx:302-320 | R ≥ 128 if and only if right ≥ left |
| NormalMap.NormalEncodesSlopeSignY | 2d-to-3d-converter/components/model-viewer.tsx:304-321 | G ≥ 128 if and only if bottom ≥ top |
| NormalMap.ComponentSignByte | 2d-to-3d-converter/components/model-viewer.tsx:314-321 | a component with the sign of its slope encodes to a byte ≥ 128 exactly when the slope is non-negative |
| NormalMap.LevelDepthFacesViewer | 2d-to-3d-converter/components/model-viewer.tsx:302-323 | with level depth in both directions, the normal is (0, 0, 1), encoded as (128, 128, 255, 255) |
| PointCloud.DrawCoord | 2d-to-3d-converter/components/model-viewer.tsx:397-398 | `Math.floor(r · n)` for r in [0, 1) lies in [0, n) |
| PointCloud.IsDraw | 2d-to-3d-converter/components/model-viewer.tsx:397-398 | no contract of its own: a value `Math.random` can return, in [0, 1); DrawCoord relies on it |
| PointCloud.AreDraws | 2d-to-3d-converter/components/model-viewer.tsx:397-398 | no contract of its own: every draw of the sequence is in [0, 1) |
| PointCloud.AttemptPixel | 2d-to-3d-converter/components/model-viewer.tsx:397-398 | a drawn pixel lies inside the image |
| PointCloud.IsOpaque | 2d-to-3d-converter/components/model-viewer.tsx:405-408 | no contract of its own: the pixel passes the `a < 0.5` test; OpaqueIffAlphaAtLeastHalf states it |
| PointCloud.AcceptedPixels | 2d-to-3d-converter/components/model-viewer.tsx:395-411 | the kept pixels of the first n attempts number at most n; each lies inside the image and is opaque |
| PointCloud.PositionOf | 2d-to-3d-converter/components/model-viewer.tsx:414-419 | no contract of its own: xPos, yPos and zPos of a kept pixel; PointRanges states their ranges |
| PointCloud.ColorOf | 2d-to-3d-converter/components/model-viewer.tsx:402-404 | no contract of its own: r, g and b of a kept pixel; PointRanges states their ranges |
| PointCloud.Positions | 2d-to-3d-converter/components/model-viewer.tsx:414-419 | as many positions as kept pixels; by definition entry j is the position of pixel j, and AcceptStep and SamplePoints use it |
| PointCloud.Colors | 2d-to-3d-converter/components/model-viewer.tsx:402-404 | as many colours as kept pixels; by definition entry j is the colour of pixel j, and AcceptStep and SamplePoints use it |
| PointCloud.TripleBuffer | 2d-to-3d-converter/components/model-viewer.tsx:392-393 | a buffer of N slots has 3·N entries; TripleBufferSlot states that filled slots hold their values and the others stay 0 |
| PointCloud.AcceptedPrefix | 2d-to-3d-converter/components/model-viewer.tsx:395-411 | the pixels kept by the first n attempts are a prefix of those kept by the first m ≥ n attempts |
| PointCloud.TripleBufferAppend | 2d-to-3d-converter/components/model-viewer.tsx:422-429 | a new kept pixel fills exactly the next free slot |
| PointCloud.RejectStep | 2d-to-3d-converter/components/model-viewer.tsx:407-411 | a transparent draw changes neither the kept pixels nor the buffers |
| PointCloud.AcceptStep | 2d-to-3d-converter/components/model-viewer.tsx:413-429 | an opaque draw fills slot i with its position and colour, and the next slot becomes i + 1 |
| PointCloud.SamplingDone | 2d-to-3d-converter/components/model-viewer.tsx:395 | when the loop stops, either all slots are full or the draws ran out |
| PointCloud.StoreSlot | 2d-to-3d-converter/components/model-viewer.tsx:422-429 | the three stores of a slot change only entries 3i to 3i+2 |
| PointCloud.Attempt | 2d-to-3d-converter/components/model-viewer.tsx:396-429 | one iteration rejects a transparent pixel or fills the next slot, keeping the buffers in step with the kept pixels |
| PointCloud.SamplePoints | 2d-to-3d-converter/components/model-viewer.tsx:391-430 | the position and colour buffers are two new, distinct arrays; slots 0..N-1 are filled exactly once, in order, from successive kept draws, and unfilled slots stay 0; ok holds iff the draws held at least N kept pixels |
| PointCloud.OpaqueIffAlphaAtLeastHalf | 2d-to-3d-converter/components/model-viewer.tsx:405-411 | a pixel is kept if and only if its alpha byte is ≥ 128 |
| PointCloud.UniformAlphaDecides | 2d-to-3d-converter/components/model-viewer.tsx:405-411 | if every alpha byte is ≥ 128 a drawn pixel is kept; if every alpha byte is < 128 it is rejected |
| PointCloud.PointRanges | 2d-to-3d-converter/components/model-viewer.tsx:402-419 | xPos ∈ [-1, 1), yPos ∈ (-1, 1], zPos ∈ [-0.25, 0.25], and every colour channel is in [0, 1] |
| PointCloud.FractionBelowOne | 2d-to-3d-converter/components/model-viewer.tsx:417-418 | x / W lies in [0, 1) for a column x < W |
| PointCloud.TripleBufferSlot | 2d-to-3d-converter/components/model-viewer.tsx:392-393 | slot j holds the j-th value if there is one, and zeros otherwise |
| PointCloud.OpaqueImageKeepsEveryAttempt | 2d-to-3d-converter/components/model-viewer.tsx:405-411 | on a fully opaque image every attempt is kept, in order |
| PointCloud.OpaqueImageFillsEverySlot | 2d-to-3d-converter/components/model-viewer.tsx:395-411 | on a fully opaque image, N attempts fill all N slots |
| PointCloud.TransparentImageKeepsNothing | 2d-to-3d-converter/components/model-viewer.tsx:405-411 | on an image with every alpha below 128 no attempt is kept, so no slot is ever filled |

## Left out

- **The blur.** The canvas blur `filter = "blur(4px)"`, its `putImageData`, `drawImage` and `getImageData` are browser drawing calls. `DepthEstimator.EstimateDepth` ends before the blur. The mesh, normal-map and point-cloud stages take their depth image as an arbitrary RGBA byte buffer of size W·H·4.
- **Canvas setup.** Canvas, context and `ImageData` creation are browser calls. A new `ImageData` or typed array is modelled as a zero-filled array. Two error paths belong to this setup and are not modelled: `estimateDepthMap` throws when the depth canvas has no 2D context (line 19), and the browser throws when an `ImageData` of zero width or height is created.
- **Zero sizes.** A zero width or height makes these calls throw before any loop runs; this is why the mesh and point-cloud methods require W, H ≥ 1.
- **Three.js geometry.** `THREE.PlaneGeometry` vertex generation and `computeVertexNormals` belong to a library that is not part of this model. The vertex position array is an input to `MeshBuilder.Displace`.
- **Partial vertex.** The loop bound `vertices.length / 3` is a real division. When the length is not a multiple of 3, the source makes one more pass over an incomplete vertex. That pass only reads undefined values or stores out of range, and changes nothing. The model iterates over complete vertices only, which gives the same array.
- **UI and rendering.** React state and hooks, texture loading, materials, the sphere and the mode switch are UI. So are the other source files: the upload page, the progress animation and the server-side MiDaS converter.
- **IEEE-754.** Double rounding, NaN and the rounding of stores into the `Float32Array` vertex, point and colour buffers are not modelled; numbers are exact reals. So a brightness such as 84.99999… that IEEE arithmetic could produce is stored here as 85.
- **`Math.sqrt`.** It is a parameter specified only by `RealSqrt.IsSqrt`.
- **`Math.random`.** It is a finite draw sequence. The source's loop has no bound, and on an image with no opaque pixel it never ends (`PointCloud.TransparentImageKeepsNothing`). The model stops when the draws run out and reports that with `ok = false`.
- **Fixed constants.** `numPoints` is fixed at 20000 in the source and is a parameter here. The mesh's segment counts (128 by 128) only shape the Three.js vertex array, which is an input.
- **No errors are modelled.** The modelled loops have no error results and no bound on the number of draws, so the model has neither; it reports running out of draws with `ok = false`.
