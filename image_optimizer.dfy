/** The image preparation of services/imageOptimizer.ts: the check that a
    file is an image, the reduction of its dimensions to a bound keeping
    the aspect ratio, and the WebP result. Decoding, drawing and encoding
    happen in the browser: whether the image loads (and its size) and
    whether a drawing context exists are parameters here. */
module ImageOptimizer {
  import opened Types
  import opened Text

  const DefaultMaxDimension: nat := 2048
  const OutputMime: string := "image/webp"

  const NotAnImage: string := "File is not a supported image format for optimization"
  const LoadFailed: string := "Failed to load image for optimization"
  const NoContext: string := "Failed to create canvas context"

  datatype Dimensions = Dimensions(width: nat, height: nat)

  /** `Math.round(n / d)` for non-negative n and positive d: halves round
      up. */
  function RoundDiv(n: nat, d: nat): (q: nat)
    requires d > 0
    ensures 2 * d * q <= 2 * n + d < 2 * d * q + 2 * d
  {
    (2 * n + d) / (2 * d)
  }

  /** The dimension step of `optimizeImage`, reassigning width and height
      as the source does. */
  method ScaleDimensions(width: nat, height: nat, maxDimension: nat) returns (w: nat, h: nat)
    ensures Dimensions(w, h) == Scaled(width, height, maxDimension)
  {
    w, h := width, height;
    if w > maxDimension || h > maxDimension {
      if w > h {
        h := RoundDiv(h * maxDimension, w);
        w := maxDimension;
      } else {
        w := RoundDiv(w * maxDimension, h);
        h := maxDimension;
      }
    }
  }

  /** The dimensions the canvas gets: unchanged within the bound; else
      the longer side (the height on a tie) becomes the bound and the other
      is scaled by the same factor and rounded. */
  function Scaled(width: nat, height: nat, maxDimension: nat): (r: Dimensions)
    ensures width <= maxDimension && height <= maxDimension ==> r == Dimensions(width, height)
    ensures (width > maxDimension || height > maxDimension) && width > height ==>
              r.width == maxDimension && r.height == RoundDiv(height * maxDimension, width)
    ensures (width > maxDimension || height > maxDimension) && width <= height ==>
              r.height == maxDimension && r.width == RoundDiv(width * maxDimension, height)
  {
    if width > maxDimension || height > maxDimension then
      if width > height then Dimensions(maxDimension, RoundDiv(height * maxDimension, width))
      else Dimensions(RoundDiv(width * maxDimension, height), maxDimension)
    else Dimensions(width, height)
  }

  lemma MulMonotone(x: nat, y: nat, z: nat)
    requires y <= z
    ensures x * y <= x * z
  {
    assert x * z == x * y + x * (z - y);
  }

  /** Rounding `a * m / b` with `a <= b` gives at most m. */
  lemma RoundedAtMost(a: nat, b: nat, m: nat)
    requires 0 < b && a <= b
    ensures RoundDiv(a * m, b) <= m
  {
    var q := RoundDiv(a * m, b);
    MulMonotone(m, a, b);
    assert a * m <= b * m;
    if q > m {
      MulMonotone(2 * b, m + 1, q);
      assert false;
    }
  }

  /** Neither side of the result exceeds the bound, and the sides are never
      made larger. */
  lemma ScaledWithinBound(width: nat, height: nat, maxDimension: nat)
    ensures var r := Scaled(width, height, maxDimension);
            r.width <= maxDimension && r.height <= maxDimension
            && r.width <= width && r.height <= height
  {
    if width > maxDimension || height > maxDimension {
      if width > height {
        RoundedAtMost(height, width, maxDimension);
        RoundedAtMost(maxDimension, width, height);
        assert height * maxDimension == maxDimension * height;
      } else {
        RoundedAtMost(width, height, maxDimension);
        RoundedAtMost(maxDimension, height, width);
        assert width * maxDimension == maxDimension * width;
      }
    }
  }

  /** The aspect ratio is kept up to rounding: the side that is not the
      longer one differs from its exact scaled value `side * new longer
      side / longer side` by at most one half. */
  predicate RatioKept(width: nat, height: nat, r: Dimensions) {
    if width > height then
      var e: int := r.height * width - height * r.width;
      -(width as int) <= 2 * e <= width
    else
      var e: int := r.width * height - width * r.height;
      -(height as int) <= 2 * e <= height
  }

  /** The exact product and the rounded one are at most half a divisor
      apart. */
  lemma RoundedRatio(side: nat, longer: nat, m: nat)
    requires longer > 0
    ensures var e: int := RoundDiv(side * m, longer) * longer - side * m;
            -(longer as int) <= 2 * e <= longer
  {
    var q := RoundDiv(side * m, longer);
    var p := q * longer;
    var n := side * m;
    assert 2 * longer * q == 2 * p;
    assert 2 * p <= 2 * n + longer < 2 * p + 2 * longer;
  }

  lemma ScaledKeepsRatio(width: nat, height: nat, maxDimension: nat)
    ensures RatioKept(width, height, Scaled(width, height, maxDimension))
  {
    var r := Scaled(width, height, maxDimension);
    if width > maxDimension || height > maxDimension {
      if width > height {
        RoundedRatio(height, width, maxDimension);
      } else {
        RoundedRatio(width, height, maxDimension);
      }
    } else {
      assert r.height * width == height * r.width;
    }
  }

  /** What `optimizeImage` hands on: the dimensions the image was drawn
      at and the mime type of the encoding. */
  datatype Optimized = Optimized(size: Dimensions, mimeType: string)

  /** `optimizeImage`: files whose type is not an image type are refused
      before anything is loaded; a failed load or a missing drawing context
      rejects too; otherwise the image is drawn at the scaled size and
      encoded as WebP. */
  function Optimize(file: FileRef, loaded: Option<Dimensions>, hasContext: bool, maxDimension: nat): (r: Result<Optimized, string>)
    ensures !StartsWith(file.mime, "image/") ==> r == Err(NotAnImage)
    ensures StartsWith(file.mime, "image/") && loaded.None? ==> r == Err(LoadFailed)
    ensures StartsWith(file.mime, "image/") && loaded.Some? && !hasContext ==> r == Err(NoContext)
    ensures r.Ok? <==> StartsWith(file.mime, "image/") && loaded.Some? && hasContext
    ensures r.Ok? ==> (r.value.mimeType == OutputMime
                    && r.value.size.width <= maxDimension && r.value.size.height <= maxDimension)
    ensures r.Ok? ==> r.value.size == Scaled(loaded.value.width, loaded.value.height, maxDimension)
  {
    if !StartsWith(file.mime, "image/") then Err(NotAnImage)
    else if loaded.None? then Err(LoadFailed)
    else if !hasContext then Err(NoContext)
    else
      var s := Scaled(loaded.value.width, loaded.value.height, maxDimension);
      ScaledWithinBound(loaded.value.width, loaded.value.height, maxDimension);
      Ok(Optimized(s, OutputMime))
  }

  /** Vector files (`application/postscript`, `application/pdf`, ...) are
      never sent to the image pipeline: they are refused. */
  lemma VectorRefused(file: FileRef, loaded: Option<Dimensions>, hasContext: bool, maxDimension: nat)
    requires file.mime == "application/postscript" || file.mime == "application/pdf"
    ensures Optimize(file, loaded, hasContext, maxDimension) == Err(NotAnImage)
  {
    assert file.mime[..6] != "image/" by {
      assert file.mime[..6][0] == 'a';
    }
  }

  // ---------------------------------------------------------------------
  // A very long, thin image

  /** With the default bound, a 5000 by 1 image is drawn 2048 by 0: the
      rounded height is zero and the canvas is empty. */
  lemma ThinImageVanishes()
    ensures Scaled(5000, 1, DefaultMaxDimension) == Dimensions(2048, 0)
  {
  }

  /** The scaling with the rounded side kept at one pixel at least. */
  function ScaledNonEmpty(width: nat, height: nat, maxDimension: nat): (r: Dimensions)
    ensures width > 0 ==> r.width >= 1
    ensures height > 0 ==> r.height >= 1
    ensures Scaled(width, height, maxDimension).width > 0 ==> r.width == Scaled(width, height, maxDimension).width
    ensures Scaled(width, height, maxDimension).height > 0 ==> r.height == Scaled(width, height, maxDimension).height
  {
    var s := Scaled(width, height, maxDimension);
    Dimensions(if s.width == 0 && width > 0 then 1 else s.width,
               if s.height == 0 && height > 0 then 1 else s.height)
  }

  /** The corrected scaling draws every non-empty image on a non-empty
      canvas within the bound, and agrees with the original whenever the
      original is not empty. */
  lemma ScaledNonEmptyProperties(width: nat, height: nat, maxDimension: nat)
    requires maxDimension >= 1
    ensures var r := ScaledNonEmpty(width, height, maxDimension);
            (width > 0 && height > 0 ==> r.width >= 1 && r.height >= 1)
            && r.width <= maxDimension && r.height <= maxDimension
            && (Scaled(width, height, maxDimension).width > 0 && Scaled(width, height, maxDimension).height > 0
                ==> r == Scaled(width, height, maxDimension))
  {
    ScaledWithinBound(width, height, maxDimension);
  }
}
