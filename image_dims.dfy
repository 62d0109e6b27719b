/**
 * The grid-size state shared by the generation forms
 * (frontend/src/hooks/useImageDimensions.ts): rows and columns, their
 * clamp to [2, 300], single-field updates, and the size derived from an
 * uploaded image so that a picture maps to at most 300 cells per side.
 */
module ImageDimensions {
  import opened Common

  const MinDim: int := 2
  const MaxDim: int := 300

  /** `dims`: the requested grid size. */
  datatype Dims = Dims(rows: int, cols: int)

  datatype DimKey = RowsKey | ColsKey

  /** `Math.min(300, Math.max(2, v))`. */
  function Clamp(v: int): (r: int)
    ensures MinDim <= r <= MaxDim
    ensures MinDim <= v <= MaxDim ==> r == v
    ensures v < MinDim ==> r == MinDim
    ensures v > MaxDim ==> r == MaxDim
  {
    MinInt(MaxDim, MaxInt(MinDim, v))
  }

  /** Clamping twice is clamping once. */
  lemma ClampIdempotent(v: int)
    ensures Clamp(Clamp(v)) == Clamp(v)
  {
  }

  /** The `clampDimensions` updater: both fields clamped. */
  function Clamped(d: Dims): (c: Dims)
    ensures MinDim <= c.rows <= MaxDim && MinDim <= c.cols <= MaxDim
    ensures MinDim <= d.rows <= MaxDim && MinDim <= d.cols <= MaxDim ==> c == d
  {
    Dims(Clamp(d.rows), Clamp(d.cols))
  }

  /** `clampDimensions` is idempotent. */
  lemma ClampedIdempotent(d: Dims)
    ensures Clamped(Clamped(d)) == Clamped(d)
  {
    ClampIdempotent(d.rows);
    ClampIdempotent(d.cols);
  }

  /** The `updateDim` updater: the named field takes the value, the other keeps its own. */
  function WithDim(d: Dims, key: DimKey, v: int): (e: Dims)
    ensures key == RowsKey ==> e.rows == v && e.cols == d.cols
    ensures key == ColsKey ==> e.cols == v && e.rows == d.rows
  {
    match key
    case RowsKey => d.(rows := v)
    case ColsKey => d.(cols := v)
  }

  /** `Math.min(300 / w, 300 / h, 1)` for an image of w by h pixels. */
  function ScaleFactor(w: int, h: int): (f: real)
    requires w > 0 && h > 0
    ensures 0.0 < f <= 1.0
    ensures f * w as real <= 300.0 && f * h as real <= 300.0
    ensures f == 1.0 || f * w as real == 300.0 || f * h as real == 300.0
  {
    var f := MinReal(MinReal(300.0 / w as real, 300.0 / h as real), 1.0);
    ScaledAtMost(w, f);
    ScaledAtMost(h, f);
    f
  }

  /** A factor at most 300 / n scales n to at most 300. */
  lemma ScaledAtMost(n: int, f: real)
    requires n > 0 && 0.0 < f <= 300.0 / n as real
    ensures f * n as real <= 300.0
  {
    assert f * n as real <= (300.0 / n as real) * n as real;
  }

  /** The size `img.onload` sets: each side scaled down by the factor, floored, and at least 2. */
  function ImageDims(w: int, h: int): (d: Dims)
    requires w > 0 && h > 0
  {
    var f := ScaleFactor(w, h);
    Dims(MaxInt(MinDim, Floor(h as real * f)), MaxInt(MinDim, Floor(w as real * f)))
  }

  /**
   * An image gives a size within [2, 300] on both sides that never exceeds
   * the image's own pixel size (beyond the minimum of 2): images are never
   * upscaled, and one at most 300 pixels on each side keeps its exact size.
   */
  lemma ImageDimsBounds(w: int, h: int)
    requires w > 0 && h > 0
    ensures var d := ImageDims(w, h);
      MinDim <= d.rows <= MaxDim && MinDim <= d.cols <= MaxDim &&
      d.rows <= MaxInt(MinDim, h) && d.cols <= MaxInt(MinDim, w) &&
      (w <= MaxDim && h <= MaxDim ==> d == Dims(MaxInt(MinDim, h), MaxInt(MinDim, w)))
  {
    var f := ScaleFactor(w, h);
    ScaledSide(h, f);
    ScaledSide(w, f);
    if w <= MaxDim && h <= MaxDim {
      ScaleFactorOne(w, h);
      assert h as real * f == h as real && w as real * f == w as real;
    }
  }

  /** An image at most 300 pixels on each side is not scaled. */
  lemma ScaleFactorOne(w: int, h: int)
    requires 0 < w <= MaxDim && 0 < h <= MaxDim
    ensures ScaleFactor(w, h) == 1.0
  {
    AtLeastOne(w);
    AtLeastOne(h);
  }

  /** 300 / n is at least 1 for 0 < n <= 300. */
  lemma AtLeastOne(n: int)
    requires 0 < n <= MaxDim
    ensures 300.0 / n as real >= 1.0
  {
    var q := 300.0 / n as real;
    assert q * n as real == 300.0;
    if q < 1.0 {
      RealMulLe(n as real, q, 1.0);
    }
  }

  /** A side scaled by the factor floors to at most 300 and at most itself. */
  lemma ScaledSide(n: int, f: real)
    requires n > 0 && 0.0 < f <= 1.0 && f * n as real <= 300.0
    ensures Floor(n as real * f) <= 300 && Floor(n as real * f) <= n
  {
    var a := n as real;
    var x := a * f;
    assert x == f * a;
    RealMulLe(a, f, 1.0);
    assert a * 1.0 == a;
    assert x <= a;
    FloorAtMost(x, 300);
    FloorAtMost(x, n);
  }

  /** Multiplying by a non-negative factor keeps the order of reals. */
  lemma RealMulLe(a: real, b: real, c: real)
    requires 0.0 <= a && b <= c
    ensures a * b <= a * c
  {
    assert a * c - a * b == a * (c - b);
  }

  /** A value at most an integer floors to at most that integer. */
  lemma FloorAtMost(x: real, n: int)
    requires x <= n as real
    ensures Floor(x) <= n
  {
  }

  /** The hook's state. */
  class DimsState {
    var dims: Dims

    /** `useImageDimensions(initialRows = 30, initialCols = 30)`. */
    constructor (initialRows: int, initialCols: int)
      ensures dims == Dims(initialRows, initialCols)
    {
      dims := Dims(initialRows, initialCols);
    }

    /** `updateDim(key, val)`. */
    method UpdateDim(key: DimKey, val: int)
      modifies this
      ensures dims == WithDim(old(dims), key, val)
    {
      dims := WithDim(dims, key, val);
    }

    /** `clampDimensions()`. */
    method ClampDimensions()
      modifies this
      ensures dims == Clamped(old(dims))
    {
      dims := Clamped(dims);
    }

    /**
     * `handleImageChange`: nothing without a file; once the image has loaded
     * with its pixel size, the size it maps to.
     */
    method HandleImageChange(image: Option<(int, int)>)
      requires image.Some? ==> image.value.0 > 0 && image.value.1 > 0
      modifies this
      ensures image.None? ==> dims == old(dims)
      ensures image.Some? ==> dims == ImageDims(image.value.0, image.value.1)
    {
      if image.None? {
        return;
      }
      var (w, h) := image.value;
      var scaleFactor := MinReal(MinReal(300.0 / w as real, 300.0 / h as real), 1.0);
      dims := Dims(MaxInt(2, Floor(h as real * scaleFactor)), MaxInt(2, Floor(w as real * scaleFactor)));
    }
  }
}
