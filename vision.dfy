/**
 * The two steps of the image pipeline of backend/maze/vision.go that turn
 * gradient magnitudes into wall weights: non-maximum suppression
 * (`applyNMS`) and the sampling of the thinned magnitudes onto the grid
 * (`mapToWeights`). Magnitudes and angles are given as reals; decoding,
 * the grayscale conversion and the Sobel pass that produce them are not
 * modelled.
 */
module Vision {
  import opened Common
  import opened MazeGrid

  /** A `height` by `width` table, row-major as the Go `[][]float64`. */
  predicate Table(t: seq<seq<real>>, width: int, height: int)
  {
    |t| == height && forall y :: 0 <= y < height ==> |t[y]| == width
  }

  /** The neighbours compared along the gradient normal: offsets (dy, dx) of q and of r. */
  datatype Offsets = Offsets(qy: int, qx: int, ry: int, rx: int)

  /**
   * The sector of the `switch` in `applyNMS`: horizontal neighbours for
   * angles near 0 or 180 degrees, the rising diagonal near 45, vertical
   * near 90 and the falling diagonal near 135. An angle outside [0, 180]
   * matches no case, and q and r stay 0.
   */
  function Sector(angle: real): (o: Option<Offsets>)
    ensures o.Some? <==> 0.0 <= angle <= 180.0
    ensures o.Some? ==> o.value.ry == -o.value.qy && o.value.rx == -o.value.qx
    ensures o.Some? ==> -1 <= o.value.qy <= 1 && -1 <= o.value.qx <= 1 && (o.value.qy, o.value.qx) != (0, 0)
    ensures o.Some? && (angle < 22.5 || angle >= 157.5) ==> o.value.qy == 0
    ensures o.Some? && 67.5 <= angle < 112.5 ==> o.value.qx == 0
  {
    if (0.0 <= angle < 22.5) || (157.5 <= angle <= 180.0) then Some(Offsets(0, 1, 0, -1))
    else if 22.5 <= angle < 67.5 then Some(Offsets(1, -1, -1, 1))
    else if 67.5 <= angle < 112.5 then Some(Offsets(1, 0, -1, 0))
    else if 112.5 <= angle < 157.5 then Some(Offsets(-1, -1, 1, 1))
    else None
  }

  /** The loops of `applyNMS` visit rows 1 .. height - 2 and columns 1 .. width - 2. */
  predicate Interior(width: int, height: int, y: int, x: int)
  {
    1 <= y < height - 1 && 1 <= x < width - 1
  }

  /** The magnitudes q and r the pixel (y, x) is compared with. */
  function Compared(mags: seq<seq<real>>, angles: seq<seq<real>>, width: int, height: int, y: int, x: int): (real, real)
    requires Table(mags, width, height) && Table(angles, width, height) && Interior(width, height, y, x)
  {
    match Sector(angles[y][x])
    case None => (0.0, 0.0)
    case Some(o) => (mags[y + o.qy][x + o.qx], mags[y + o.ry][x + o.rx])
  }

  /** What `applyNMS` leaves at (y, x). */
  function NmsValue(mags: seq<seq<real>>, angles: seq<seq<real>>, width: int, height: int, y: int, x: int): real
    requires Table(mags, width, height) && Table(angles, width, height) && 0 <= y < height && 0 <= x < width
  {
    if !Interior(width, height, y, x) then 0.0
    else
      var (q, r) := Compared(mags, angles, width, height, y, x);
      if mags[y][x] >= q && mags[y][x] >= r then mags[y][x] else 0.0
  }

  /** The border rows and columns of the result stay 0. */
  lemma NmsBorder(mags: seq<seq<real>>, angles: seq<seq<real>>, width: int, height: int, y: int, x: int)
    requires Table(mags, width, height) && Table(angles, width, height) && 0 <= y < height && 0 <= x < width
    requires y == 0 || y == height - 1 || x == 0 || x == width - 1
    ensures NmsValue(mags, angles, width, height, y, x) == 0.0
  {
  }

  /**
   * Suppression: an interior pixel keeps its magnitude exactly when it is
   * no smaller than both neighbours across the edge, and is 0 otherwise;
   * with nonnegative magnitudes the result never exceeds the input.
   */
  lemma NmsSuppresses(mags: seq<seq<real>>, angles: seq<seq<real>>, width: int, height: int, y: int, x: int)
    requires Table(mags, width, height) && Table(angles, width, height) && Interior(width, height, y, x)
    ensures var v := NmsValue(mags, angles, width, height, y, x);
      var (q, r) := Compared(mags, angles, width, height, y, x);
      (v == mags[y][x] || v == 0.0) &&
      (mags[y][x] >= q && mags[y][x] >= r ==> v == mags[y][x]) &&
      (v != 0.0 ==> mags[y][x] >= q && mags[y][x] >= r) &&
      (mags[y][x] >= 0.0 ==> 0.0 <= v <= mags[y][x])
  {
  }

  /**
   * The compared pixels are the two opposite 8-neighbours of (y, x) in the
   * gradient's sector, both inside the table; an angle outside [0, 180]
   * compares with 0 on both sides.
   */
  lemma ComparedNeighbours(mags: seq<seq<real>>, angles: seq<seq<real>>, width: int, height: int, y: int, x: int)
    requires Table(mags, width, height) && Table(angles, width, height) && Interior(width, height, y, x)
    ensures var (q, r) := Compared(mags, angles, width, height, y, x);
      match Sector(angles[y][x])
      case None => q == 0.0 && r == 0.0 && !(0.0 <= angles[y][x] <= 180.0)
      case Some(o) =>
        q == mags[y + o.qy][x + o.qx] && r == mags[y - o.qy][x - o.qx] &&
        0 <= y - 1 && y + 1 < height && 0 <= x - 1 && x + 1 < width
  {
  }

  /** `applyNMS`: a fresh zeroed table whose interior pixels are filled row by row. */
  method ApplyNms(mags: seq<seq<real>>, angles: seq<seq<real>>, width: int, height: int) returns (nms: array2<real>)
    requires width >= 0 && height >= 0 && Table(mags, width, height) && Table(angles, width, height)
    ensures fresh(nms) && nms.Length0 == height && nms.Length1 == width
    ensures forall y, x :: 0 <= y < height && 0 <= x < width ==> nms[y, x] == NmsValue(mags, angles, width, height, y, x)
  {
    nms := new real[height, width]((y, x) => 0.0);
    var y := 1;
    while y < height - 1
      invariant 1 <= y && (height >= 2 ==> y <= height - 1)
      invariant forall y', x' :: 0 <= y' < height && 0 <= x' < width ==>
                  nms[y', x'] == if y' < y then NmsValue(mags, angles, width, height, y', x') else 0.0
    {
      NmsRow(mags, angles, width, height, nms, y);
      y := y + 1;
    }
  }

  /** The inner loop of `applyNMS`: row y, columns 1 .. width - 2. */
  method NmsRow(mags: seq<seq<real>>, angles: seq<seq<real>>, width: int, height: int, nms: array2<real>, y: int)
    requires Table(mags, width, height) && Table(angles, width, height)
    requires nms.Length0 == height && nms.Length1 == width && 1 <= y < height - 1
    requires forall x' :: 0 <= x' < width ==> nms[y, x'] == 0.0
    modifies nms
    ensures forall y', x' :: 0 <= y' < height && 0 <= x' < width ==>
              nms[y', x'] == if y' == y then NmsValue(mags, angles, width, height, y', x') else old(nms[y', x'])
  {
    var x := 1;
    while x < width - 1
      invariant 1 <= x && (width >= 2 ==> x <= width - 1)
      invariant forall y', x' :: 0 <= y' < height && 0 <= x' < width ==>
                  nms[y', x'] == if y' == y && x' < x then NmsValue(mags, angles, width, height, y', x') else old(nms[y', x'])
    {
      var (q, r) := Compared(mags, angles, width, height, y, x);
      if mags[y][x] >= q && mags[y][x] >= r {
        nms[y, x] := mags[y][x];
      } else {
        nms[y, x] := 0.0;
      }
      x := x + 1;
    }
  }

  // ---------------------------------------------------------------------
  // mapToWeights
  // ---------------------------------------------------------------------

  /** `highThresh` and `lowThresh`. */
  const High: real := 100.0
  const Low: real := 40.0

  /** The weight a sampled magnitude gives both walls of its cell: 255 at or above High, else 120. */
  function Level(mag: real): int
  {
    if mag >= High then 255 else 120
  }

  /** The pixel cell (r, c) samples: x = c·width/cols, y = r·height/rows. */
  lemma SampleInImage(n: int, size: int, count: int)
    requires 0 <= n < count && size > 0
    ensures 0 <= n * size / count < size
  {
    var a := n * size;
    MulLe(0, n, size);
    MulLe(n, count - 1, size);
    assert a < count * size;
    var q := a / count;
    assert q * count <= a;
    if q >= size {
      MulLe(size, q, count);
    }
  }

  /** The magnitude cell (r, c) samples. */
  function Sample(nms: array2<real>, rows: int, cols: int, width: int, height: int, r: int, c: int): real
    reads nms
    requires nms.Length0 == height && nms.Length1 == width && (rows > 0 && cols > 0 ==> width > 0 && height > 0)
    requires 0 <= r < rows && 0 <= c < cols
  {
    SampleInImage(r, height, rows);
    SampleInImage(c, width, cols);
    nms[r * height / rows, c * width / cols]
  }

  /**
   * The entries of cell (r, c) for sampled magnitude `mag`: both keys
   * present exactly when mag reaches Low, with the same value Level(mag).
   */
  predicate CellEntry(w: map<WeightKey, int>, r: int, c: int, mag: real)
  {
    (TopKey(r, c) in w <==> mag >= Low) && (LeftKey(r, c) in w <==> mag >= Low) &&
    (mag >= Low ==> w[TopKey(r, c)] == Level(mag) && w[LeftKey(r, c)] == Level(mag))
  }

  /** Cell (r', c') comes before cell (r, c) in row-major order. */
  predicate Before(r': int, c': int, r: int, c: int)
  {
    r' < r || (r' == r && c' < c)
  }

  /**
   * The keys the loops of `mapToWeights` have written once they reach cell
   * (r, c): those of the cells before it whose sample reaches Low.
   */
  predicate Written(nms: array2<real>, rows: int, cols: int, width: int, height: int, r: int, c: int, k: WeightKey)
    reads nms
    requires nms.Length0 == height && nms.Length1 == width && (rows > 0 && cols > 0 ==> width > 0 && height > 0)
  {
    0 <= k.r < rows && 0 <= k.c < cols && Before(k.r, k.c, r, c) &&
    Sample(nms, rows, cols, width, height, k.r, k.c) >= Low
  }

  /** The weight map after the loops reach cell (r, c): its keys are the written ones, each at its sample's level. */
  ghost predicate WeightsUpTo(w: map<WeightKey, int>, nms: array2<real>, rows: int, cols: int, width: int, height: int,
                        r: int, c: int)
    reads nms
    requires nms.Length0 == height && nms.Length1 == width && (rows > 0 && cols > 0 ==> width > 0 && height > 0)
  {
    (forall k :: k in w <==> Written(nms, rows, cols, width, height, r, c, k)) &&
    (forall k :: k in w ==> 0 <= k.r < rows && 0 <= k.c < cols &&
                            w[k] == Level(Sample(nms, rows, cols, width, height, k.r, k.c)))
  }

  /** `mapToWeights`: for every cell, both walls weighted by the sampled magnitude, and no other key. */
  method MapToWeights(nms: array2<real>, rows: int, cols: int, width: int, height: int) returns (weights: map<WeightKey, int>)
    requires nms.Length0 == height && nms.Length1 == width
    requires rows > 0 && cols > 0 ==> width > 0 && height > 0
    ensures forall r, c :: 0 <= r < rows && 0 <= c < cols ==>
              CellEntry(weights, r, c, Sample(nms, rows, cols, width, height, r, c))
    ensures forall k :: k in weights ==> 0 <= k.r < rows && 0 <= k.c < cols
  {
    weights := map[];
    var r := 0;
    while r < rows
      invariant 0 <= r && (r <= rows || r == 0)
      invariant WeightsUpTo(weights, nms, rows, cols, width, height, r, 0)
    {
      weights := WeightRow(nms, rows, cols, width, height, r, weights);
      r := r + 1;
    }
    forall r', c' | 0 <= r' < rows && 0 <= c' < cols
      ensures CellEntry(weights, r', c', Sample(nms, rows, cols, width, height, r', c'))
    {
      assert TopKey(r', c').r == r' && TopKey(r', c').c == c';
      assert LeftKey(r', c').r == r' && LeftKey(r', c').c == c';
    }
  }

  /** The inner loop of `mapToWeights`, over the cells of row r. */
  method WeightRow(nms: array2<real>, rows: int, cols: int, width: int, height: int, r: int, w0: map<WeightKey, int>)
    returns (weights: map<WeightKey, int>)
    requires nms.Length0 == height && nms.Length1 == width && (rows > 0 && cols > 0 ==> width > 0 && height > 0)
    requires 0 <= r < rows
    requires WeightsUpTo(w0, nms, rows, cols, width, height, r, 0)
    ensures WeightsUpTo(weights, nms, rows, cols, width, height, r + 1, 0)
  {
    weights := w0;
    var c := 0;
    while c < cols
      invariant 0 <= c && (c <= cols || c == 0)
      invariant WeightsUpTo(weights, nms, rows, cols, width, height, r, c)
    {
      SampleInImage(r, height, rows);
      SampleInImage(c, width, cols);
      var imgX := c * width / cols;
      var imgY := r * height / rows;
      var mag := nms[imgY, imgX];
      assert mag == Sample(nms, rows, cols, width, height, r, c);
      ghost var before := weights;
      if mag >= High {
        weights := weights[TopKey(r, c) := 255][LeftKey(r, c) := 255];
      } else if mag >= Low {
        weights := weights[TopKey(r, c) := 120][LeftKey(r, c) := 120];
      }
      forall k ensures k in weights <==> Written(nms, rows, cols, width, height, r, c + 1, k) {
        assert Written(nms, rows, cols, width, height, r, c + 1, k) <==>
               Written(nms, rows, cols, width, height, r, c, k) || (k.r == r && k.c == c && mag >= Low);
      }
      c := c + 1;
    }
  }

  /**
   * Every value of the weight map is 120 or 255, and the top and left
   * entries of a cell are either both absent or both present and equal.
   */
  lemma WeightsPaired(nms: array2<real>, rows: int, cols: int, width: int, height: int, weights: map<WeightKey, int>)
    requires nms.Length0 == height && nms.Length1 == width
    requires rows > 0 && cols > 0 ==> width > 0 && height > 0
    requires forall r, c :: 0 <= r < rows && 0 <= c < cols ==>
               CellEntry(weights, r, c, Sample(nms, rows, cols, width, height, r, c))
    requires forall k :: k in weights ==> 0 <= k.r < rows && 0 <= k.c < cols
    ensures forall k :: k in weights ==> weights[k] == 120 || weights[k] == 255
    ensures forall r, c :: (TopKey(r, c) in weights <==> LeftKey(r, c) in weights) &&
              (TopKey(r, c) in weights ==> weights[TopKey(r, c)] == weights[LeftKey(r, c)])
  {
    forall k | k in weights ensures weights[k] == 120 || weights[k] == 255 {
      assert CellEntry(weights, k.r, k.c, Sample(nms, rows, cols, width, height, k.r, k.c));
    }
    forall r, c ensures (TopKey(r, c) in weights <==> LeftKey(r, c) in weights) &&
              (TopKey(r, c) in weights ==> weights[TopKey(r, c)] == weights[LeftKey(r, c)])
    {
      if 0 <= r < rows && 0 <= c < cols {
        assert CellEntry(weights, r, c, Sample(nms, rows, cols, width, height, r, c));
      } else {
        assert TopKey(r, c).r == r && LeftKey(r, c).c == c;
      }
    }
  }

  /** The suppressed magnitude at the pixel cell (r, c) samples. */
  function NmsSample(mags: seq<seq<real>>, angles: seq<seq<real>>, rows: int, cols: int, width: int, height: int,
                     r: int, c: int): real
    requires Table(mags, width, height) && Table(angles, width, height) && width > 0 && height > 0
    requires 0 <= r < rows && 0 <= c < cols
  {
    SampleInImage(r, height, rows);
    SampleInImage(c, width, cols);
    NmsValue(mags, angles, width, height, r * height / rows, c * width / cols)
  }

  /** Sampling the table `applyNMS` returns samples the suppressed magnitudes. */
  lemma SampleAfterNms(mags: seq<seq<real>>, angles: seq<seq<real>>, nms: array2<real>, rows: int, cols: int,
                       width: int, height: int, r: int, c: int)
    requires Table(mags, width, height) && Table(angles, width, height) && width > 0 && height > 0
    requires nms.Length0 == height && nms.Length1 == width
    requires forall y, x :: 0 <= y < height && 0 <= x < width ==> nms[y, x] == NmsValue(mags, angles, width, height, y, x)
    requires 0 <= r < rows && 0 <= c < cols
    ensures Sample(nms, rows, cols, width, height, r, c) == NmsSample(mags, angles, rows, cols, width, height, r, c)
  {
    SampleInImage(r, height, rows);
    SampleInImage(c, width, cols);
  }

  /**
   * `GetEdgeWeights` after the gradients: suppress, then sample. The
   * resulting map weights a cell's walls by the thinned magnitude at its
   * top-left sample pixel.
   */
  method EdgeWeights(mags: seq<seq<real>>, angles: seq<seq<real>>, rows: int, cols: int, width: int, height: int)
    returns (weights: map<WeightKey, int>)
    requires width >= 0 && height >= 0 && Table(mags, width, height) && Table(angles, width, height)
    requires rows > 0 && cols > 0 ==> width > 0 && height > 0
    ensures forall r, c :: 0 <= r < rows && 0 <= c < cols ==>
              CellEntry(weights, r, c, NmsSample(mags, angles, rows, cols, width, height, r, c))
    ensures forall k :: k in weights ==> 0 <= k.r < rows && 0 <= k.c < cols && (weights[k] == 120 || weights[k] == 255)
  {
    var nms := ApplyNms(mags, angles, width, height);
    weights := MapToWeights(nms, rows, cols, width, height);
    WeightsPaired(nms, rows, cols, width, height, weights);
    forall r, c | 0 <= r < rows && 0 <= c < cols
      ensures CellEntry(weights, r, c, NmsSample(mags, angles, rows, cols, width, height, r, c))
    {
      SampleAfterNms(mags, angles, nms, rows, cols, width, height, r, c);
    }
  }
}
