/**
 * The maze creation page (frontend/src/components/pages/Create.tsx): the
 * preference restore and save guards, when submitting is allowed, and the
 * thumbnail geometry that crops the maze region out of the padded
 * back-buffer and scales it to cover a 400 by 225 image.
 */
module CreatePage {
  import opened Common
  import opened ImageDimensions
  import opened HomePage

  /** The saved `gen_prefs` record: the algorithm id as text and the size. */
  datatype Prefs = Prefs(genType: string, dims: Dims)

  /** The padding of the renderer's back-buffer on every side. */
  const Padding: real := 800.0
  const ThumbWidth: real := 400.0
  const ThumbHeight: real := 225.0

  /** One `drawImage(src, sx, sy, sw, sh, dx, dy, dw, dh)` call. */
  datatype DrawImage = DrawImage(sx: real, sy: real, sw: real, sh: real, dx: real, dy: real, dw: real, dh: real)

  /**
   * The thumbnail copy of a back-buffer of w by h: the source rectangle
   * leaves out the padding, the scale is the larger of the two ratios, and
   * the offsets centre the scaled copy.
   */
  function Thumbnail(w: real, h: real): DrawImage
    requires w > 2.0 * Padding && h > 2.0 * Padding
  {
    var mazeW := w - Padding * 2.0;
    var mazeH := h - Padding * 2.0;
    var scale := MaxReal(ThumbWidth / mazeW, ThumbHeight / mazeH);
    DrawImage(Padding, Padding, mazeW, mazeH,
              (ThumbWidth - mazeW * scale) / 2.0, (ThumbHeight - mazeH * scale) / 2.0,
              mazeW * scale, mazeH * scale)
  }

  /** Scaling by at least k / n takes n to at least k. */
  lemma ScaledAtLeast(n: real, k: real, s: real)
    requires n > 0.0 && s >= k / n
    ensures n * s >= k
  {
    assert n * s >= n * (k / n);
  }

  /**
   * The copy strips exactly the padding from each side, keeps the maze's
   * aspect ratio, covers the whole thumbnail (so both offsets are at most
   * 0) and is centred on it, fitting it exactly along one side.
   */
  lemma ThumbnailCovers(w: real, h: real)
    requires w > 2.0 * Padding && h > 2.0 * Padding
    ensures var d := Thumbnail(w, h);
      d.sx == Padding && d.sy == Padding && d.sx + d.sw + Padding == w && d.sy + d.sh + Padding == h &&
      d.dw * d.sh == d.dh * d.sw &&
      d.dx <= 0.0 && d.dy <= 0.0 && d.dx + d.dw >= ThumbWidth && d.dy + d.dh >= ThumbHeight &&
      d.dx + d.dw / 2.0 == ThumbWidth / 2.0 && d.dy + d.dh / 2.0 == ThumbHeight / 2.0 &&
      (d.dw == ThumbWidth || d.dh == ThumbHeight)
  {
    var mazeW := w - Padding * 2.0;
    var mazeH := h - Padding * 2.0;
    var scale := MaxReal(ThumbWidth / mazeW, ThumbHeight / mazeH);
    ScaledAtLeast(mazeW, ThumbWidth, scale);
    ScaledAtLeast(mazeH, ThumbHeight, scale);
    assert (mazeW * scale) * mazeH == (mazeH * scale) * mazeW;
    if scale == ThumbWidth / mazeW {
      assert mazeW * scale == ThumbWidth;
    } else {
      assert mazeH * scale == ThumbHeight;
    }
  }

  /** The page's state. */
  class Create {
    var genType: Algorithm
    var dims: Dims
    var hasLoaded: bool
    var selectedFile: bool
    /** The `savePreferences("gen_prefs", …)` calls, in order. */
    var saved: seq<Prefs>

    constructor ()
      ensures genType == Image && dims == Dims(30, 30) && !hasLoaded && !selectedFile && saved == []
    {
      genType := Image;
      dims := Dims(30, 30);
      hasLoaded := false;
      selectedFile := false;
      saved := [];
    }

    /**
     * The restore effect once its reads complete: a saved algorithm is taken
     * only if it is a known id, the saved size is taken field by field, and
     * the page is marked loaded.
     */
    method Init(prefs: Option<Prefs>)
      modifies this`genType, this`dims, this`hasLoaded
      ensures hasLoaded
      ensures prefs.None? ==> genType == old(genType) && dims == old(dims)
      ensures prefs.Some? ==>
                genType == (if AlgorithmOf(prefs.value.genType).Some? then AlgorithmOf(prefs.value.genType).value
                            else old(genType)) &&
                dims == prefs.value.dims
    {
      if prefs.Some? {
        var p := prefs.value;
        var known := AlgorithmOf(p.genType);
        if known.Some? {
          genType := known.value;
        }
        dims := WithDim(dims, RowsKey, p.dims.rows);
        dims := WithDim(dims, ColsKey, p.dims.cols);
      }
      hasLoaded := true;
    }

    /** The save effect: the current choices are stored only once the page has loaded. */
    method SavePrefs()
      modifies this`saved
      ensures !hasLoaded ==> saved == old(saved)
      ensures hasLoaded ==> saved == old(saved) + [Prefs(AlgorithmId(genType), dims)]
    {
      if hasLoaded {
        saved := saved + [Prefs(AlgorithmId(genType), dims)];
      }
    }

    /** `onImageChange`: a chosen file is kept; none leaves the selection as it was. */
    method OnImageChange(file: bool)
      modifies this`selectedFile
      ensures selectedFile == (old(selectedFile) || file)
    {
      if file {
        selectedFile := true;
      }
    }

    /**
     * `isSubmitDisabled`: a generation in flight always disables the button,
     * image mode keeps it disabled until a file is selected, and the other
     * modes enable it whenever nothing is loading.
     */
    predicate SubmitDisabled(loading: bool): (d: bool)
      reads this
      ensures loading ==> d
      ensures !d && genType == Image ==> selectedFile
      ensures !loading && genType != Image ==> !d
    {
      HomePage.SubmitDisabled(loading, genType, selectedFile)
    }
  }

  /**
   * Restoring never leaves an unknown algorithm: whatever the stored text,
   * the page's algorithm afterwards is one of the known ids, and a known
   * stored id is taken as is.
   */
  lemma RestoreKeepsKnownAlgorithm(current: Algorithm, stored: string)
    ensures var restored := if AlgorithmOf(stored).Some? then AlgorithmOf(stored).value else current;
      AlgorithmOf(AlgorithmId(restored)) == Some(restored) &&
      (stored == "image" || stored == "kruskal" || stored == "recursive" ==> AlgorithmId(restored) == stored)
  {
    AlgorithmIdRoundTrip(current, stored);
  }
}
