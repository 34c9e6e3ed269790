/**
 * The sketch stage of `process_image_to_sketch`: inverted threshold of a
 * grey raster, morphological skeleton by repeated erosion, a 50-pixel
 * background border and inversion to black lines on white.
 *
 * Decoding, resizing to 512x512 and the grey conversion are done by the
 * image library and are abstracted: the stage receives the grey raster, or
 * None for undecodable bytes. BMP encoding is a parameter.
 */
module ImageProc {
  import opened Wrappers
  import opened Raster

  const PaddingSize: nat := 50

  type Bytes = seq<bv8>

  datatype SketchError =
    | DecodeFailed      // the bytes are not an image
    | SkeletonStalled   // the skeleton loop made no progress (guard added by this model)
    | EncodeFailed      // the bitmap could not be encoded

  // ---------------------------------------------------------------------
  // The loop state as functions of the number of passes
  // ---------------------------------------------------------------------

  /** The working raster after k passes: k erosions of the input. */
  function ErodeN(g: Raster, k: nat): (r: Raster)
    requires IsRect(g)
    ensures Below(r, g) && Within(r, g)
    ensures IsBinary(g) ==> IsBinary(r)
    decreases k
  {
    if k == 0 then g else Erode(ErodeN(g, k - 1))
  }

  /**
   * What one pass adds to the skeleton: the working raster minus its
   * opening. It lies within the working raster and is zero wherever the
   * opening already covers the working raster.
   */
  function Residue(working: Raster): (r: Raster)
    requires IsRect(working)
    ensures Within(r, working)
    ensures forall i, j {:trigger r[i][j]} :: 0 <= i < |working| && 0 <= j < Width(working) ==>
      (Dilate(Erode(working))[i][j] >= working[i][j] ==> r[i][j] == Background)
    ensures IsBinary(working) ==> IsBinary(r)
  {
    Subtract(working, Dilate(Erode(working)))
  }

  /**
   * The skeleton after n passes: the union of the residues of passes
   * 0 .. n - 1. It starts all background, stays within the input's
   * foreground and stays binary when the input is binary.
   */
  function SkeletonAfter(g: Raster, n: nat): (s: Raster)
    requires IsRect(g)
    ensures SameShape(s, g) && Within(s, g)
    ensures n == 0 ==> CountNonZero(s) == 0
    ensures IsBinary(g) ==> IsBinary(s)
    decreases n
  {
    if n == 0 then
      var z := Zeros(|g|, Width(g));
      CountZeroIff(z);
      z
    else
      var previous := SkeletonAfter(g, n - 1);
      var working := ErodeN(g, n - 1);
      WithinTransitive(Residue(working), working, g);
      OrWithin(previous, Residue(working), g);
      Or(previous, Residue(working))
  }

  /** Foreground is left after m passes. */
  predicate ForegroundLeft(g: Raster, m: nat)
    requires IsRect(g)
  {
    CountNonZero(ErodeN(g, m)) != 0
  }

  /** Pass n is the first pass after which no foreground is left. */
  predicate IsExitPass(g: Raster, n: nat)
    requires IsRect(g)
  {
    n >= 1 && !ForegroundLeft(g, n) && (n >= 2 ==> ForegroundLeft(g, n - 1))
  }

  /** Once a pass leaves no foreground, no later pass does. */
  lemma EmptyPersists(g: Raster, m: nat, k: nat)
    requires IsRect(g) && m <= k && !ForegroundLeft(g, m)
    ensures !ForegroundLeft(g, k)
  {
    var n := m;
    while n < k
      invariant m <= n <= k && !ForegroundLeft(g, n)
    {
      WorkingCountNonIncreasing(g, n);
      n := n + 1;
    }
  }

  /** Every pass before the exit pass leaves foreground behind. */
  lemma ForegroundBeforeExit(g: Raster, n: nat, m: nat)
    requires IsRect(g) && IsExitPass(g, n) && 1 <= m < n
    ensures ForegroundLeft(g, m)
  {
    if !ForegroundLeft(g, m) {
      EmptyPersists(g, m, n - 1);
    }
  }

  /** The exit pass is unique: the loop can stop at one pass only. */
  lemma ExitPassUnique(g: Raster, n: nat, n': nat)
    requires IsRect(g) && IsExitPass(g, n) && IsExitPass(g, n')
    ensures n == n'
  {
    if n < n' {
      ForegroundBeforeExit(g, n', n);
    } else if n' < n {
      ForegroundBeforeExit(g, n, n');
    }
  }

  /** One pass of the loop body, in terms of the pass count. */
  lemma PassStep(g: Raster, k: nat)
    requires IsRect(g) && k > 0
    ensures ErodeN(g, k) == Erode(ErodeN(g, k - 1))
    ensures SkeletonAfter(g, k) ==
      Or(SkeletonAfter(g, k - 1), Subtract(ErodeN(g, k - 1), Dilate(Erode(ErodeN(g, k - 1)))))
  {
  }

  // ---------------------------------------------------------------------
  // Invariants of the loop
  // ---------------------------------------------------------------------

  /** The foreground count of the working raster never grows from one pass to the next. */
  lemma WorkingCountNonIncreasing(g: Raster, k: nat)
    requires IsRect(g)
    ensures CountNonZero(ErodeN(g, k + 1)) <= CountNonZero(ErodeN(g, k))
  {
    CountMonotone(ErodeN(g, k + 1), ErodeN(g, k));
  }

  function Abs(x: int): nat {
    if x < 0 then -x else x
  }

  /** Every pixel within city-block distance d of (p, q) is background. */
  predicate BackgroundAround(e: Raster, p: nat, q: nat, d: nat) {
    forall i: nat, j: nat :: i < |e| && j < |e[i]| && Abs(i - p) + Abs(j - q) <= d ==> e[i][j] == 0
  }

  /** One erosion widens a background neighbourhood by one cross step. */
  lemma ErosionWidens(e: Raster, p: nat, q: nat, d: nat)
    requires IsRect(e) && p < |e| && q < Width(e) && BackgroundAround(e, p, q, d)
    ensures BackgroundAround(Erode(e), p, q, d + 1)
  {
    forall i: nat, j: nat | i < |e| && j < Width(e) && Abs(i - p) + Abs(j - q) <= d + 1
      ensures Erode(e)[i][j] == 0
    {
      // (i2, j2) is (i, j) itself or its cross neighbour one step nearer to (p, q)
      var i2: nat := if i < p then i + 1 else if i > p then i - 1 else i;
      var j2: nat := if i != p then j else if j < q then j + 1 else if j > q then j - 1 else j;
      assert i2 < |e| && j2 < Width(e) && Abs(i2 - p) + Abs(j2 - q) <= d;
      assert e[i2][j2] == 0;
      ErodeKeepsNeighbourZero(e, i, j, i2, j2);
    }
  }

  /**
   * Erosion spreads a background pixel by one cross step per pass: after k
   * passes every pixel within distance k of it is background.
   */
  lemma {:induction false} BackgroundSpreads(g: Raster, p: nat, q: nat, k: nat)
    requires IsRect(g) && p < |g| && q < Width(g) && g[p][q] == 0
    ensures BackgroundAround(ErodeN(g, k), p, q, k)
    decreases k
  {
    if k > 0 {
      assert BackgroundAround(ErodeN(g, k - 1), p, q, k - 1) by { BackgroundSpreads(g, p, q, k - 1); }
      assert p < |ErodeN(g, k - 1)| && q < Width(ErodeN(g, k - 1));
      ErosionWidens(ErodeN(g, k - 1), p, q, k - 1);
    }
  }

  /**
   * A raster with a background pixel (or no pixels at all) is empty of
   * foreground after |g| + Width(g) - 2 passes, so the loop exits by then.
   */
  lemma ExitGuaranteed(g: Raster, k: nat)
    requires IsRect(g) && !NoBackground(g) && k + 2 >= |g| + Width(g)
    ensures CountNonZero(ErodeN(g, k)) == 0
  {
    var e := ErodeN(g, k);
    if |g| > 0 && Width(g) > 0 {
      var p: nat, q: nat :| p < |g| && q < Width(g) && g[p][q] == 0;
      BackgroundSpreads(g, p, q, k);
      forall i: nat, j: nat | i < |e| && j < |e[i]|
        ensures e[i][j] == 0
      {
        assert Abs(i - p) + Abs(j - q) <= k;
      }
    }
    CountZeroIff(e);
  }

  /** Erosion never creates a zero in a raster that has none. */
  lemma {:induction false} NoBackgroundPersists(g: Raster, k: nat)
    requires NoBackground(g)
    ensures NoBackground(ErodeN(g, k))
    decreases k
  {
    if k > 0 {
      assert NoBackground(ErodeN(g, k - 1)) by { NoBackgroundPersists(g, k - 1); }
      ErodeKeepsNoBackground(ErodeN(g, k - 1));
    }
  }

  /**
   * The loop as written: on a raster without background, for instance the
   * threshold of an all-dark image, the working raster keeps a non-zero
   * count after every pass, so `countNonZero(binary) == 0` never holds and
   * the unbounded loop never exits.
   */
  lemma StallsWithoutBackground(g: Raster, k: nat)
    requires NoBackground(g)
    ensures CountNonZero(ErodeN(g, k)) > 0
  {
    NoBackgroundPersists(g, k);
    CountZeroIff(ErodeN(g, k));
    assert ErodeN(g, k)[0][0] != 0;
  }

  /** The guard fires only on a raster without background. */
  lemma StalledOnlyWithoutBackground(g: Raster, k: nat, working: Raster)
    requires IsRect(g) && k + 2 >= |g| + Width(g)
    requires working == ErodeN(g, k) && CountNonZero(working) != 0
    ensures NoBackground(g)
  {
    if !NoBackground(g) {
      ExitGuaranteed(g, k);
    }
  }

  /** A pass that empties the working raster exists only on a raster with background. */
  lemma EmptiedOnlyWithBackground(g: Raster, k: nat, working: Raster)
    requires IsRect(g) && working == ErodeN(g, k) && CountNonZero(working) == 0
    ensures !NoBackground(g)
  {
    if NoBackground(g) {
      StallsWithoutBackground(g, k);
    }
  }

  /** The loop's exit test, stated on the working rasters before and after pass n. */
  lemma ExitTest(g: Raster, n: nat, before: Raster, after: Raster)
    requires IsRect(g) && n >= 1 && before == ErodeN(g, n - 1) && after == ErodeN(g, n)
    requires n >= 2 ==> CountNonZero(before) != 0
    requires CountNonZero(after) == 0
    ensures IsExitPass(g, n)
  {
  }

  /** Every grey value is at most 127, so the threshold is all foreground. */
  predicate AllDark(gray: Raster) {
    IsRect(gray) && |gray| > 0 && Width(gray) > 0 &&
    forall i, j :: 0 <= i < |gray| && 0 <= j < Width(gray) ==> gray[i][j] <= ThresholdLevel
  }

  lemma DarkExactlyWhenNoBackground(gray: Raster)
    requires IsRect(gray)
    ensures NoBackground(Threshold(gray)) <==> AllDark(gray)
  {
    var b := Threshold(gray);
    assert forall i, j :: 0 <= i < |gray| && 0 <= j < Width(gray) ==> (b[i][j] != 0 <==> gray[i][j] <= ThresholdLevel);
  }

  /**
   * The skeleton keeps the last layer whole: at the exit pass the erosion
   * of the working raster is empty, so its opening is empty and the whole
   * working raster of the previous pass goes into the skeleton.
   */
  lemma SkeletonKeepsLastLayer(g: Raster, n: nat)
    requires IsRect(g) && IsExitPass(g, n)
    ensures Within(ErodeN(g, n - 1), SkeletonAfter(g, n))
  {
    var w := ErodeN(g, n - 1);
    assert Erode(w) == ErodeN(g, n);
    ResidueOfLastLayer(w);
    WithinUnion(w, SkeletonAfter(g, n - 1), Residue(w));
  }

  /** When erosion empties the working raster, the residue is the whole working raster. */
  lemma ResidueOfLastLayer(w: Raster)
    requires IsRect(w) && CountNonZero(Erode(w)) == 0
    ensures Within(w, Residue(w))
  {
    var e := Erode(w);
    CountZeroIff(e);
    var opening := Dilate(e);
    forall i: nat, j: nat | i < |w| && j < Width(w)
      ensures opening[i][j] == 0
    {
      assert !CrossAnyOn(e, i, j);
    }
  }

  /** A raster within the second operand of a union is within the union. */
  lemma WithinUnion(a: Raster, b: Raster, c: Raster)
    requires Within(a, c) && SameShape(b, c)
    ensures Within(a, Or(b, c))
  {
  }

  /** A skeleton of an input with foreground has foreground. */
  lemma SkeletonNonEmpty(g: Raster, n: nat)
    requires IsRect(g) && IsExitPass(g, n) && CountNonZero(g) != 0
    ensures CountNonZero(SkeletonAfter(g, n)) != 0
  {
    SkeletonKeepsLastLayer(g, n);
    CountMonotone(ErodeN(g, n - 1), SkeletonAfter(g, n));
  }

  // ---------------------------------------------------------------------
  // The skeleton loop
  // ---------------------------------------------------------------------

  /**
   * One pass of the loop body (modules/image_proc.py, lines 28-33): erode, open, take the residue
   * and OR it into the skeleton. Pass k of the loop started on `binary`.
   */
  method SkeletonPass(ghost binary: Raster, ghost k: nat, working: Raster, skeleton: Raster)
    returns (eroded: Raster, next: Raster)
    requires IsRect(binary)
    requires working == ErodeN(binary, k) && skeleton == SkeletonAfter(binary, k)
    ensures eroded == ErodeN(binary, k + 1) && next == SkeletonAfter(binary, k + 1)
  {
    eroded := Erode(working);
    var opening := Dilate(eroded);
    var residue := Subtract(working, opening);
    next := Or(skeleton, residue);
    PassStep(binary, k + 1);
  }

  /**
   * The skeleton loop of modules/image_proc.py, lines 24-35, with a
   * defensive guard: the source loops until the working raster has no
   * foreground; here the loop also stops after |binary| + Width(binary)
   * passes, which no input with a background pixel ever reaches. `emptied`
   * tells which of the two ended it.
   */
  method RunPasses(binary: Raster) returns (skeleton: Raster, passes: nat, emptied: bool)
    requires IsRect(binary)
    ensures emptied <==> !NoBackground(binary)
    ensures emptied ==> IsExitPass(binary, passes) && skeleton == SkeletonAfter(binary, passes)
    ensures !emptied ==> passes == |binary| + Width(binary)
  {
    var bound := |binary| + Width(binary);
    skeleton := Zeros(|binary|, Width(binary));
    var working := binary;
    passes := 0;
    while true
      invariant passes == 0 || passes < bound
      invariant working == ErodeN(binary, passes)
      invariant skeleton == SkeletonAfter(binary, passes)
      invariant passes >= 1 ==> CountNonZero(working) != 0
      decreases bound - passes
    {
      ghost var before := working;
      working, skeleton := SkeletonPass(binary, passes, working, skeleton);
      passes := passes + 1;
      if CountNonZero(working) == 0 {
        ExitTest(binary, passes, before, working);
        EmptiedOnlyWithBackground(binary, passes, working);
        return skeleton, passes, true;
      }
      if passes >= bound {
        StalledOnlyWithoutBackground(binary, passes, working);
        assert passes == bound;
        return skeleton, passes, false;
      }
    }
  }

  /**
   * The skeleton, or None when the guard stopped the loop. It fails exactly
   * on the inputs on which the source never terminates; otherwise `passes`
   * is the first pass that empties the working raster, the result is the
   * union of the residues of passes 0 .. passes - 1, it keeps the last
   * layer whole, and it has foreground when the input has.
   */
  method Skeletonize(binary: Raster) returns (r: Option<Raster>, passes: nat)
    requires IsRect(binary)
    ensures r.None? <==> NoBackground(binary)
    ensures r.Some? ==> IsExitPass(binary, passes) && r.value == SkeletonAfter(binary, passes)
    ensures r.Some? ==> Within(ErodeN(binary, passes - 1), r.value)
    ensures r.Some? && CountNonZero(binary) != 0 ==> CountNonZero(r.value) != 0
    ensures r.None? ==> passes == |binary| + Width(binary)
  {
    var skeleton, emptied;
    skeleton, passes, emptied := RunPasses(binary);
    if !emptied {
      return None, passes;
    }
    SkeletonKeepsLastLayer(binary, passes);
    if CountNonZero(binary) != 0 {
      SkeletonNonEmpty(binary, passes);
    }
    r := Some(skeleton);
  }

  // ---------------------------------------------------------------------
  // Border and inversion
  // ---------------------------------------------------------------------

  /** The bitmap handed to the encoder: the padded skeleton, inverted. */
  function SketchBitmap(skeleton: Raster): (b: Raster)
    requires IsRect(skeleton)
    ensures |b| == |skeleton| + 2 * PaddingSize && IsRect(b)
    ensures Width(b) == Width(skeleton) + 2 * PaddingSize
    ensures IsBinary(skeleton) ==> IsBinary(b)
  {
    Invert(Pad(skeleton, PaddingSize))
  }

  /**
   * The bitmap is white (255) in the 50-pixel frame and 255 - s at the
   * skeleton's own pixels, so skeleton pixels (255) become black lines (0).
   */
  lemma SketchBitmapLaw(s: Raster)
    requires IsRect(s)
    ensures var b := SketchBitmap(s);
      && (forall i, j :: 0 <= i < |s| && 0 <= j < Width(s) ==> b[i + PaddingSize][j + PaddingSize] == 255 - s[i][j])
      && (forall i, j :: 0 <= i < |b| && 0 <= j < Width(b) ==>
            (!(PaddingSize <= i < |s| + PaddingSize && PaddingSize <= j < Width(s) + PaddingSize) ==>
             b[i][j] == Foreground))
  {
  }

  /** The foreground count of the skeleton equals the background count of the inner bitmap. */
  lemma SketchKeepsLinePixels(s: Raster)
    requires IsRect(s)
    ensures Invert(SketchBitmap(s)) == Pad(s, PaddingSize)
    ensures CountNonZero(Invert(SketchBitmap(s))) == CountNonZero(s)
  {
    InvertInvolutive(Pad(s, PaddingSize));
    PadCount(s, PaddingSize);
  }

  // ---------------------------------------------------------------------
  // The whole stage
  // ---------------------------------------------------------------------

  function EncodeOutcome(encoded: Option<Bytes>): Result<Bytes, SketchError> {
    match encoded
    case None => Failure(EncodeFailed)
    case Some(bytes) => Success(bytes)
  }

  /**
   * process_image_to_sketch: `decoded` is the decoded, resized grey raster
   * or None when the bytes are not an image; `encode` is the BMP encoder.
   */
  method ProcessImageToSketch(decoded: Option<Raster>, encode: Raster -> Option<Bytes>)
    returns (r: Result<Bytes, SketchError>)
    requires decoded.Some? ==> IsRect(decoded.value)
    ensures decoded.None? ==> r == Failure(DecodeFailed)
    ensures decoded.Some? ==> (r == Failure(SkeletonStalled) <==> AllDark(decoded.value))
    ensures decoded.Some? && !AllDark(decoded.value) ==>
      exists n :: IsExitPass(Threshold(decoded.value), n) &&
        r == EncodeOutcome(encode(SketchBitmap(SkeletonAfter(Threshold(decoded.value), n))))
  {
    if decoded.None? {
      return Failure(DecodeFailed);
    }
    var gray := decoded.value;
    var binary := Threshold(gray);
    var skeleton, passes := Skeletonize(binary);
    DarkExactlyWhenNoBackground(gray);
    if skeleton.None? {
      return Failure(SkeletonStalled);
    }
    var bitmap := SketchBitmap(skeleton.value);
    r := EncodeOutcome(encode(bitmap));
  }
}
