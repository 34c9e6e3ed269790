/**
 * Single-channel 8-bit rasters and the per-pixel operators the sketch stage
 * applies to them: inverted binary threshold, erosion and dilation with the
 * 3x3 cross, saturating subtraction, bitwise OR, bitwise NOT, constant border
 * padding and the non-zero pixel count.
 *
 * Out-of-image neighbours are ignored by erosion and dilation (OpenCV's
 * default border for morphology): erosion reads them as 255, the identity of
 * minimum on 0..255, and dilation reads them as 0, the identity of maximum.
 */
module Raster {

  /** An 8-bit intensity. */
  type Pixel = v: int | 0 <= v <= 255

  /** A raster is a sequence of rows. */
  type Raster = seq<seq<Pixel>>

  const Foreground: Pixel := 255
  const Background: Pixel := 0
  /** Grey values at or below this become foreground under the inverted threshold. */
  const ThresholdLevel: Pixel := 127

  function Width(g: Raster): nat {
    if |g| == 0 then 0 else |g[0]|
  }

  /** Every row has the width of the first one. */
  predicate IsRect(g: Raster) {
    forall i :: 0 <= i < |g| ==> |g[i]| == Width(g)
  }

  predicate SameShape(a: Raster, b: Raster) {
    IsRect(a) && IsRect(b) && |a| == |b| && Width(a) == Width(b)
  }

  /** Every pixel is 0 or 255. */
  predicate IsBinary(g: Raster) {
    forall i, j :: 0 <= i < |g| && 0 <= j < |g[i]| ==> g[i][j] == Background || g[i][j] == Foreground
  }

  // The quantifiers over two rasters below fire on the pixels of their first
  // argument only: erosion and dilation read neighbouring pixels, so a
  // trigger on the second argument would chain from pixel to pixel.

  /** Pixel-wise a <= b. */
  predicate Below(a: Raster, b: Raster) {
    SameShape(a, b) &&
    forall i, j {:trigger a[i][j]} :: 0 <= i < |a| && 0 <= j < Width(a) ==> a[i][j] <= b[i][j]
  }

  /** Pixel-wise a >= b. */
  predicate Above(a: Raster, b: Raster) {
    SameShape(a, b) &&
    forall i, j {:trigger a[i][j]} :: 0 <= i < |a| && 0 <= j < Width(a) ==> a[i][j] >= b[i][j]
  }

  /** The foreground (non-zero pixels) of a is part of the foreground of b. */
  predicate Within(a: Raster, b: Raster) {
    SameShape(a, b) &&
    forall i, j {:trigger a[i][j]} :: 0 <= i < |a| && 0 <= j < Width(a) ==> a[i][j] != 0 ==> b[i][j] != 0
  }

  /** A non-empty raster without a single zero pixel. */
  predicate NoBackground(g: Raster) {
    IsRect(g) && |g| > 0 && Width(g) > 0 &&
    forall i, j :: 0 <= i < |g| && 0 <= j < Width(g) ==> g[i][j] != 0
  }

  function Min(a: Pixel, b: Pixel): Pixel {
    if a <= b then a else b
  }

  function Max(a: Pixel, b: Pixel): Pixel {
    if a <= b then b else a
  }

  /** The pixel at (i, j), or `outside` when (i, j) lies outside the raster. */
  function Get(g: Raster, i: int, j: int, outside: Pixel): Pixel {
    if 0 <= i < |g| && 0 <= j < |g[i]| then g[i][j] else outside
  }

  function ZeroRow(n: nat): (r: seq<Pixel>)
    ensures |r| == n
    ensures forall j :: 0 <= j < n ==> r[j] == Background
  {
    seq(n, _ => Background)
  }

  /** An all-background raster of h rows and w columns (np.zeros). */
  function Zeros(h: nat, w: nat): (r: Raster)
    ensures |r| == h && IsRect(r) && (h > 0 ==> Width(r) == w)
    ensures forall i, j :: 0 <= i < h && 0 <= j < |r[i]| ==> r[i][j] == Background
  {
    seq(h, _ => ZeroRow(w))
  }

  // ---------------------------------------------------------------------
  // Threshold (cv2.threshold with THRESH_BINARY_INV, level 127, max 255)
  // ---------------------------------------------------------------------

  /** Dark grey values (at most 127) become foreground, light ones background. */
  function ThresholdPixel(v: Pixel): (r: Pixel)
    ensures r == Background || r == Foreground
    ensures r == Foreground <==> v <= ThresholdLevel
  {
    if v > ThresholdLevel then Background else Foreground
  }

  function Threshold(gray: Raster): (b: Raster)
    requires IsRect(gray)
    ensures SameShape(b, gray) && IsBinary(b)
    ensures forall i, j {:trigger b[i][j]} :: 0 <= i < |gray| && 0 <= j < Width(gray) ==>
      (b[i][j] == Foreground <==> gray[i][j] <= ThresholdLevel)
  {
    seq(|gray|, i requires 0 <= i < |gray| => seq(Width(gray), j requires 0 <= j < Width(gray) => ThresholdPixel(gray[i][j])))
  }

  // ---------------------------------------------------------------------
  // Morphology with the 3x3 cross
  // ---------------------------------------------------------------------

  /** Minimum over the pixel and its four in-image cross neighbours. */
  function ErodeAt(g: Raster, i: int, j: int): Pixel {
    Min(Get(g, i, j, 255),
        Min(Min(Get(g, i - 1, j, 255), Get(g, i + 1, j, 255)),
            Min(Get(g, i, j - 1, 255), Get(g, i, j + 1, 255))))
  }

  /** Maximum over the pixel and its four in-image cross neighbours. */
  function DilateAt(g: Raster, i: int, j: int): Pixel {
    Max(Get(g, i, j, 0),
        Max(Max(Get(g, i - 1, j, 0), Get(g, i + 1, j, 0)),
            Max(Get(g, i, j - 1, 0), Get(g, i, j + 1, 0))))
  }

  /** The pixel (i, j) and each of its in-image cross neighbours is non-zero. */
  predicate CrossAllOn(g: Raster, i: nat, j: nat)
    requires IsRect(g) && i < |g| && j < Width(g)
  {
    g[i][j] != 0 &&
    (i > 0 ==> g[i - 1][j] != 0) && (i + 1 < |g| ==> g[i + 1][j] != 0) &&
    (j > 0 ==> g[i][j - 1] != 0) && (j + 1 < Width(g) ==> g[i][j + 1] != 0)
  }

  /** The pixel (i, j) or one of its in-image cross neighbours is non-zero. */
  predicate CrossAnyOn(g: Raster, i: nat, j: nat)
    requires IsRect(g) && i < |g| && j < Width(g)
  {
    g[i][j] != 0 ||
    (i > 0 && g[i - 1][j] != 0) || (i + 1 < |g| && g[i + 1][j] != 0) ||
    (j > 0 && g[i][j - 1] != 0) || (j + 1 < Width(g) && g[i][j + 1] != 0)
  }

  lemma ErodeAtLaw(g: Raster)
    requires IsRect(g)
    ensures forall i: nat, j: nat :: i < |g| && j < Width(g) ==> (ErodeAt(g, i, j) != 0 <==> CrossAllOn(g, i, j))
  {
  }

  lemma DilateAtLaw(g: Raster)
    requires IsRect(g)
    ensures forall i: nat, j: nat :: i < |g| && j < Width(g) ==> (DilateAt(g, i, j) != 0 <==> CrossAnyOn(g, i, j))
  {
  }

  /**
   * cv2.erode with the cross: a pixel stays foreground exactly when it and
   * all its in-image cross neighbours are foreground. It never adds
   * foreground and keeps a binary raster binary.
   */
  function Erode(g: Raster): (r: Raster)
    requires IsRect(g)
    ensures Below(r, g) && Within(r, g)
    ensures forall i: nat, j: nat {:trigger r[i][j]} :: i < |g| && j < Width(g) ==> (r[i][j] != 0 <==> CrossAllOn(g, i, j))
    ensures IsBinary(g) ==> IsBinary(r)
  {
    ErodeAtLaw(g);
    seq(|g|, i => seq(Width(g), j => ErodeAt(g, i, j)))
  }

  /**
   * cv2.dilate with the cross: a pixel becomes foreground exactly when it
   * or one of its in-image cross neighbours is foreground. It never removes
   * foreground and keeps a binary raster binary.
   */
  function Dilate(g: Raster): (r: Raster)
    requires IsRect(g)
    ensures Above(r, g)
    ensures forall i: nat, j: nat {:trigger r[i][j]} :: i < |g| && j < Width(g) ==> (r[i][j] != 0 <==> CrossAnyOn(g, i, j))
    ensures IsBinary(g) ==> IsBinary(r)
  {
    DilateAtLaw(g);
    seq(|g|, i => seq(Width(g), j => DilateAt(g, i, j)))
  }

  // ---------------------------------------------------------------------
  // Arithmetic and bitwise operators
  // ---------------------------------------------------------------------

  /** cv2.subtract on 8-bit pixels: the difference saturates at 0. */
  function Subtract(a: Raster, b: Raster): (r: Raster)
    requires SameShape(a, b)
    ensures Below(r, a) && Within(r, a)
    ensures forall i, j {:trigger r[i][j]} :: 0 <= i < |a| && 0 <= j < Width(a) ==> (r[i][j] != 0 <==> a[i][j] > b[i][j])
    ensures forall i, j {:trigger r[i][j]} :: 0 <= i < |a| && 0 <= j < Width(a) ==> (a[i][j] > b[i][j] ==> r[i][j] == a[i][j] - b[i][j])
    ensures IsBinary(a) && IsBinary(b) ==> IsBinary(r)
  {
    seq(|a|, i requires 0 <= i < |a| => seq(Width(a), j requires 0 <= j < Width(a) =>
      if a[i][j] >= b[i][j] then a[i][j] - b[i][j] else Background))
  }

  function Pow2(k: nat): (r: nat)
    ensures r >= 1
  {
    if k == 0 then 1 else 2 * Pow2(k - 1)
  }

  /** Bitwise OR of two naturals, one bit at a time from the least significant. */
  function BitOr(a: nat, b: nat): (r: nat)
    ensures r == 0 <==> a == 0 && b == 0
    decreases a + b
  {
    if a == 0 && b == 0 then 0
    else 2 * BitOr(a / 2, b / 2) + (if a % 2 == 1 || b % 2 == 1 then 1 else 0)
  }

  lemma {:induction false} BitOrBelow(a: nat, b: nat, k: nat)
    requires a < Pow2(k) && b < Pow2(k)
    ensures BitOr(a, b) < Pow2(k)
    decreases k
  {
    if k > 0 && !(a == 0 && b == 0) {
      BitOrBelow(a / 2, b / 2, k - 1);
    }
  }

  lemma {:induction false} BitOrIdempotent(a: nat)
    ensures BitOr(a, a) == a
    decreases a
  {
    if a != 0 {
      BitOrIdempotent(a / 2);
    }
  }

  lemma {:induction false} BitOrZero(a: nat)
    ensures BitOr(a, 0) == a && BitOr(0, a) == a
    decreases a
  {
    if a != 0 {
      BitOrZero(a / 2);
    }
  }

  function OrPixel(a: Pixel, b: Pixel): (r: Pixel)
    ensures r == 0 <==> a == 0 && b == 0
    ensures (a == 0 || a == 255) && (b == 0 || b == 255) ==> r == 0 || r == 255
  {
    assert Pow2(8) == 256;
    BitOrBelow(a, b, 8);
    BitOrIdempotent(a);
    BitOrZero(a);
    BitOrZero(b);
    BitOr(a, b)
  }

  /** cv2.bitwise_or: a pixel is foreground when it is foreground in either operand. */
  function Or(a: Raster, b: Raster): (r: Raster)
    requires SameShape(a, b)
    ensures SameShape(r, a)
    ensures forall i, j {:trigger r[i][j]} :: 0 <= i < |a| && 0 <= j < Width(a) ==> (r[i][j] != 0 <==> a[i][j] != 0 || b[i][j] != 0)
    ensures IsBinary(a) && IsBinary(b) ==> IsBinary(r)
  {
    seq(|a|, i requires 0 <= i < |a| => seq(Width(a), j requires 0 <= j < Width(a) => OrPixel(a[i][j], b[i][j])))
  }

  /** cv2.bitwise_not on 8-bit pixels: complementing all eight bits is 255 - v. */
  function Invert(g: Raster): (r: Raster)
    requires IsRect(g)
    ensures SameShape(r, g)
    ensures IsBinary(g) ==> IsBinary(r)
  {
    seq(|g|, i requires 0 <= i < |g| => seq(Width(g), j requires 0 <= j < Width(g) => 255 - g[i][j]))
  }

  lemma InvertInvolutive(g: Raster)
    requires IsRect(g)
    ensures Invert(Invert(g)) == g
  {
    var r := Invert(Invert(g));
    forall i | 0 <= i < |g|
      ensures r[i] == g[i]
    {
      assert |r[i]| == |g[i]|;
    }
  }

  /** Erosion of a raster without a zero pixel has no zero pixel. */
  lemma ErodeKeepsNoBackground(e: Raster)
    requires NoBackground(e)
    ensures NoBackground(Erode(e))
  {
    forall i, j | 0 <= i < |e| && 0 <= j < Width(e)
      ensures Erode(e)[i][j] != 0
    {
      assert Erode(e)[i][j] == ErodeAt(e, i, j);
    }
  }

  lemma WithinTransitive(a: Raster, b: Raster, c: Raster)
    requires Within(a, b) && Within(b, c)
    ensures Within(a, c)
  {
  }

  /** The union of two rasters within c is within c. */
  lemma OrWithin(a: Raster, b: Raster, c: Raster)
    requires Within(a, c) && Within(b, c)
    ensures Within(Or(a, b), c)
  {
  }

  /** A background pixel or cross neighbour of (i, j) makes (i, j) background after erosion. */
  lemma ErodeKeepsNeighbourZero(e: Raster, i: nat, j: nat, i2: nat, j2: nat)
    requires IsRect(e) && i < |e| && j < Width(e) && i2 < |e| && j2 < Width(e)
    requires (i2 == i && j2 == j) || (j2 == j && (i2 == i + 1 || i2 + 1 == i)) || (i2 == i && (j2 == j + 1 || j2 + 1 == j))
    requires e[i2][j2] == 0
    ensures Erode(e)[i][j] == 0
  {
    assert Erode(e)[i][j] == ErodeAt(e, i, j);
    assert Get(e, i2, j2, 255) == 0;
  }

  // ---------------------------------------------------------------------
  // Non-zero count (cv2.countNonZero)
  // ---------------------------------------------------------------------

  function CountRow(row: seq<Pixel>): nat {
    if |row| == 0 then 0 else (if row[0] != 0 then 1 else 0) + CountRow(row[1..])
  }

  function CountNonZero(g: Raster): nat {
    if |g| == 0 then 0 else CountRow(g[0]) + CountNonZero(g[1..])
  }

  lemma {:induction false} CountRowZeroIff(row: seq<Pixel>)
    ensures CountRow(row) == 0 <==> forall j :: 0 <= j < |row| ==> row[j] == 0
  {
    if |row| > 0 {
      CountRowZeroIff(row[1..]);
      assert forall j :: 1 <= j < |row| ==> row[j] == row[1..][j - 1];
    }
  }

  /** The count is zero exactly when every pixel is zero. */
  lemma {:induction false} CountZeroIff(g: Raster)
    ensures CountNonZero(g) == 0 <==> forall i, j :: 0 <= i < |g| && 0 <= j < |g[i]| ==> g[i][j] == 0
  {
    if |g| > 0 {
      CountRowZeroIff(g[0]);
      CountZeroIff(g[1..]);
      assert forall i :: 1 <= i < |g| ==> g[i] == g[1..][i - 1];
    }
  }

  lemma {:induction false} CountRowMonotone(a: seq<Pixel>, b: seq<Pixel>)
    requires |a| == |b|
    requires forall j :: 0 <= j < |a| ==> a[j] != 0 ==> b[j] != 0
    ensures CountRow(a) <= CountRow(b)
  {
    if |a| > 0 {
      CountRowMonotone(a[1..], b[1..]);
    }
  }

  /** A raster whose foreground lies within another's has no larger count. */
  lemma {:induction false} CountMonotone(a: Raster, b: Raster)
    requires Within(a, b)
    ensures CountNonZero(a) <= CountNonZero(b)
  {
    if |a| > 0 {
      CountRowMonotone(a[0], b[0]);
      if |a| > 1 {
        assert Within(a[1..], b[1..]) by {
          forall i, j | 0 <= i < |a| - 1 && 0 <= j < Width(a[1..])
            ensures a[1..][i][j] != 0 ==> b[1..][i][j] != 0
          {
            assert a[1..][i] == a[i + 1] && b[1..][i] == b[i + 1];
          }
        }
        CountMonotone(a[1..], b[1..]);
      }
    }
  }

  lemma {:induction false} CountRowAppend(a: seq<Pixel>, b: seq<Pixel>)
    ensures CountRow(a + b) == CountRow(a) + CountRow(b)
  {
    if |a| > 0 {
      assert (a + b)[1..] == a[1..] + b;
      CountRowAppend(a[1..], b);
    } else {
      assert a + b == b;
    }
  }

  lemma {:induction false} CountAppend(a: Raster, b: Raster)
    ensures CountNonZero(a + b) == CountNonZero(a) + CountNonZero(b)
  {
    if |a| > 0 {
      assert (a + b)[1..] == a[1..] + b;
      CountAppend(a[1..], b);
    } else {
      assert a + b == b;
    }
  }

  // ---------------------------------------------------------------------
  // Constant border (cv2.copyMakeBorder with BORDER_CONSTANT, value 0)
  // ---------------------------------------------------------------------

  /** Each row framed by p background pixels on the left and on the right. */
  function PadRows(g: Raster, p: nat): (r: Raster)
    ensures |r| == |g|
  {
    if |g| == 0 then [] else [ZeroRow(p) + g[0] + ZeroRow(p)] + PadRows(g[1..], p)
  }

  lemma {:induction false} PadRowsAt(g: Raster, p: nat, i: nat)
    requires i < |g|
    ensures PadRows(g, p)[i] == ZeroRow(p) + g[i] + ZeroRow(p)
  {
    if i > 0 {
      PadRowsAt(g[1..], p, i - 1);
    }
  }

  lemma {:induction false} PadRowsCount(g: Raster, p: nat)
    ensures CountNonZero(PadRows(g, p)) == CountNonZero(g)
  {
    if |g| > 0 {
      var row := ZeroRow(p) + g[0] + ZeroRow(p);
      CountRowAppend(ZeroRow(p) + g[0], ZeroRow(p));
      CountRowAppend(ZeroRow(p), g[0]);
      CountRowZeroIff(ZeroRow(p));
      assert PadRows(g, p)[1..] == PadRows(g[1..], p);
      PadRowsCount(g[1..], p);
    }
  }

  /**
   * Adds p background rows above and below and p background columns left
   * and right; the raster appears unchanged at offset (p, p).
   */
  function Pad(g: Raster, p: nat): (r: Raster)
    requires IsRect(g)
    ensures |r| == |g| + 2 * p && IsRect(r)
    ensures |r| > 0 ==> Width(r) == Width(g) + 2 * p
    ensures IsBinary(g) ==> IsBinary(r)
    ensures forall i, j :: 0 <= i < |g| && 0 <= j < Width(g) ==> r[i + p][j + p] == g[i][j]
    ensures forall i, j :: 0 <= i < |r| && 0 <= j < Width(r) && !(p <= i < |g| + p && p <= j < Width(g) + p) ==>
      r[i][j] == Background
  {
    var w := Width(g) + 2 * p;
    var r := Zeros(p, w) + PadRows(g, p) + Zeros(p, w);
    PadLaw(g, p);
    FramedShape(g, p, r);
    FramedPixels(g, p, r);
    r
  }

  /** Row i of the padded raster: a background row in the frame, a framed row of g inside it. */
  lemma PadRowAt(g: Raster, p: nat, i: nat)
    requires i < |g| + 2 * p
    ensures var w := Width(g) + 2 * p;
      var r := Zeros(p, w) + PadRows(g, p) + Zeros(p, w);
      r[i] == if p <= i < |g| + p then ZeroRow(p) + g[i - p] + ZeroRow(p) else ZeroRow(w)
  {
    var w := Width(g) + 2 * p;
    var r := Zeros(p, w) + PadRows(g, p) + Zeros(p, w);
    if i < p {
      assert r[i] == Zeros(p, w)[i];
    } else if i < |g| + p {
      assert r[i] == PadRows(g, p)[i - p];
      PadRowsAt(g, p, i - p);
    } else {
      assert r[i] == Zeros(p, w)[i - p - |g|];
    }
  }

  lemma PadLaw(g: Raster, p: nat)
    ensures FramedRows(g, p, Zeros(p, Width(g) + 2 * p) + PadRows(g, p) + Zeros(p, Width(g) + 2 * p))
  {
    var w := Width(g) + 2 * p;
    var r := Zeros(p, w) + PadRows(g, p) + Zeros(p, w);
    forall i | 0 <= i < |r|
      ensures r[i] == if p <= i < |g| + p then ZeroRow(p) + g[i - p] + ZeroRow(p) else ZeroRow(w)
    {
      PadRowAt(g, p, i);
    }
  }

  /** r holds the rows of g framed by p background pixels, under and over p background rows. */
  ghost predicate FramedRows(g: Raster, p: nat, r: Raster) {
    |r| == |g| + 2 * p &&
    forall i :: 0 <= i < |r| ==>
      r[i] == if p <= i < |g| + p then ZeroRow(p) + g[i - p] + ZeroRow(p) else ZeroRow(Width(g) + 2 * p)
  }

  lemma FramedShape(g: Raster, p: nat, r: Raster)
    requires IsRect(g) && FramedRows(g, p, r)
    ensures IsRect(r) && (|r| > 0 ==> Width(r) == Width(g) + 2 * p)
    ensures IsBinary(g) ==> IsBinary(r)
  {
    assert forall i :: 0 <= i < |r| ==> |r[i]| == Width(g) + 2 * p;
  }

  lemma FramedPixels(g: Raster, p: nat, r: Raster)
    requires IsRect(g) && FramedRows(g, p, r)
    ensures forall i, j :: 0 <= i < |g| && 0 <= j < Width(g) ==> r[i + p][j + p] == g[i][j]
    ensures forall i, j :: 0 <= i < |r| && 0 <= j < Width(g) + 2 * p && !(p <= i < |g| + p && p <= j < Width(g) + p) ==>
      r[i][j] == Background
  {
  }

  lemma PadCount(g: Raster, p: nat)
    requires IsRect(g)
    ensures CountNonZero(Pad(g, p)) == CountNonZero(g)
  {
    var w := Width(g) + 2 * p;
    assert Pad(g, p) == Zeros(p, w) + PadRows(g, p) + Zeros(p, w);
    CountAppend(Zeros(p, w) + PadRows(g, p), Zeros(p, w));
    CountAppend(Zeros(p, w), PadRows(g, p));
    CountZeroIff(Zeros(p, w));
    PadRowsCount(g, p);
  }

  /** Removes a border of p pixels on every side. */
  function Crop(g: Raster, p: nat): (r: Raster)
    requires IsRect(g) && |g| >= 2 * p && Width(g) >= 2 * p
    ensures |r| == |g| - 2 * p
  {
    seq(|g| - 2 * p, i requires 0 <= i < |g| - 2 * p => g[i + p][p .. Width(g) - p])
  }

  /** Cropping the border that padding added gives back the raster. */
  lemma CropPad(g: Raster, p: nat)
    requires IsRect(g)
    ensures Crop(Pad(g, p), p) == g
  {
    var r := Crop(Pad(g, p), p);
    forall i | 0 <= i < |g|
      ensures r[i] == g[i]
    {
      assert |r[i]| == |g[i]|;
    }
  }
}
