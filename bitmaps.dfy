/**
 * Grey-scale glyph bitmaps and the two operations the offset search applies
 * to them: shifting an image by (dx, dy) without wrap-around, and the
 * uncovered-ink cost of an overlay against a reference
 * (align_fonts.py, move_image and the sums at lines 77 and 86).
 */
module Bitmaps {

  /** A bitmap as a sequence of rows; pixel values are raw 8-bit intensities, 0 = ink, 255 = background. */
  type Grid = seq<seq<int>>

  /** Full background intensity of an 8-bit grey-scale pixel. */
  const MaxIntensity: int := 255

  /** Number of columns (the length of the first row; 0 for an image without rows). */
  function Width(g: Grid): nat {
    if |g| == 0 then 0 else |g[0]|
  }

  /** Number of pixels of a rectangular image. */
  function Pixels(g: Grid): nat {
    |g| * Width(g)
  }

  /** Every row has the same length, as in a two-dimensional numpy array. */
  predicate Rectangular(g: Grid) {
    forall r :: 0 <= r < |g| ==> |g[r]| == Width(g)
  }

  /** Every pixel lies in lo..hi. */
  predicate PixelsIn(g: Grid, lo: int, hi: int) {
    forall r, c :: 0 <= r < |g| && 0 <= c < |g[r]| ==> lo <= g[r][c] <= hi
  }

  predicate SameShape(a: Grid, b: Grid) {
    Rectangular(a) && Rectangular(b) && |a| == |b| && Width(a) == Width(b)
  }

  /** `dx > 0` branch: pad `k` columns on the left, then drop the last `k` columns. */
  function PadLeft(img: Grid, k: nat, pad: int): (m: Grid)
    requires Rectangular(img)
    ensures Rectangular(m) && |m| == |img| && Width(m) == Width(img)
  {
    seq(|img|, r requires 0 <= r < |img| => (seq(k, _ => pad) + img[r])[..|img[r]|])
  }

  /** `dx < 0` branch: pad `k` columns on the right, then drop the first `k` columns. */
  function PadRight(img: Grid, k: nat, pad: int): (m: Grid)
    requires Rectangular(img)
    ensures Rectangular(m) && |m| == |img| && Width(m) == Width(img)
  {
    seq(|img|, r requires 0 <= r < |img| => (img[r] + seq(k, _ => pad))[k..])
  }

  /** `dy > 0` branch: pad `k` rows on top, then drop the last `k` rows. */
  function PadTop(img: Grid, k: nat, pad: int): (m: Grid)
    requires Rectangular(img)
    ensures Rectangular(m) && |m| == |img| && Width(m) == Width(img)
  {
    (seq(k, _ => seq(Width(img), _ => pad)) + img)[..|img|]
  }

  /** `dy < 0` branch: pad `k` rows at the bottom, then drop the first `k` rows. */
  function PadBottom(img: Grid, k: nat, pad: int): (m: Grid)
    requires Rectangular(img)
    ensures Rectangular(m) && |m| == |img| && Width(m) == Width(img)
  {
    (img + seq(k, _ => seq(Width(img), _ => pad)))[k..]
  }

  /**
   * The image moved right by `dx` and down by `dy`: the shape is kept, the
   * vacated side is filled with `pad` and whatever moves off the canvas is
   * lost (never wrapped round).
   */
  function MoveImage(img: Grid, dx: int, dy: int, pad: int): (m: Grid)
    requires Rectangular(img)
    ensures Rectangular(m) && |m| == |img| && Width(m) == Width(img)
  {
    MoveRows(MoveColumns(img, dx, pad), dy, pad)
  }

  /** The two `dx` branches of move_image (at most one applies). */
  function MoveColumns(img: Grid, dx: int, pad: int): (m: Grid)
    requires Rectangular(img)
    ensures Rectangular(m) && |m| == |img| && Width(m) == Width(img)
  {
    if dx > 0 then PadLeft(img, dx, pad) else if dx < 0 then PadRight(img, -dx, pad) else img
  }

  /** The two `dy` branches of move_image (at most one applies). */
  function MoveRows(img: Grid, dy: int, pad: int): (m: Grid)
    requires Rectangular(img)
    ensures Rectangular(m) && |m| == |img| && Width(m) == Width(img)
  {
    if dy > 0 then PadTop(img, dy, pad) else if dy < 0 then PadBottom(img, -dy, pad) else img
  }

  lemma PadLeftAt(img: Grid, k: nat, pad: int)
    requires Rectangular(img)
    ensures forall r, c :: 0 <= r < |img| && 0 <= c < Width(img) ==>
              PadLeft(img, k, pad)[r][c] == (if c < k then pad else img[r][c - k])
  {
  }

  lemma PadRightAt(img: Grid, k: nat, pad: int)
    requires Rectangular(img)
    ensures forall r, c :: 0 <= r < |img| && 0 <= c < Width(img) ==>
              PadRight(img, k, pad)[r][c] == (if c + k < Width(img) then img[r][c + k] else pad)
  {
  }

  lemma PadTopAt(img: Grid, k: nat, pad: int)
    requires Rectangular(img)
    ensures forall r, c :: 0 <= r < |img| && 0 <= c < Width(img) ==>
              PadTop(img, k, pad)[r][c] == (if r < k then pad else img[r - k][c])
  {
  }

  lemma PadBottomAt(img: Grid, k: nat, pad: int)
    requires Rectangular(img)
    ensures forall r, c :: 0 <= r < |img| && 0 <= c < Width(img) ==>
              PadBottom(img, k, pad)[r][c] == (if r + k < |img| then img[r + k][c] else pad)
  {
  }

  /**
   * Pixel (r, c) of the moved image comes from (r - dy, c - dx) when that
   * lies on the canvas and is `pad` otherwise: ink moved off the canvas is
   * lost, never wrapped round.
   */
  lemma MoveImageAt(img: Grid, dx: int, dy: int, pad: int)
    requires Rectangular(img)
    ensures forall r, c :: 0 <= r < |img| && 0 <= c < Width(img) ==>
              MoveImage(img, dx, dy, pad)[r][c] == (if 0 <= r - dy < |img| && 0 <= c - dx < Width(img) then img[r - dy][c - dx] else pad)
  {
    var b := MoveColumns(img, dx, pad);
    MoveColumnsAt(img, dx, pad);
    MoveRowsAt(b, dy, pad);
  }

  lemma MoveColumnsAt(img: Grid, dx: int, pad: int)
    requires Rectangular(img)
    ensures forall r, c :: 0 <= r < |img| && 0 <= c < Width(img) ==>
              MoveColumns(img, dx, pad)[r][c] == (if 0 <= c - dx < Width(img) then img[r][c - dx] else pad)
  {
    if dx > 0 { PadLeftAt(img, dx, pad); }
    if dx < 0 { PadRightAt(img, -dx, pad); }
  }

  lemma MoveRowsAt(img: Grid, dy: int, pad: int)
    requires Rectangular(img)
    ensures forall r, c :: 0 <= r < |img| && 0 <= c < Width(img) ==>
              MoveRows(img, dy, pad)[r][c] == (if 0 <= r - dy < |img| then img[r - dy][c] else pad)
  {
    if dy > 0 { PadTopAt(img, dy, pad); }
    if dy < 0 { PadBottomAt(img, -dy, pad); }
  }

  /** Moving by (0, 0) returns the image unchanged. */
  lemma MoveImageUnshifted(img: Grid, pad: int)
    requires Rectangular(img)
    ensures MoveImage(img, 0, 0, pad) == img
  {
  }

  /** Moved pixels come from the image or the padding, so bounds on both bound the result. */
  lemma MoveImageBounds(img: Grid, dx: int, dy: int, pad: int, lo: int, hi: int)
    requires Rectangular(img) && PixelsIn(img, lo, hi) && lo <= pad <= hi
    ensures PixelsIn(MoveImage(img, dx, dy, pad), lo, hi)
  {
    MoveImageAt(img, dx, dy, pad);
  }

  /** Sum over one row of overlay intensity times the reference's missing brightness. */
  function RowCost(overlay: seq<int>, reference: seq<int>): (s: int)
    requires |overlay| == |reference|
    ensures (forall c :: 0 <= c < |overlay| ==> 0 <= overlay[c] && reference[c] <= MaxIntensity) ==> 0 <= s
  {
    if |overlay| == 0 then 0
    else
      var n := |overlay| - 1;
      RowCost(overlay[..n], reference[..n]) + overlay[n] * (MaxIntensity - reference[n])
  }

  /**
   * Sum of overlay x (255 - reference) over the whole image. With pixels
   * divided by 255 as the source does, this is 255 * 255 times
   * `np.sum(overlay * (1.0 - reference))`.
   */
  function Cost(overlay: Grid, reference: Grid): (s: int)
    requires SameShape(overlay, reference)
    ensures PixelsIn(overlay, 0, MaxIntensity * MaxIntensity) && PixelsIn(reference, 0, MaxIntensity) ==> 0 <= s
  {
    if |overlay| == 0 then 0
    else
      var n := |overlay| - 1;
      assert Width(overlay[..n]) == Width(overlay) || n == 0;
      Cost(overlay[..n], reference[..n]) + RowCost(overlay[n], reference[n])
  }

  /** Every pixel is pure ink or pure background. */
  predicate Binary(g: Grid) {
    forall r, c :: 0 <= r < |g| && 0 <= c < |g[r]| ==> g[r][c] == 0 || g[r][c] == MaxIntensity
  }

  lemma {:induction false} RowCostAtMost(overlay: seq<int>, reference: seq<int>)
    requires |overlay| == |reference|
    requires forall c :: 0 <= c < |overlay| ==> 0 <= overlay[c] <= MaxIntensity && 0 <= reference[c] <= MaxIntensity
    ensures RowCost(overlay, reference) <= MaxIntensity * MaxIntensity * |overlay|
  {
    if |overlay| > 0 {
      var n := |overlay| - 1;
      RowCostAtMost(overlay[..n], reference[..n]);
      ProductAtMost(overlay[n], MaxIntensity - reference[n]);
    }
  }

  lemma ProductAtMost(a: int, b: int)
    requires 0 <= a <= MaxIntensity && 0 <= b <= MaxIntensity
    ensures a * b <= MaxIntensity * MaxIntensity
  {
    NonnegProduct(MaxIntensity - a, b);
    assert (MaxIntensity - a) * b == MaxIntensity * b - a * b;
    assert MaxIntensity * b <= MaxIntensity * MaxIntensity;
  }

  lemma NonnegProduct(x: int, y: int)
    requires x >= 0 && y >= 0
    ensures x * y >= 0
  {
  }

  /** An unshifted 8-bit overlay leaves at most every pixel fully uncovered. */
  lemma {:induction false} CostAtMost(overlay: Grid, reference: Grid)
    requires SameShape(overlay, reference)
    requires PixelsIn(overlay, 0, MaxIntensity) && PixelsIn(reference, 0, MaxIntensity)
    ensures Cost(overlay, reference) <= MaxIntensity * MaxIntensity * Pixels(overlay)
  {
    if |overlay| > 0 {
      var n, w := |overlay| - 1, Width(overlay);
      var full := MaxIntensity * MaxIntensity;
      var head := Cost(overlay[..n], reference[..n]);
      var last := RowCost(overlay[n], reference[n]);
      CostAtMost(overlay[..n], reference[..n]);
      RowCostAtMost(overlay[n], reference[n]);
      assert head <= full * (n * w) by {
        if n > 0 { assert Width(overlay[..n]) == w; }
        assert Pixels(overlay[..n]) == n * Width(overlay[..n]);
      }
      assert last <= full * w;
      assert Cost(overlay, reference) == head + last;
      assert full * (n * w) + full * w == full * ((n + 1) * w);
      assert Pixels(overlay) == (n + 1) * w;
    }
  }

  lemma {:induction false} RowCostOfBinarySelf(row: seq<int>)
    requires forall c :: 0 <= c < |row| ==> row[c] == 0 || row[c] == MaxIntensity
    ensures RowCost(row, row) == 0
  {
    if |row| > 0 {
      RowCostOfBinarySelf(row[..|row| - 1]);
    }
  }

  /** A two-tone image laid over itself leaves no ink uncovered. */
  lemma {:induction false} CostOfBinarySelf(g: Grid)
    requires Rectangular(g) && Binary(g)
    ensures Cost(g, g) == 0
  {
    if |g| > 0 {
      var n := |g| - 1;
      assert Width(g[..n]) == Width(g) || n == 0;
      CostOfBinarySelf(g[..n]);
      RowCostOfBinarySelf(g[n]);
    }
  }
}
