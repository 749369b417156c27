/**
 * The per-character offset search of align_fonts.py (optimize_offset): a
 * memoised greedy descent over integer pixel offsets, from the independently
 * centred start (0, 0), moving to the cheapest of the eight neighbours while
 * that neighbour is strictly cheaper.
 */
module OffsetSearch {
  import opened Bitmaps
  import opened Argmin

  /** A shift (dx, dy) of the overlay in pixels; positive dx moves right, positive dy moves down. */
  type Offset = (int, int)

  const Origin: Offset := (0, 0)

  /** The eight king moves in the order the source enumerates them. */
  const Neighbors: seq<Offset> := [(1, 0), (1, 1), (0, 1), (-1, 1), (-1, 0), (-1, -1), (0, -1), (1, -1)]

  /**
   * Intensity of the area shifted in from outside the canvas, in raw units.
   * The source pads with 255 after dividing the pixels by 255, so a padded
   * pixel weighs 255 times a background pixel.
   */
  const OffCanvas: int := MaxIntensity * MaxIntensity

  /** Factor between this model's integer cost and the source's normalised cost. */
  const CostScale: nat := MaxIntensity * MaxIntensity

  function Add(o: Offset, d: Offset): Offset {
    (o.0 + d.0, o.1 + d.1)
  }

  /**
   * What the search needs of one character: the reference glyph rendered in
   * the base font with its x anchor, and the overlay glyph rendered in the
   * trial font on a canvas of the same shape with its own x anchor.
   */
  datatype GlyphPair = GlyphPair(reference: Grid, referenceAnchor: int, overlay: Grid, overlayAnchor: int)

  /** Both bitmaps are 8-bit images of one non-empty shape, as the rasteriser produces. */
  predicate WellFormed(g: GlyphPair) {
    && SameShape(g.overlay, g.reference)
    && |g.reference| > 0 && Width(g.reference) > 0
    && PixelsIn(g.overlay, 0, MaxIntensity) && PixelsIn(g.reference, 0, MaxIntensity)
  }

  /** Number of pixels of the reference bitmap. */
  function Area(g: GlyphPair): (n: nat)
    requires WellFormed(g)
    ensures n > 0 && n == Pixels(g.reference) && n == Pixels(g.overlay)
  {
    var h, w := |g.reference|, Width(g.reference);
    assert h * w >= w by { assert h >= 1; }
    h * w
  }

  /** The remainder for offset `o`: uncovered reference ink once the overlay is moved by `o`. */
  function Remainder(g: GlyphPair, o: Offset): nat
    requires WellFormed(g)
  {
    var moved := MoveImage(g.overlay, o.0, o.1, OffCanvas);
    MoveImageBounds(g.overlay, o.0, o.1, OffCanvas, 0, MaxIntensity * MaxIntensity);
    Cost(moved, g.reference)
  }

  /** The remainder of every offset for one glyph pair: the surface the descent walks on. */
  function RemainderSurface(g: GlyphPair): Offset -> nat
    requires WellFormed(g)
  {
    o => Remainder(g, o)
  }

  /** The costs of the offsets `o + deltas[k]`, in the order of `deltas`. */
  function NeighborCosts(cost: Offset -> nat, o: Offset, deltas: seq<Offset>): seq<real>
  {
    seq(|deltas|, k requires 0 <= k < |deltas| => cost(Add(o, deltas[k])) as real)
  }

  /** The neighbour the source moves to from `o`: the first one of smallest cost. */
  function BestNeighbor(cost: Offset -> nat, o: Offset): Offset {
    Add(o, Neighbors[FirstArgMin(NeighborCosts(cost, o, Neighbors))])
  }

  /** The descent has stopped at `o`: no neighbour is cheaper. */
  predicate IsLocalMinimum(cost: Offset -> nat, o: Offset) {
    forall k :: 0 <= k < |Neighbors| ==> cost(o) <= cost(Add(o, Neighbors[k]))
  }

  /** Where the greedy descent started at `o` stops. */
  function Descent(cost: Offset -> nat, o: Offset): Offset
    decreases cost(o)
  {
    var next := BestNeighbor(cost, o);
    if cost(next) >= cost(o) then o else Descent(cost, next)
  }

  /** The exit point is a local minimum over the eight neighbours. */
  lemma {:induction false} DescentIsLocalMinimum(cost: Offset -> nat, o: Offset)
    ensures IsLocalMinimum(cost, Descent(cost, o))
    decreases cost(o)
  {
    var next := BestNeighbor(cost, o);
    if cost(next) < cost(o) {
      DescentIsLocalMinimum(cost, next);
    } else {
      var costs := NeighborCosts(cost, o, Neighbors);
      var i := FirstArgMin(costs);
      forall k | 0 <= k < |Neighbors|
        ensures cost(o) <= cost(Add(o, Neighbors[k]))
      {
        assert costs[i] <= costs[k];
      }
    }
  }

  /** The descent never ends on a costlier offset than its start. */
  lemma {:induction false} DescentNeverWorse(cost: Offset -> nat, o: Offset)
    ensures cost(Descent(cost, o)) <= cost(o)
    decreases cost(o)
  {
    var next := BestNeighbor(cost, o);
    if cost(next) < cost(o) {
      DescentNeverWorse(cost, next);
    }
  }

  /**
   * One round of the descent as the source performs it: with the neighbour
   * costs in hand and their first minimum picked, either the descent stops
   * here or it continues from that strictly cheaper neighbour.
   */
  lemma DescentStep(cost: Offset -> nat, o: Offset, costs: seq<real>, i: nat)
    requires costs == NeighborCosts(cost, o, Neighbors) && i == FirstArgMin(costs)
    ensures costs[i] >= cost(o) as real ==> Descent(cost, o) == o
    ensures costs[i] < cost(o) as real ==>
              cost(Add(o, Neighbors[i])) < cost(o) && Descent(cost, o) == Descent(cost, Add(o, Neighbors[i]))
  {
  }

  /** A start that costs nothing is kept. */
  lemma ZeroCostStops(cost: Offset -> nat, o: Offset)
    requires cost(o) == 0
    ensures Descent(cost, o) == o
  {
  }

  /** Alignment of one character as the source reports it: a size-independent offset and the remainder ratio. */
  datatype Alignment = Alignment(offset: (real, real), score: real)

  /**
   * The report for search offset `o` with the overlay font at `size` pixels:
   * the ratio is taken before the horizontal centring difference is added,
   * and both offset components are divided by the overlay font size.
   */
  function AlignmentAt(g: GlyphPair, size: real, o: Offset): Alignment
    requires WellFormed(g) && size > 0.0
  {
    Report(g, size, o, Remainder(g, o))
  }

  /** The report for offset `o` once its remainder is known. */
  function Report(g: GlyphPair, size: real, o: Offset, remainder: int): Alignment
    requires WellFormed(g) && size > 0.0
  {
    var ratio := remainder as real / (CostScale * Area(g)) as real;
    Alignment(((o.0 - g.referenceAnchor + g.overlayAnchor) as real / size, o.1 as real / size), ratio)
  }

  /** What optimize_offset returns for a glyph pair. */
  function OptimalAlignment(g: GlyphPair, size: real): Alignment
    requires WellFormed(g) && size > 0.0
  {
    AlignmentAt(g, size, Descent(RemainderSurface(g), Origin))
  }

  /** Dividing a value in [0, total] by a positive total gives a ratio in [0, 1]. */
  lemma RatioInUnitInterval(x: real, total: real)
    requires 0.0 <= x <= total && total > 0.0
    ensures 0.0 <= x / total <= 1.0
    ensures x == 0.0 ==> x / total == 0.0
  {
  }

  /** With no shift, the remainder is the cost of the overlay as rendered. */
  lemma RemainderAtOrigin(g: GlyphPair)
    requires WellFormed(g)
    ensures Remainder(g, Origin) == Cost(g.overlay, g.reference)
  {
    MoveImageUnshifted(g.overlay, OffCanvas);
  }

  /**
   * The remainder ratio lies in [0, 1]. Although padding weighs 255 times
   * background, the descent never ends above the unshifted cost, and that
   * cost is at most one full unit per pixel.
   */
  lemma ScoreInUnitInterval(g: GlyphPair, size: real)
    requires WellFormed(g) && size > 0.0
    ensures 0.0 <= OptimalAlignment(g, size).score <= 1.0
  {
    assert CostScale == 65025;
    var surface := RemainderSurface(g);
    var d := Descent(surface, Origin);
    var x := Remainder(g, d);
    assert x <= Remainder(g, Origin) by { DescentNeverWorse(surface, Origin); }
    assert Remainder(g, Origin) <= CostScale * Area(g) by {
      RemainderAtOrigin(g);
      CostAtMost(g.overlay, g.reference);
    }
    RatioInUnitInterval(x as real, (CostScale * Area(g)) as real);
  }

  /**
   * Self-alignment of a two-tone glyph: with identical reference and overlay
   * the search stays at the start and the remainder ratio is 0.
   */
  lemma SelfAlignmentIsExact(g: GlyphPair, size: real)
    requires WellFormed(g) && size > 0.0
    requires g.overlay == g.reference && Binary(g.reference)
    ensures Descent(RemainderSurface(g), Origin) == Origin
    ensures OptimalAlignment(g, size).score == 0.0
  {
    assert CostScale == 65025;
    assert Remainder(g, Origin) == 0 by {
      CostOfBinarySelf(g.reference);
      RemainderAtOrigin(g);
    }
    assert Descent(RemainderSurface(g), Origin) == Origin by {
      ZeroCostStops(RemainderSurface(g), Origin);
    }
    RatioInUnitInterval(0.0, (CostScale * Area(g)) as real);
  }

  /** Every entry of the memo is the true remainder of its offset. */
  predicate MemoSound(g: GlyphPair, memo: map<Offset, int>)
    requires WellFormed(g)
  {
    forall o :: o in memo ==> memo[o] == Remainder(g, o)
  }

  /**
   * The inner loop of optimize_offset: the remainders of the offsets
   * `offset + deltas[k]` in the order of `deltas` (the source passes the eight
   * neighbours), taken from the memo where present and computed and memoised
   * otherwise.
   */
  method NeighborRemainders(g: GlyphPair, offset: Offset, deltas: seq<Offset>, memo: map<Offset, int>)
      returns (costs: seq<real>, updated: map<Offset, int>)
    requires WellFormed(g) && MemoSound(g, memo)
    ensures MemoSound(g, updated) && memo.Keys <= updated.Keys
    ensures forall k :: 0 <= k < |deltas| ==> Add(offset, deltas[k]) in updated
    ensures costs == NeighborCosts(RemainderSurface(g), offset, deltas)
  {
    costs, updated := [], memo;
    for k := 0 to |deltas|
      invariant MemoSound(g, updated) && memo.Keys <= updated.Keys
      invariant |costs| == k
      invariant forall j :: 0 <= j < k ==>
                  Add(offset, deltas[j]) in updated && costs[j] == updated[Add(offset, deltas[j])] as real
    {
      var next := Add(offset, deltas[k]);
      if next !in updated {
        var moved := MoveImage(g.overlay, next.0, next.1, OffCanvas);
        var remainder := Cost(moved, g.reference);
        assert remainder == Remainder(g, next);
        updated := updated[next := remainder];
      }
      costs := costs + [updated[next] as real];
    }
    assert forall k :: 0 <= k < |deltas| ==> costs[k] == NeighborCosts(RemainderSurface(g), offset, deltas)[k];
  }

  /**
   * optimize_offset: greedy descent from (0, 0) with a memo of remainders,
   * then the ratio and the reported offset.
   */
  method OptimizeOffset(g: GlyphPair, size: real) returns (a: Alignment)
    requires WellFormed(g) && size > 0.0
    ensures a == OptimalAlignment(g, size)
  {
    var offset := Origin;
    var remainders: map<Offset, int> := map[offset := Cost(g.overlay, g.reference)];
    RemainderAtOrigin(g);
    while true
      invariant offset in remainders && MemoSound(g, remainders)
      invariant Descent(RemainderSurface(g), offset) == Descent(RemainderSurface(g), Origin)
      decreases Remainder(g, offset)
    {
      var costs;
      costs, remainders := NeighborRemainders(g, offset, Neighbors, remainders);
      var i := FirstArgMin(costs);
      DescentStep(RemainderSurface(g), offset, costs, i);
      if costs[i] >= remainders[offset] as real {
        break;
      }
      offset := Add(offset, Neighbors[i]);
    }
    assert Descent(RemainderSurface(g), Origin) == offset;
    assert remainders[offset] == Remainder(g, offset);
    a := Report(g, size, offset, remainders[offset]);
  }
}
