/**
 * The font-scale search of align_fonts.py (align_font): sample the bracket
 * [low, high] at equally spaced scales, keep the two neighbours of the best
 * sample as the new bracket, and stop once the best sample is flat within
 * the score tolerance or the bracket is narrower than the scale tolerance.
 * The evaluation of one scale (rendering the overlay font at that scale and
 * running align_font_instance) is a parameter, from scale to average
 * remainder.
 */
module ScaleSearch {
  import opened Results
  import opened Argmin

  /** The initial bracket of `low_scale, high_scale`. */
  const InitialLow: real := 0.5
  const InitialHigh: real := 2.0

  /** The keyword parameters of align_font other than the font size. */
  datatype Settings = Settings(resolution: nat, scoreEpsilon: real, scaleEpsilon: real)

  /** Defaults: 25 samples, score tolerance 1e-5, scale tolerance 0.01. */
  const Defaults: Settings := Settings(25, 0.00001, 0.01)

  /**
   * Settings under which the loop terminates: at least four samples, so the
   * bracket shrinks by a factor of at most 2/3 per round, and a positive
   * scale tolerance.
   */
  predicate Terminating(s: Settings) {
    s.resolution >= 4 && s.scaleEpsilon > 0.0
  }

  /** Distance between neighbouring samples of np.linspace(low, high, n). */
  function Spacing(low: real, high: real, n: nat): real
    requires n >= 2
  {
    (high - low) / (n - 1) as real
  }

  /** Ratio between the widths of successive brackets. */
  function Factor(s: Settings): real
    requires s.resolution >= 2
  {
    2.0 / (s.resolution - 1) as real
  }

  lemma MulMono(a: real, b: real, d: real)
    requires a <= b && d >= 0.0
    ensures a * d <= b * d
  {
    assert b * d - a * d == (b - a) * d;
  }

  lemma MulStrict(a: real, b: real, d: real)
    requires a < b && d > 0.0
    ensures a * d < b * d
  {
    assert b * d - a * d == (b - a) * d;
  }

  lemma Cancel(x: real, y: real, m: real)
    requires m != 0.0 && x * m == y * m
    ensures x == y
  {
    assert (x - y) * m == 0.0;
  }

  /** The spacing times the number of gaps is the bracket width. */
  lemma SpacingSpans(low: real, high: real, n: nat)
    requires n >= 2
    ensures Spacing(low, high, n) * (n - 1) as real == high - low
    ensures low <= high ==> Spacing(low, high, n) >= 0.0
    ensures low < high ==> Spacing(low, high, n) > 0.0
  {
  }

  /** Two spacings are the old width times the factor. */
  lemma GapIsFactor(low: real, high: real, s: Settings)
    requires s.resolution >= 2
    ensures 2.0 * Spacing(low, high, s.resolution) == (high - low) * Factor(s)
  {
    var m := (s.resolution - 1) as real;
    var a, b := Spacing(low, high, s.resolution), Factor(s);
    assert a * m == high - low;
    assert b * m == 2.0;
    assert (2.0 * a) * m == 2.0 * (a * m);
    assert ((high - low) * b) * m == (high - low) * (b * m);
    Cancel(2.0 * a, (high - low) * b, m);
  }

  /** A quotient by a positive number no larger than the dividend is at least 1. */
  lemma QuotientAtLeastOne(x: real, e: real)
    requires x >= e > 0.0
    ensures x / e >= 1.0
  {
    var q := x / e;
    assert q * e == x;
    if q < 1.0 {
      MulStrict(q, 1.0, e);
    }
  }

  /** np.linspace(low, high, n). */
  function Linspace(low: real, high: real, n: nat): (scales: seq<real>)
    requires n >= 2
    ensures |scales| == n
  {
    seq(n, k requires 0 <= k < n => low + k as real * Spacing(low, high, n))
  }

  /** The samples start at `low`, end at `high`, are equally spaced and lie within the bracket. */
  lemma LinspaceShape(low: real, high: real, n: nat)
    requires n >= 2 && low <= high
    ensures var scales := Linspace(low, high, n);
            && scales[0] == low && scales[n - 1] == high
            && (forall k :: 0 <= k < n - 1 ==> scales[k + 1] - scales[k] == Spacing(low, high, n))
            && (forall k :: 0 <= k < n ==> low <= scales[k] <= high)
  {
    SpacingSpans(low, high, n);
    LinspaceSpacing(low, high, n);
    LinspaceWithin(low, high, n);
  }

  lemma LinspaceSpacing(low: real, high: real, n: nat)
    requires n >= 2
    ensures forall k :: 0 <= k < n - 1 ==> Linspace(low, high, n)[k + 1] - Linspace(low, high, n)[k] == Spacing(low, high, n)
  {
    var scales := Linspace(low, high, n);
    var d := Spacing(low, high, n);
    forall k | 0 <= k < n - 1
      ensures scales[k + 1] - scales[k] == d
    {
      assert (k + 1) as real * d == k as real * d + d;
    }
  }

  lemma LinspaceWithin(low: real, high: real, n: nat)
    requires n >= 2 && low <= high
    ensures forall k :: 0 <= k < n ==> low <= Linspace(low, high, n)[k] <= high
  {
    var scales := Linspace(low, high, n);
    var d := Spacing(low, high, n);
    SpacingSpans(low, high, n);
    forall k | 0 <= k < n
      ensures low <= scales[k] <= high
    {
      assert scales[k] == low + k as real * d;
      MulMono(0.0, k as real, d);
      MulMono(k as real, (n - 1) as real, d);
    }
  }

  /** Two samples apart, the scales differ by twice the spacing. */
  lemma LinspaceGap(low: real, high: real, n: nat, i: nat)
    requires n >= 2 && 0 < i < n - 1
    ensures Linspace(low, high, n)[i + 1] - Linspace(low, high, n)[i - 1] == 2.0 * Spacing(low, high, n)
  {
  }

  /** The chosen scale and the average remainder it reached. */
  datatype ScaleFit = ScaleFit(fontScale: real, averageRemainder: real)

  /** The assertion "Initial bounds are too narrow." of align_font. */
  datatype SearchError = BoundsTooNarrow

  /** The outcome of one round of the loop. */
  datatype Round = Failed | Done(fit: ScaleFit) | Narrowed(low: real, high: real)

  function Abs(x: real): real {
    if x < 0.0 then -x else x
  }

  /** The average remainders of the sampled scales. */
  function Remainders(evaluate: real -> real, scales: seq<real>): seq<real>
  {
    seq(|scales|, k requires 0 <= k < |scales| => evaluate(scales[k]))
  }

  /** One average remainder per sample scale, in the order of the scales. */
  lemma RemaindersAt(evaluate: real -> real, scales: seq<real>)
    ensures |Remainders(evaluate, scales)| == |scales|
    ensures forall k :: 0 <= k < |scales| ==> Remainders(evaluate, scales)[k] == evaluate(scales[k])
  {
  }

  /** One round of the loop of align_font on the bracket [low, high]. */
  function Step(evaluate: real -> real, low: real, high: real, s: Settings): Round
    requires s.resolution >= 2
  {
    var scales := Linspace(low, high, s.resolution);
    var results := Remainders(evaluate, scales);
    var i := FirstArgMin(results);
    if !(0 < i < s.resolution - 1) then Failed
    else
      var newLow, newHigh := scales[i - 1], scales[i + 1];
      if (Abs(results[i - 1] - results[i]) < s.scoreEpsilon && Abs(results[i + 1] - results[i]) < s.scoreEpsilon)
         || newHigh - newLow < s.scaleEpsilon
      then Done(ScaleFit(scales[i], results[i]))
      else Narrowed(newLow, newHigh)
  }

  /**
   * A round fails exactly when the best sample is the first or the last; it
   * finishes with the best sample; it narrows to the neighbours of the best
   * sample, a bracket inside the old one of width 2 (high - low) / (n - 1)
   * that is at least the scale tolerance.
   */
  lemma StepOutcome(evaluate: real -> real, low: real, high: real, s: Settings)
    requires s.resolution >= 2 && low <= high
    ensures var scales := Linspace(low, high, s.resolution);
            var results := Remainders(evaluate, scales);
            var i := FirstArgMin(results);
            && (Step(evaluate, low, high, s).Failed? <==> i == 0 || i == s.resolution - 1)
            && (Step(evaluate, low, high, s).Done? <==>
                  && 0 < i < s.resolution - 1
                  && ((Abs(results[i - 1] - results[i]) < s.scoreEpsilon && Abs(results[i + 1] - results[i]) < s.scoreEpsilon)
                      || scales[i + 1] - scales[i - 1] < s.scaleEpsilon))
            && (Step(evaluate, low, high, s).Done? ==>
                  Step(evaluate, low, high, s).fit == ScaleFit(scales[i], results[i]))
            && (Step(evaluate, low, high, s).Narrowed? ==>
                  var next := Step(evaluate, low, high, s);
                  && low <= next.low < next.high <= high
                  && next.high - next.low == 2.0 * Spacing(low, high, s.resolution) >= s.scaleEpsilon
                  && next.low == scales[i - 1] && next.high == scales[i + 1])
  {
    var scales := Linspace(low, high, s.resolution);
    var i := FirstArgMin(Remainders(evaluate, scales));
    LinspaceShape(low, high, s.resolution);
    if 0 < i < s.resolution - 1 {
      LinspaceGap(low, high, s.resolution, i);
    }
  }

  /**
   * As written, three samples per round give the argmin's neighbours as
   * the first and the last sample: a round that narrows returns the bracket
   * it started from, so the loop repeats the same round for ever.
   */
  lemma ResolutionThreeRepeats(evaluate: real -> real, low: real, high: real, s: Settings)
    requires s.resolution == 3 && low <= high && Step(evaluate, low, high, s).Narrowed?
    ensures Step(evaluate, low, high, s) == Narrowed(low, high)
  {
    StepOutcome(evaluate, low, high, s);
    LinspaceShape(low, high, s.resolution);
  }

  /** A concrete stalled round: the default tolerances with three samples and a minimum at 1.25. */
  lemma ResolutionThreeStalls()
    ensures Step(x => (x - 1.25) * (x - 1.25), InitialLow, InitialHigh, Settings(3, 0.00001, 0.01)) == Narrowed(InitialLow, InitialHigh)
  {
    var s := Settings(3, 0.00001, 0.01);
    var evaluate := (x: real) => (x - 1.25) * (x - 1.25);
    var scales := Linspace(InitialLow, InitialHigh, 3);
    LinspaceShape(InitialLow, InitialHigh, 3);
    assert scales == [0.5, 1.25, 2.0] by {
      assert Spacing(InitialLow, InitialHigh, 3) == 0.75;
    }
    var results := Remainders(evaluate, scales);
    assert results == [0.5625, 0.0, 0.5625];
    assert FirstArgMin(results) == 1;
  }

  /** The best sample of a round lies in the bracket and no sample scores lower. */
  lemma DoneIsBestSample(evaluate: real -> real, low: real, high: real, s: Settings)
    requires s.resolution >= 2 && low <= high && Step(evaluate, low, high, s).Done?
    ensures var fit := Step(evaluate, low, high, s).fit;
            && low <= fit.fontScale <= high
            && fit.averageRemainder == evaluate(fit.fontScale)
            && forall k :: 0 <= k < s.resolution ==> fit.averageRemainder <= evaluate(Linspace(low, high, s.resolution)[k])
  {
    StepOutcome(evaluate, low, high, s);
    LinspaceShape(low, high, s.resolution);
    RemaindersAt(evaluate, Linspace(low, high, s.resolution));
  }

  /** Twice the bracket width in units of the scale tolerance; it drops by at least one per narrowing. */
  function Measure(low: real, high: real, s: Settings): real
    requires Terminating(s)
  {
    2.0 * (high - low) / s.scaleEpsilon
  }

  lemma MeasureDecreases(low: real, high: real, s: Settings, newLow: real, newHigh: real)
    requires Terminating(s) && low <= newLow < newHigh <= high
    requires newHigh - newLow == 2.0 * Spacing(low, high, s.resolution) >= s.scaleEpsilon
    ensures 0.0 <= Measure(newLow, newHigh, s) <= Measure(low, high, s) - 1.0
  {
    var w, w' := high - low, newHigh - newLow;
    var e := s.scaleEpsilon;
    var q := Factor(s);
    GapIsFactor(low, high, s);
    assert w' == w * q;
    assert q <= 2.0 / 3.0 by {
      var m := (s.resolution - 1) as real;
      assert q * m == 2.0;
    }
    assert w >= 0.0;
    MulMono(q, 2.0 / 3.0, w);
    assert w' <= 2.0 / 3.0 * w by {
      assert w' == q * w;
      assert q * w <= 2.0 / 3.0 * w;
    }
    assert 3.0 * w' <= 2.0 * w;
    assert 2.0 * (w - w') >= w';
    QuotientAtLeastOne(2.0 * (w - w'), e);
    assert 2.0 * w / e - 2.0 * w' / e == 2.0 * (w - w') / e;
    assert 2.0 * w' / e >= 0.0;
  }

  /** The loop of align_font from the bracket [low, high]. */
  function Search(evaluate: real -> real, low: real, high: real, s: Settings): Result<ScaleFit, SearchError>
    requires Terminating(s) && low <= high
    decreases Measure(low, high, s)
  {
    match Step(evaluate, low, high, s)
    case Failed => Err(BoundsTooNarrow)
    case Done(fit) => Ok(fit)
    case Narrowed(newLow, newHigh) =>
      StepOutcome(evaluate, low, high, s);
      MeasureDecreases(low, high, s, newLow, newHigh);
      Search(evaluate, newLow, newHigh, s)
  }

  /** The number of rounds the loop runs from the bracket [low, high]. */
  function Rounds(evaluate: real -> real, low: real, high: real, s: Settings): nat
    requires Terminating(s) && low <= high
    decreases Measure(low, high, s)
  {
    match Step(evaluate, low, high, s)
    case Narrowed(newLow, newHigh) =>
      StepOutcome(evaluate, low, high, s);
      MeasureDecreases(low, high, s, newLow, newHigh);
      1 + Rounds(evaluate, newLow, newHigh, s)
    case _ => 1
  }

  /** The font scale found lies in the initial bracket, and its remainder is that of the scale. */
  lemma {:induction false} SearchWithin(evaluate: real -> real, low: real, high: real, s: Settings)
    requires Terminating(s) && low <= high
    ensures Search(evaluate, low, high, s).Ok? ==>
              var fit := Search(evaluate, low, high, s).value;
              low <= fit.fontScale <= high && fit.averageRemainder == evaluate(fit.fontScale)
    decreases Measure(low, high, s)
  {
    StepOutcome(evaluate, low, high, s);
    match Step(evaluate, low, high, s)
    case Failed =>
    case Done(fit) =>
      DoneIsBestSample(evaluate, low, high, s);
    case Narrowed(newLow, newHigh) =>
      MeasureDecreases(low, high, s, newLow, newHigh);
      SearchWithin(evaluate, newLow, newHigh, s);
  }

  /** A round that narrows multiplies the bracket width by the factor and keeps it at least the tolerance. */
  lemma NarrowedWidth(evaluate: real -> real, low: real, high: real, s: Settings)
    requires Terminating(s) && low <= high && Step(evaluate, low, high, s).Narrowed?
    ensures var next := Step(evaluate, low, high, s);
            low <= next.low <= next.high <= high &&
            next.high - next.low == (high - low) * Factor(s) >= s.scaleEpsilon
  {
    StepOutcome(evaluate, low, high, s);
    GapIsFactor(low, high, s);
  }

  /** The width `w` after `k` rounds that each multiply it by `q`. */
  function Shrunk(w: real, q: real, k: nat): real
    decreases k
  {
    if k == 0 then w else Shrunk(w * q, q, k - 1)
  }

  /**
   * If `k` successive narrowings would take the bracket below the scale
   * tolerance, the loop runs at most `k` rounds.
   */
  lemma {:induction false} RoundsAtMost(evaluate: real -> real, low: real, high: real, s: Settings, k: nat)
    requires Terminating(s) && low <= high && k >= 1
    requires Shrunk(high - low, Factor(s), k) < s.scaleEpsilon
    ensures Rounds(evaluate, low, high, s) <= k
    decreases k, 1
  {
    if Step(evaluate, low, high, s).Narrowed? {
      NarrowedRoundsAtMost(evaluate, low, high, s, k);
    } else {
      RoundsOther(evaluate, low, high, s);
    }
  }

  lemma {:induction false} NarrowedRoundsAtMost(evaluate: real -> real, low: real, high: real, s: Settings, k: nat)
    requires Terminating(s) && low <= high && k >= 1 && Step(evaluate, low, high, s).Narrowed?
    requires Shrunk(high - low, Factor(s), k) < s.scaleEpsilon
    ensures Rounds(evaluate, low, high, s) <= k
    decreases k, 0
  {
    var q := Factor(s);
    var step := Step(evaluate, low, high, s);
    var w' := step.high - step.low;
    assert w' == (high - low) * q >= s.scaleEpsilon && low <= step.low <= step.high <= high by {
      NarrowedWidth(evaluate, low, high, s);
    }
    ShrunkNext(high - low, q, k, w', s.scaleEpsilon);
    if k > 1 {
      RoundsAtMost(evaluate, step.low, step.high, s, k - 1);
      RoundsNarrowed(evaluate, low, high, s);
    }
  }

  lemma ShrunkNext(w: real, q: real, k: nat, w': real, e: real)
    requires k >= 1 && w' == w * q && Shrunk(w, q, k) < e
    ensures Shrunk(w', q, k - 1) < e
    ensures k == 1 ==> w' < e
  {
  }

  lemma RoundsNarrowed(evaluate: real -> real, low: real, high: real, s: Settings)
    requires Terminating(s) && low <= high && Step(evaluate, low, high, s).Narrowed?
    ensures var next := Step(evaluate, low, high, s);
            low <= next.low <= next.high &&
            Rounds(evaluate, low, high, s) == 1 + Rounds(evaluate, next.low, next.high, s)
  {
    StepOutcome(evaluate, low, high, s);
  }

  lemma RoundsOther(evaluate: real -> real, low: real, high: real, s: Settings)
    requires Terminating(s) && low <= high && !Step(evaluate, low, high, s).Narrowed?
    ensures Rounds(evaluate, low, high, s) == 1
  {
  }

  /**
   * With the default settings the bracket widths are 1.5, 0.125 and about
   * 0.0104, and a third narrowing would go below 0.01, so the loop returns
   * or fails in at most three rounds.
   */
  lemma DefaultRounds(evaluate: real -> real)
    ensures Rounds(evaluate, InitialLow, InitialHigh, Defaults) <= 3
  {
    var q := Factor(Defaults);
    assert q == 1.0 / 12.0;
    assert Shrunk(0.125 / 144.0, q, 0) == 0.125 / 144.0;
    assert Shrunk(0.125 / 12.0, q, 1) == 0.125 / 144.0;
    assert Shrunk(0.125, q, 2) == 0.125 / 144.0;
    assert Shrunk(InitialHigh - InitialLow, q, 3) == 0.125 / 144.0;
    RoundsAtMost(evaluate, InitialLow, InitialHigh, Defaults, 3);
  }

  /** The returned font scale lies in [0.5, 2]. */
  lemma FontScaleWithin(evaluate: real -> real, s: Settings)
    requires Terminating(s)
    ensures Search(evaluate, InitialLow, InitialHigh, s).Ok? ==>
              InitialLow <= Search(evaluate, InitialLow, InitialHigh, s).value.fontScale <= InitialHigh
  {
    SearchWithin(evaluate, InitialLow, InitialHigh, s);
  }

  /** np.linspace samples of a non-empty bracket increase strictly. */
  lemma LinspaceIncreasing(low: real, high: real, n: nat, i: nat, j: nat)
    requires n >= 2 && low < high && i < j < n
    ensures Linspace(low, high, n)[i] < Linspace(low, high, n)[j]
  {
    var d := Spacing(low, high, n);
    assert d > 0.0;
    assert i as real * d < j as real * d;
  }

  /**
   * If the average remainder grows with the scale, the best sample of the
   * initial bracket is its first, and align_font fails its assertion.
   */
  lemma IncreasingFails(evaluate: real -> real, s: Settings)
    requires Terminating(s)
    requires forall x: real, y: real :: x < y ==> evaluate(x) < evaluate(y)
    ensures Search(evaluate, InitialLow, InitialHigh, s) == Err(BoundsTooNarrow)
  {
    var scales := Linspace(InitialLow, InitialHigh, s.resolution);
    var results := Remainders(evaluate, scales);
    forall j | 0 < j < s.resolution
      ensures results[0] < results[j]
    {
      LinspaceIncreasing(InitialLow, InitialHigh, s.resolution, 0, j);
    }
    assert FirstArgMin(results) == 0;
  }

  /** align_font: the loop over brackets from [0.5, 2]. */
  method AlignFont(evaluate: real -> real, s: Settings) returns (r: Result<ScaleFit, SearchError>)
    requires Terminating(s)
    ensures r == Search(evaluate, InitialLow, InitialHigh, s)
  {
    var low, high := InitialLow, InitialHigh;
    while true
      invariant low <= high
      invariant Search(evaluate, low, high, s) == Search(evaluate, InitialLow, InitialHigh, s)
      decreases Measure(low, high, s)
    {
      var scales := Linspace(low, high, s.resolution);
      var results := Remainders(evaluate, scales);
      RemaindersAt(evaluate, scales);
      var i := FirstArgMin(results);
      StepOutcome(evaluate, low, high, s);
      if !(0 < i < s.resolution - 1) {
        return Err(BoundsTooNarrow);
      }
      var newLow, newHigh := scales[i - 1], scales[i + 1];
      if (Abs(results[i - 1] - results[i]) < s.scoreEpsilon && Abs(results[i + 1] - results[i]) < s.scoreEpsilon)
         || newHigh - newLow < s.scaleEpsilon {
        return Ok(ScaleFit(scales[i], results[i]));
      }
      MeasureDecreases(low, high, s, newLow, newHigh);
      low, high := newLow, newHigh;
    }
  }
}
