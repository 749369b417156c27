/**
 * align_font_instance of align_fonts.py: one offset search per character of
 * the charset, stored in an insertion-ordered dictionary keyed by character,
 * and the mean of the per-character scores.
 */
module GlyphSet {
  import opened Results
  import opened OffsetSearch

  /** A Python dict from characters to alignments, as its items in insertion order. */
  type Entries = seq<(char, Alignment)>

  /** The keys of the dictionary in insertion order. */
  function Keys(entries: Entries): string
  {
    seq(|entries|, k requires 0 <= k < |entries| => entries[k].0)
  }

  /** The scores of the dictionary's values, in the order of `dict.values()`. */
  function Scores(entries: Entries): seq<real>
  {
    seq(|entries|, k requires 0 <= k < |entries| => entries[k].1.score)
  }

  /** `d.get(key)`. */
  function Lookup(entries: Entries, key: char): Option<Alignment> {
    if |entries| == 0 then None
    else if entries[0].0 == key then Some(entries[0].1)
    else Lookup(entries[1..], key)
  }

  /** `d[key] = value`: an existing key keeps its place and takes the new value; a new key goes last. */
  function Put(entries: Entries, key: char, value: Alignment): Entries {
    if |entries| == 0 then [(key, value)]
    else if entries[0].0 == key then [(key, value)] + entries[1..]
    else [entries[0]] + Put(entries[1..], key, value)
  }

  lemma {:induction false} PutKeys(entries: Entries, key: char, value: Alignment)
    ensures key in Keys(entries) ==> Keys(Put(entries, key, value)) == Keys(entries)
    ensures key !in Keys(entries) ==> Keys(Put(entries, key, value)) == Keys(entries) + [key]
  {
    if |entries| == 0 {
      assert Keys(Put(entries, key, value)) == [key];
    } else if entries[0].0 != key {
      PutKeys(entries[1..], key, value);
      assert Keys(entries) == [entries[0].0] + Keys(entries[1..]);
      assert Keys(Put(entries, key, value)) == [entries[0].0] + Keys(Put(entries[1..], key, value));
      assert key in Keys(entries) <==> key in Keys(entries[1..]);
    } else {
      assert Keys(entries)[0] == key;
      assert Keys(Put(entries, key, value)) == Keys(entries);
    }
  }

  lemma {:induction false} PutLookup(entries: Entries, key: char, value: Alignment, other: char)
    ensures Lookup(Put(entries, key, value), key) == Some(value)
    ensures other != key ==> Lookup(Put(entries, key, value), other) == Lookup(entries, other)
  {
    if |entries| > 0 && entries[0].0 != key {
      PutLookup(entries[1..], key, value, other);
      assert Put(entries, key, value)[1..] == Put(entries[1..], key, value);
    }
  }

  lemma {:induction false} LookupKeys(entries: Entries, key: char)
    ensures Lookup(entries, key).Some? <==> key in Keys(entries)
  {
    if |entries| > 0 {
      LookupKeys(entries[1..], key);
      assert Keys(entries) == [entries[0].0] + Keys(entries[1..]);
    }
  }

  /** The distinct characters of `s` in the order of their first occurrence. */
  function Dedup(s: string): string {
    if |s| == 0 then []
    else
      var d := Dedup(s[..|s| - 1]);
      if s[|s| - 1] in d then d else d + [s[|s| - 1]]
  }

  predicate Distinct(s: string) {
    forall i, j :: 0 <= i < j < |s| ==> s[i] != s[j]
  }

  /** Dedup keeps exactly the characters of `s`, once each. */
  lemma {:induction false} DedupSound(s: string)
    ensures Distinct(Dedup(s))
    ensures forall c :: c in Dedup(s) <==> c in s
  {
    if |s| > 0 {
      var init := s[..|s| - 1];
      DedupSound(init);
      assert s == init + [s[|s| - 1]];
    }
  }

  /** A charset without repeated characters is its own Dedup. */
  lemma {:induction false} DedupOfDistinct(s: string)
    requires Distinct(s)
    ensures Dedup(s) == s
  {
    if |s| > 0 {
      var init := s[..|s| - 1];
      assert Distinct(init);
      DedupOfDistinct(init);
      assert s[|s| - 1] !in init;
    }
  }

  /** Every character of the charset renders to a pair of bitmaps an offset search accepts. */
  predicate Renderable(charset: string, glyphs: char -> GlyphPair) {
    forall k :: 0 <= k < |charset| ==> WellFormed(glyphs(charset[k]))
  }

  /** The offset search of each character of the charset, position by position. */
  function Searches(charset: string, glyphs: char -> GlyphPair, size: real): (values: seq<Alignment>)
    requires Renderable(charset, glyphs) && size > 0.0
    ensures |values| == |charset|
  {
    seq(|charset|, k requires 0 <= k < |charset| => OptimalAlignment(glyphs(charset[k]), size))
  }

  /** The dictionary after `d[charset[k]] = values[k]` for each position `k` in turn. */
  function Offsets(charset: string, values: seq<Alignment>): Entries
    requires |values| == |charset|
  {
    if |charset| == 0 then []
    else
      var n := |charset| - 1;
      Put(Offsets(charset[..n], values[..n]), charset[n], values[n])
  }

  /** Every entry was stored from some position of the charset with that key. */
  predicate StoredFrom(entries: Entries, charset: string, values: seq<Alignment>)
    requires |values| == |charset|
  {
    forall k :: 0 <= k < |entries| ==> exists j :: 0 <= j < |charset| && charset[j] == entries[k].0 && values[j] == entries[k].1
  }

  /** Equal characters have equal values, as for a deterministic search. */
  predicate Consistent(charset: string, values: seq<Alignment>)
    requires |values| == |charset|
  {
    forall i, j :: 0 <= i < |charset| && 0 <= j < |charset| && charset[i] == charset[j] ==> values[i] == values[j]
  }

  lemma {:induction false} PutStoredFrom(entries: Entries, charset: string, values: seq<Alignment>, n: nat)
    requires |values| == |charset| && n < |charset| && StoredFrom(entries, charset, values)
    ensures StoredFrom(Put(entries, charset[n], values[n]), charset, values)
  {
    var r := Put(entries, charset[n], values[n]);
    if |entries| == 0 {
      assert r[0] == (charset[n], values[n]);
    } else if entries[0].0 == charset[n] {
      forall k | 0 <= k < |r|
        ensures exists j :: 0 <= j < |charset| && charset[j] == r[k].0 && values[j] == r[k].1
      {
        if k == 0 {
          assert charset[n] == r[k].0 && values[n] == r[k].1;
        } else {
          assert r[k] == entries[k];
        }
      }
    } else {
      var tail := Put(entries[1..], charset[n], values[n]);
      assert StoredFrom(entries[1..], charset, values) by {
        forall k | 0 <= k < |entries| - 1
          ensures exists j :: 0 <= j < |charset| && charset[j] == entries[1..][k].0 && values[j] == entries[1..][k].1
        {
          assert entries[1..][k] == entries[k + 1];
        }
      }
      PutStoredFrom(entries[1..], charset, values, n);
      forall k | 0 <= k < |r|
        ensures exists j :: 0 <= j < |charset| && charset[j] == r[k].0 && values[j] == r[k].1
      {
        if k == 0 {
          assert r[k] == entries[0];
        } else {
          assert r[k] == tail[k - 1];
        }
      }
    }
  }

  /**
   * The dictionary holds one entry per distinct character, in order of first
   * occurrence, each stored from a position of that character.
   */
  lemma {:induction false} OffsetsContents(charset: string, values: seq<Alignment>)
    requires |values| == |charset|
    ensures Keys(Offsets(charset, values)) == Dedup(charset)
    ensures StoredFrom(Offsets(charset, values), charset, values)
  {
    if |charset| > 0 {
      var n := |charset| - 1;
      var before := Offsets(charset[..n], values[..n]);
      OffsetsContents(charset[..n], values[..n]);
      PutKeys(before, charset[n], values[n]);
      assert StoredFrom(before, charset, values) by {
        forall k | 0 <= k < |before|
          ensures exists j :: 0 <= j < |charset| && charset[j] == before[k].0 && values[j] == before[k].1
        {
          var j :| 0 <= j < n && charset[..n][j] == before[k].0 && values[..n][j] == before[k].1;
          assert charset[j] == before[k].0 && values[j] == before[k].1;
        }
      }
      PutStoredFrom(before, charset, values, n);
    }
  }

  /** With consistent values, each character of the charset is looked up to its own value. */
  lemma OffsetsLookup(charset: string, values: seq<Alignment>, i: int)
    requires |values| == |charset| && Consistent(charset, values) && 0 <= i < |charset|
    ensures Lookup(Offsets(charset, values), charset[i]) == Some(values[i])
  {
    var entries := Offsets(charset, values);
    OffsetsContents(charset, values);
    DedupSound(charset);
    LookupKeys(entries, charset[i]);
    LookupStored(entries, charset[i]);
    var k :| 0 <= k < |entries| && entries[k] == (charset[i], Lookup(entries, charset[i]).value);
    var j :| 0 <= j < |charset| && charset[j] == entries[k].0 && values[j] == entries[k].1;
  }

  /** A successful lookup finds one of the entries. */
  lemma {:induction false} LookupStored(entries: Entries, c: char)
    requires Lookup(entries, c).Some?
    ensures exists k :: 0 <= k < |entries| && entries[k] == (c, Lookup(entries, c).value)
  {
    if entries[0].0 != c {
      LookupStored(entries[1..], c);
      var k :| 0 <= k < |entries| - 1 && entries[1..][k] == (c, Lookup(entries[1..], c).value);
      assert entries[k + 1] == entries[1..][k];
    } else {
      assert entries[0] == (c, Lookup(entries, c).value);
    }
  }

  /** A charset without repetitions gives exactly one entry per character, in charset order. */
  lemma OffsetsOfDistinct(charset: string, values: seq<Alignment>)
    requires |values| == |charset| && Distinct(charset)
    ensures Keys(Offsets(charset, values)) == charset
  {
    OffsetsContents(charset, values);
    DedupOfDistinct(charset);
  }

  /** Each character of the charset is looked up to its own offset search. */
  lemma SearchesLookup(charset: string, glyphs: char -> GlyphPair, size: real, i: int)
    requires Renderable(charset, glyphs) && size > 0.0 && 0 <= i < |charset|
    ensures Lookup(Offsets(charset, Searches(charset, glyphs, size)), charset[i]) ==
            Some(OptimalAlignment(glyphs(charset[i]), size))
  {
    var values := Searches(charset, glyphs, size);
    assert Consistent(charset, values);
    OffsetsLookup(charset, values, i);
  }

  /** np.mean: the arithmetic mean, undefined (NaN in NumPy) for no values. */
  function Mean(xs: seq<real>): Option<real> {
    if |xs| == 0 then None else Some(Sum(xs) / |xs| as real)
  }

  function Sum(xs: seq<real>): real {
    if |xs| == 0 then 0.0 else Sum(xs[..|xs| - 1]) + xs[|xs| - 1]
  }

  lemma {:induction false} SumBounds(xs: seq<real>, lo: real, hi: real)
    requires forall k :: 0 <= k < |xs| ==> lo <= xs[k] <= hi
    ensures |xs| as real * lo <= Sum(xs) <= |xs| as real * hi
  {
    if |xs| > 0 {
      SumBounds(xs[..|xs| - 1], lo, hi);
    }
  }

  /** The mean of values in [lo, hi] lies in [lo, hi]. */
  lemma MeanBounds(xs: seq<real>, lo: real, hi: real)
    requires |xs| > 0 && forall k :: 0 <= k < |xs| ==> lo <= xs[k] <= hi
    ensures Mean(xs).Some? && lo <= Mean(xs).value <= hi
  {
    SumBounds(xs, lo, hi);
    var n := |xs| as real;
    assert lo <= Sum(xs) / n by {
      assert n * lo <= Sum(xs);
    }
    assert Sum(xs) / n <= hi by {
      assert Sum(xs) <= n * hi;
    }
  }

  /** What align_font_instance returns. */
  datatype InstanceResult = InstanceResult(averageRemainder: Option<real>, offsets: Entries)

  /** Putting one more character extends the dictionary of the shorter charset. */
  lemma OffsetsSnoc(charset: string, values: seq<Alignment>, i: nat)
    requires |values| == |charset| && i < |charset|
    ensures Offsets(charset[..i + 1], values[..i + 1]) == Put(Offsets(charset[..i], values[..i]), charset[i], values[i])
  {
    assert charset[..i + 1][..i] == charset[..i];
    assert values[..i + 1][..i] == values[..i];
  }

  /** align_font_instance: run the offset search for each character, then average the scores. */
  method AlignFontInstance(charset: string, glyphs: char -> GlyphPair, size: real) returns (r: InstanceResult)
    requires Renderable(charset, glyphs) && size > 0.0
    ensures r.offsets == Offsets(charset, Searches(charset, glyphs, size))
    ensures r.averageRemainder == Mean(Scores(r.offsets))
  {
    ghost var values := Searches(charset, glyphs, size);
    var offsets: Entries := [];
    for i := 0 to |charset|
      invariant offsets == Offsets(charset[..i], values[..i])
    {
      var alignment := OptimizeOffset(glyphs(charset[i]), size);
      OffsetsSnoc(charset, values, i);
      offsets := Put(offsets, charset[i], alignment);
    }
    assert charset[..|charset|] == charset && values[..|charset|] == values;
    r := InstanceResult(Mean(Scores(offsets)), offsets);
  }

  /**
   * The average remainder is the mean of ratios in [0, 1], so it lies in
   * [0, 1]; it is undefined only for an empty charset.
   */
  lemma AverageInUnitInterval(charset: string, glyphs: char -> GlyphPair, size: real)
    requires Renderable(charset, glyphs) && size > 0.0
    ensures var average := Mean(Scores(Offsets(charset, Searches(charset, glyphs, size))));
            (average.None? <==> |charset| == 0) && (average.Some? ==> 0.0 <= average.value <= 1.0)
  {
    var values := Searches(charset, glyphs, size);
    var entries := Offsets(charset, values);
    OffsetsContents(charset, values);
    DedupSound(charset);
    if |charset| > 0 {
      assert charset[0] in Dedup(charset);
      var scores := Scores(entries);
      forall k | 0 <= k < |scores|
        ensures 0.0 <= scores[k] <= 1.0
      {
        var j :| 0 <= j < |charset| && charset[j] == entries[k].0 && values[j] == entries[k].1;
        ScoreInUnitInterval(glyphs(charset[j]), size);
      }
      MeanBounds(scores, 0.0, 1.0);
    }
  }
}
