/** The operations on Python `str` values that fonts.py uses, on ASCII text. */
module Text {
  import opened Results

  predicate IsUpper(c: char) { 'A' <= c <= 'Z' }

  predicate IsDigit(c: char) { '0' <= c <= '9' }

  // Text search, written position by position so that it evaluates on literal texts.

  /** From index `j` on, `t` agrees with `s` shifted by `i`. */
  predicate MatchesAt(s: string, t: string, i: nat, j: nat)
    requires i + |t| <= |s| && j <= |t|
    decreases |t| - j
  {
    j == |t| || (s[i + j] == t[j] && MatchesAt(s, t, i, j + 1))
  }

  /** The character-by-character comparison is slice equality. */
  lemma {:induction false} MatchesAtSlice(s: string, t: string, i: nat, j: nat)
    requires i + |t| <= |s| && j <= |t|
    ensures MatchesAt(s, t, i, j) <==> s[i + j..i + |t|] == t[j..]
    decreases |t| - j
  {
    if j < |t| {
      MatchesAtSlice(s, t, i, j + 1);
      assert s[i + j..i + |t|] == [s[i + j]] + s[i + j + 1..i + |t|];
      assert t[j..] == [t[j]] + t[j + 1..];
    }
  }

  /** `t` occurs in `s` starting at position `i`. */
  predicate OccursAt(s: string, t: string, i: int) {
    0 <= i <= |s| - |t| && s[i..i + |t|] == t
  }

  /** `t` occurs in `s` at position `i` or later. */
  predicate ContainsFrom(s: string, t: string, i: nat)
    decreases |s| - i
  {
    i + |t| <= |s| && (MatchesAt(s, t, i, 0) || ContainsFrom(s, t, i + 1))
  }

  /** Python's `t in s` on strings: `t` occurs in `s` as a contiguous substring. */
  predicate Contains(s: string, t: string) {
    ContainsFrom(s, t, 0)
  }

  lemma {:induction false} ContainsFromAt(s: string, t: string, i: nat)
    ensures ContainsFrom(s, t, i) <==> exists k :: i <= k && OccursAt(s, t, k)
    decreases |s| - i
  {
    if i + |t| <= |s| {
      MatchesAtSlice(s, t, i, 0);
      ContainsFromAt(s, t, i + 1);
      assert t[0..] == t;
      assert MatchesAt(s, t, i, 0) <==> OccursAt(s, t, i);
      if exists k :: i <= k && OccursAt(s, t, k) {
        var k :| i <= k && OccursAt(s, t, k);
        if k > i {
          assert i + 1 <= k && OccursAt(s, t, k);
        }
      }
      if ContainsFrom(s, t, i + 1) {
        var k :| i + 1 <= k && OccursAt(s, t, k);
        assert i <= k;
      }
    }
  }

  /** Contains means an occurrence at some position. */
  lemma ContainsAt(s: string, t: string)
    ensures Contains(s, t) <==> exists i :: OccursAt(s, t, i)
  {
    ContainsFromAt(s, t, 0);
  }

  /** Every character of a contained text occurs in the containing text. */
  lemma ContainsChar(s: string, t: string, c: char)
    requires Contains(s, t) && c in t
    ensures c in s
  {
    ContainsAt(s, t);
    var i :| OccursAt(s, t, i);
    var j :| 0 <= j < |t| && t[j] == c;
    assert s[i + j] == s[i..i + |t|][j];
  }

  /** A text with a character that `s` lacks is not contained in `s`. */
  lemma MissingChar(s: string, t: string, c: char)
    requires c in t && c !in s
    ensures !Contains(s, t)
  {
    if Contains(s, t) {
      ContainsChar(s, t, c);
    }
  }

  /** ASCII `str.lower` of one character. */
  function LowerChar(c: char): char {
    if IsUpper(c) then (c as int + 32) as char else c
  }

  /** `str.lower` on ASCII text: upper-case letters become lower-case, everything else is kept. */
  function Lower(s: string): string {
    seq(|s|, i requires 0 <= i < |s| => LowerChar(s[i]))
  }

  /** Lower-casing twice is lower-casing once. */
  lemma LowerIdempotent(s: string)
    ensures Lower(Lower(s)) == Lower(s)
  {
    assert forall i :: 0 <= i < |s| ==> LowerChar(LowerChar(s[i])) == LowerChar(s[i]);
  }

  /** `str.endswith`. */
  predicate EndsWith(s: string, suffix: string) {
    |suffix| <= |s| && MatchesAt(s, suffix, |s| - |suffix|, 0)
  }

  lemma EndsWithSlice(s: string, suffix: string)
    ensures EndsWith(s, suffix) <==> |suffix| <= |s| && s[|s| - |suffix|..] == suffix
  {
    if |suffix| <= |s| {
      MatchesAtSlice(s, suffix, |s| - |suffix|, 0);
      assert suffix[0..] == suffix;
    }
  }

  /** `str.removesuffix`: drop `suffix` once if `s` ends with it. */
  function RemoveSuffix(s: string, suffix: string): (r: string)
    ensures r <= s
    ensures if EndsWith(s, suffix) then r + suffix == s else r == s
  {
    EndsWithSlice(s, suffix);
    if EndsWith(s, suffix) then s[..|s| - |suffix|] else s
  }

  /** Replace from position `i` on. */
  function ReplaceFrom(s: string, pattern: string, replacement: string, i: nat): string
    requires |pattern| > 0 && i <= |s|
    decreases |s| - i
  {
    if i + |pattern| > |s| then s[i..]
    else if MatchesAt(s, pattern, i, 0) then replacement + ReplaceFrom(s, pattern, replacement, i + |pattern|)
    else [s[i]] + ReplaceFrom(s, pattern, replacement, i + 1)
  }

  /** `str.replace(pattern, replacement)`: every non-overlapping occurrence of `pattern`, scanning from the left. */
  function Replace(s: string, pattern: string, replacement: string): string
    requires |pattern| > 0
  {
    ReplaceFrom(s, pattern, replacement, 0)
  }

  /** `s` with every `c` left out and every other character kept, in order. */
  function Without(s: string, c: char): (r: string)
    ensures c !in r && |r| <= |s|
  {
    if |s| == 0 then "" else (if s[0] == c then "" else [s[0]]) + Without(s[1..], c)
  }

  /** Leaving characters out distributes over concatenation. */
  lemma {:induction false} WithoutConcat(a: string, b: string, c: char)
    ensures Without(a + b, c) == Without(a, c) + Without(b, c)
  {
    if |a| > 0 {
      assert (a + b)[1..] == a[1..] + b;
      WithoutConcat(a[1..], b, c);
    } else {
      assert a + b == b;
    }
  }

  /** Text that does not hold `c` keeps all of its characters. */
  lemma {:induction false} WithoutAbsent(s: string, c: char)
    requires c !in s
    ensures Without(s, c) == s
  {
    if |s| > 0 {
      assert c !in s[1..];
      WithoutAbsent(s[1..], c);
    }
  }

  lemma {:induction false} ReplaceFromCharByNothing(s: string, c: char, i: nat)
    requires i <= |s|
    ensures ReplaceFrom(s, [c], "", i) == Without(s[i..], c)
    decreases |s| - i
  {
    if i + 1 <= |s| {
      ReplaceFromCharByNothing(s, c, i + 1);
      assert s[i..][1..] == s[i + 1..];
      assert MatchesAt(s, [c], i, 1);
      if MatchesAt(s, [c], i, 0) {
        assert s[i] == c;
      } else {
        assert s[i] != c;
      }
    }
  }

  /**
   * Replacing every occurrence of a one-character `pattern` by nothing
   * leaves the other characters, in order, and none of the pattern.
   */
  lemma ReplaceCharByNothing(s: string, c: char)
    ensures Replace(s, [c], "") == Without(s, c)
    ensures c !in Replace(s, [c], "")
  {
    ReplaceFromCharByNothing(s, c, 0);
    assert s[0..] == s;
  }

  /** Text without the pattern's first character is left as it is. */
  lemma {:induction false} ReplaceFromAbsent(s: string, pattern: string, replacement: string, i: nat)
    requires |pattern| > 0 && i <= |s| && pattern[0] !in s[i..]
    ensures ReplaceFrom(s, pattern, replacement, i) == s[i..]
    decreases |s| - i
  {
    if i + |pattern| <= |s| {
      assert s[i] == s[i..][0];
      assert s[i + 1..] == s[i..][1..];
      ReplaceFromAbsent(s, pattern, replacement, i + 1);
      assert s[i..] == [s[i]] + s[i + 1..];
    }
  }

  /** Index of the first `c` in `s` at or after `i`, or |s| when there is none. */
  function IndexFrom(s: string, c: char, i: nat): (k: nat)
    requires i <= |s|
    ensures i <= k <= |s|
    ensures k < |s| ==> s[k] == c
    ensures forall j :: i <= j < k ==> s[j] != c
    decreases |s| - i
  {
    if i == |s| || s[i] == c then i else IndexFrom(s, c, i + 1)
  }

  /**
   * `s.split(sep, maxsplit=1)`: the text before the first `sep` and, when
   * `sep` occurs, the text after it.
   */
  function SplitOnce(s: string, sep: char): (parts: (string, Option<string>))
    ensures sep !in parts.0
    ensures parts.1.None? <==> sep !in s
    ensures parts.1.None? ==> parts.0 == s
    ensures parts.1.Some? ==> s == parts.0 + [sep] + parts.1.value
  {
    var i := IndexFrom(s, sep, 0);
    if i == |s| then (s, None) else (s[..i], Some(s[i + 1..]))
  }

  /** Splitting `f + sep + m` where `f` has no `sep` gives back `f` and `m`. */
  lemma SplitOnceOf(f: string, sep: char, m: string)
    requires sep !in f
    ensures SplitOnce(f + [sep] + m, sep) == (f, Some(m))
  {
    var s := f + [sep] + m;
    var k := IndexFrom(s, sep, 0);
    assert s[|f|] == sep;
    assert forall j :: 0 <= j < |f| ==> s[j] == f[j];
    assert k == |f|;
    assert s[..|f|] == f;
    assert s[|f| + 1..] == m;
  }

  /** A character absent from `b` is absent from every prefix of `b`. */
  lemma PrefixLacks(a: string, b: string, c: char)
    requires a <= b && c !in b
    ensures c !in a
  {
  }
}
