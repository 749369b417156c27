/** Normalisation of PDF font identifiers in fonts.py: pure rewriting of ASCII strings. */
module FontNames {
  import opened Results
  import opened Text

  /** End of the maximal run of upper-case letters of `s` that starts at `i`. */
  function UpperRunFrom(s: string, i: nat): (k: nat)
    requires i <= |s|
    ensures i <= k <= |s|
    ensures forall j :: i <= j < k ==> IsUpper(s[j])
    ensures k < |s| ==> !IsUpper(s[k])
    decreases |s| - i
  {
    if i < |s| && IsUpper(s[i]) then UpperRunFrom(s, i + 1) else i
  }

  /**
   * `re.match(r"^[A-Z]+\+(.+)$", s)` and its group 1: a subset prefix of
   * upper-case letters and a '+' is dropped when something follows it.
   */
  function StripSubsetPrefix(s: string): (r: string)
    ensures r == s || exists k :: 1 <= k < |s| - 1 && s[k] == '+' && (forall j :: 0 <= j < k ==> IsUpper(s[j])) && r == s[k + 1..]
  {
    var k := UpperRunFrom(s, 0);
    if 1 <= k && k + 1 < |s| && s[k] == '+' then s[k + 1..] else s
  }

  /** A prefix of upper-case letters and '+' in front of a non-empty name is removed. */
  lemma StripSubsetPrefixOf(prefix: string, name: string)
    requires |prefix| > 0 && (forall j :: 0 <= j < |prefix| ==> IsUpper(prefix[j])) && |name| > 0
    ensures StripSubsetPrefix(prefix + "+" + name) == name
  {
    var s := prefix + "+" + name;
    var k := UpperRunFrom(s, 0);
    assert s[|prefix|] == '+';
    assert forall j :: 0 <= j < |prefix| ==> s[j] == prefix[j];
    assert k == |prefix|;
    assert s[|prefix| + 1..] == name;
  }

  /** Start of the maximal run of digits that ends just before index `n`. */
  function DigitRunStart(s: string, n: nat): (k: nat)
    requires n <= |s|
    ensures k <= n
    ensures k == 0 || !IsDigit(s[k - 1])
    ensures forall j :: k <= j < n ==> IsDigit(s[j])
    decreases n
  {
    if n > 0 && IsDigit(s[n - 1]) then DigitRunStart(s, n - 1) else n
  }

  /** `re.sub(r"(\d+)$", "", s)`: the maximal run of trailing digits is removed. */
  function StripTrailingDigits(s: string): (r: string)
    ensures r <= s
    ensures |r| == 0 || !IsDigit(r[|r| - 1])
    ensures forall j :: |r| <= j < |s| ==> IsDigit(s[j])
  {
    s[..DigitRunStart(s, |s|)]
  }

  // The synonym table FONT_MAP.

  /**
   * The two shapes of FONT_MAP pattern, matched against the whole family
   * name: a literal name, or a prefix followed by one or two digits.
   */
  datatype Pattern = Exactly(name: string) | PrefixThenDigits(prefix: string)

  datatype Rule = Rule(pattern: Pattern, replacement: string)

  predicate Matches(p: Pattern, s: string) {
    match p
    case Exactly(name) => s == name
    case PrefixThenDigits(prefix) =>
      (|s| == |prefix| + 1 || |s| == |prefix| + 2) && MatchesAt(s, prefix, 0, 0)
      && IsDigit(s[|prefix|]) && (|s| == |prefix| + 1 || IsDigit(s[|prefix| + 1]))
  }

  /** FONT_MAP in its insertion order, which is the order the rules are tried. */
  const FontMap: seq<Rule> := [
    Rule(PrefixThenDigits("CMSS"), "ComputerModernSans"),
    Rule(PrefixThenDigits("CMR"), "ComputerModernSerif"),
    Rule(PrefixThenDigits("CMTI"), "ComputerModernSerif-Italic"),
    Rule(PrefixThenDigits("CMBX"), "ComputerModernSerif-Bold"),
    Rule(Exactly("DGMetaSerifScience"), "DeGruyterSerif"),
    Rule(Exactly("DGMetaScience"), "DeGruyterSans"),
    Rule(Exactly("STIXGeneral"), "STIXTwoText"),
    Rule(Exactly("Times"), "TimesNewRoman"),
    Rule(Exactly("TimesNewer"), "TimesNewerRoman")
  ]

  /** Index of the first rule at or after `i` whose pattern matches `s`, or |rules| when none does. */
  function FirstMatch(rules: seq<Rule>, s: string, i: nat): (k: nat)
    requires i <= |rules|
    ensures i <= k <= |rules|
    ensures k < |rules| ==> Matches(rules[k].pattern, s)
    ensures forall j :: i <= j < k ==> !Matches(rules[j].pattern, s)
    decreases |rules| - i
  {
    if i == |rules| || Matches(rules[i].pattern, s) then i else FirstMatch(rules, s, i + 1)
  }

  /** Rule `i` is the first rule of FONT_MAP whose pattern matches `s`. */
  predicate FirstMatching(s: string, i: int) {
    0 <= i < |FontMap| && Matches(FontMap[i].pattern, s) && forall j :: 0 <= j < i ==> !Matches(FontMap[j].pattern, s)
  }

  /**
   * The loop over FONT_MAP with `break`: the replacement of the first
   * matching rule, or `s` itself when no rule matches.
   */
  function ApplyFontMap(s: string): (r: string)
    ensures (exists i :: FirstMatching(s, i) && r == FontMap[i].replacement)
            || ((forall i :: 0 <= i < |FontMap| ==> !Matches(FontMap[i].pattern, s)) && r == s)
  {
    var i := FirstMatch(FontMap, s, 0);
    if i < |FontMap| then (assert FirstMatching(s, i); FontMap[i].replacement) else s
  }

  /** "Times" is renamed by the eighth rule. */
  lemma FontMapTimes()
    ensures ApplyFontMap("Times") == "TimesNewRoman"
  {
    assert FirstMatch(FontMap, "Times", 7) == 7;
    assert FirstMatch(FontMap, "Times", 6) == 7;
    assert FirstMatch(FontMap, "Times", 5) == 7;
    assert FirstMatch(FontMap, "Times", 4) == 7;
    assert FirstMatch(FontMap, "Times", 3) == 7;
    assert FirstMatch(FontMap, "Times", 2) == 7;
    assert FirstMatch(FontMap, "Times", 1) == 7;
  }

  /** The names the literal rules of FONT_MAP match. */
  const ExactNames: seq<string> := ["DGMetaSerifScience", "DGMetaScience", "STIXGeneral", "Times", "TimesNewer"]

  /** The rules in order: four TeX prefixes with a point size, then five literal names. */
  lemma FontMapShape(i: int)
    requires 0 <= i < |FontMap|
    ensures i < 4 ==> FontMap[i].pattern.PrefixThenDigits?
    ensures 4 <= i ==> FontMap[i].pattern == Exactly(ExactNames[i - 4])
    ensures 4 <= i ==> FontMap[i].pattern.name in ExactNames
  {
  }

  /** A name that is none of the literal names and does not end in a digit is matched by no rule and kept. */
  lemma UnmappedName(s: string)
    requires s !in ExactNames && (|s| == 0 || !IsDigit(s[|s| - 1]))
    ensures ApplyFontMap(s) == s
  {
    if ApplyFontMap(s) != s {
      var i :| FirstMatching(s, i) && ApplyFontMap(s) == FontMap[i].replacement;
      FontMapShape(i);
    }
  }

  /** The name "Times" is renamed to matches no rule, so it is kept. */
  lemma FontMapTimesNewRoman()
    ensures ApplyFontMap("TimesNewRoman") == "TimesNewRoman"
  {
    UnmappedName("TimesNewRoman");
  }

  /** A TeX name with its point size is renamed by the second rule. */
  lemma FontMapTeX()
    ensures ApplyFontMap("CMR10") == "ComputerModernSerif"
  {
    assert FirstMatch(FontMap, "CMR10", 1) == 1;
  }

  /** Has `s` a '-' as its last character? */
  predicate EndsInDash(s: string) {
    |s| > 0 && s[|s| - 1] == '-'
  }

  /** The replacement of every rule is one of the nine FONT_MAP values. */
  lemma Replacements(i: int)
    requires 0 <= i < |FontMap|
    ensures FontMap[i].replacement in ReplacementNames
  {
  }

  const ReplacementNames: seq<string> := [
    "ComputerModernSans", "ComputerModernSerif", "ComputerModernSerif-Italic", "ComputerModernSerif-Bold",
    "DeGruyterSerif", "DeGruyterSans", "STIXTwoText", "TimesNewRoman", "TimesNewerRoman"
  ]

  /** No replacement has a space, and each ends in a lower-case letter. */
  lemma ReplacementSpelling(r: string)
    requires r in ReplacementNames
    ensures ' ' !in r
    ensures |r| > 0 && 'a' <= r[|r| - 1] <= 'z'
  {
  }

  // The three modifier helpers.

  /** The weight `_disambiguate_modifiers` reads from lower-cased modifiers, by keyword precedence; "" for regular. */
  function Weight(m: string): string {
    if Contains(m, "light") then "Light"
    else if Contains(m, "semibold") then "Semibold"
    else if Contains(m, "extrabold") || Contains(m, "black") then "Extrabold"
    else if Contains(m, "bold") then "Bold"
    else ""
  }

  /** An italic keyword occurs in lower-cased modifiers. */
  predicate HasItalicKeyword(m: string) {
    Contains(m, "ital") || Contains(m, "oblique") || Contains(m, "slant")
  }

  /**
   * `_disambiguate_modifiers`: the weight followed by "Italic" when an italic
   * keyword occurs, all case-insensitively.
   */
  function DisambiguateModifiers(modifiers: string): string {
    var m := Lower(modifiers);
    Weight(m) + (if HasItalicKeyword(m) then "Italic" else "")
  }

  /** Capital letters as `str.lower` sees them make no difference. */
  lemma ModifiersIgnoreCase(modifiers: string)
    ensures DisambiguateModifiers(Lower(modifiers)) == DisambiguateModifiers(modifiers)
  {
    LowerIdempotent(modifiers);
  }

  /**
   * Keyword precedence: each weight is chosen exactly when its keyword
   * occurs and no keyword of higher precedence does, and otherwise the
   * weight is empty.
   */
  lemma WeightPrecedence(m: string)
    ensures Weight(m) == "Light" <==> Contains(m, "light")
    ensures Weight(m) == "Semibold" <==> !Contains(m, "light") && Contains(m, "semibold")
    ensures Weight(m) == "Extrabold" <==>
              !Contains(m, "light") && !Contains(m, "semibold") && (Contains(m, "extrabold") || Contains(m, "black"))
    ensures Weight(m) == "Bold" <==>
              !Contains(m, "light") && !Contains(m, "semibold") && !Contains(m, "extrabold") && !Contains(m, "black")
              && Contains(m, "bold")
    ensures Weight(m) == "" || Weight(m) == "Light" || Weight(m) == "Semibold" || Weight(m) == "Extrabold" || Weight(m) == "Bold"
  {
  }

  /** The result ends in "Italic" exactly when an italic keyword occurs; no weight does. */
  lemma ModifiersItalic(modifiers: string)
    ensures EndsWith(DisambiguateModifiers(modifiers), "Italic") <==> HasItalicKeyword(Lower(modifiers))
  {
    var m := Lower(modifiers);
    var w := Weight(m);
    if !HasItalicKeyword(m) {
      assert DisambiguateModifiers(modifiers) == w;
      assert !EndsWith(w, "Italic");
    }
  }

  /** `_disambiguate_capital_modifiers`: the modifiers of each stripped capital suffix. */
  function CapitalSuffix(modifiers: string): string {
    if modifiers == "Bold" then "TB"
    else if modifiers == "Italic" then "TI"
    else if modifiers == "BoldItalic" then "TBTI"
    else ""
  }

  /**
   * `_disambiguate_capital_modifiers`: strip a trailing "TI" (Italic), then
   * a trailing "TB" (Bold), then a trailing "T" (regular), and report the
   * modifiers found.
   */
  function DisambiguateCapitalModifiers(fontName: string): (r: (string, string))
    ensures r.1 == "" || r.1 == "Bold" || r.1 == "Italic" || r.1 == "BoldItalic"
    ensures fontName == r.0 + CapitalSuffix(r.1) || fontName == r.0 + "T" + CapitalSuffix(r.1)
    ensures r.1 == "Italic" || r.1 == "BoldItalic" <==> EndsWith(fontName, "TI")
  {
    var italic := EndsWith(fontName, "TI");
    var a := RemoveSuffix(fontName, "TI");
    var bold := EndsWith(a, "TB");
    var b := RemoveSuffix(a, "TB");
    var c := RemoveSuffix(b, "T");
    (c, (if bold then "Bold" else "") + (if italic then "Italic" else ""))
  }

  /** The stripped name is a prefix of the input. */
  lemma CapitalModifiersPrefix(fontName: string)
    ensures DisambiguateCapitalModifiers(fontName).0 <= fontName
  {
    var r := DisambiguateCapitalModifiers(fontName);
    if fontName == r.0 + CapitalSuffix(r.1) {
      assert fontName[..|r.0|] == r.0;
    } else {
      assert fontName[..|r.0|] == r.0;
    }
  }

  /** Family and modifiers joined as the source's f-string does, or the family alone when there are no modifiers. */
  function Join(family: string, modifiers: string): string {
    if modifiers == "" then family else family + "-" + modifiers
  }

  /** The identifier with its subset prefix and its spaces removed. */
  function CompactName(pdfIdentifier: string): string {
    Replace(StripSubsetPrefix(pdfIdentifier), " ", "")
  }

  /** The character the family is split off at: '-' if there is one, ',' otherwise. */
  function Splitter(name: string): char {
    if '-' in name then '-' else ','
  }

  /** `removesuffix("MT")` followed by `removesuffix("PS")`. */
  function StripFoundrySuffixes(family: string): string {
    RemoveSuffix(RemoveSuffix(family, "MT"), "PS")
  }

  /**
   * The second half of `_disambiguate_identifier`, from a name with prefix,
   * spaces and trailing digits already removed: split off the family, strip
   * its suffixes, rename it by FONT_MAP and attach the modifiers.
   */
  function Assemble(name: string): string {
    var parts := SplitOnce(name, Splitter(name));
    var family := ApplyFontMap(StripFoundrySuffixes(parts.0));
    match parts.1
    case None =>
      var capital := DisambiguateCapitalModifiers(family);
      Join(capital.0, capital.1)
    case Some(rest) => Join(family, DisambiguateModifiers(rest))
  }

  /** `_disambiguate_identifier`: the normalised "Family" or "Family-Modifiers" name of a PDF font identifier. */
  function DisambiguateIdentifier(pdfIdentifier: string): string {
    Assemble(StripTrailingDigits(CompactName(pdfIdentifier)))
  }

  /** A name that ends in none of "TI", "TB" and "T" has no capital modifiers and is kept. */
  lemma CapitalModifiersKeep(s: string)
    requires !EndsWith(s, "TI") && !EndsWith(s, "TB") && !EndsWith(s, "T")
    ensures DisambiguateCapitalModifiers(s) == (s, "")
  {
  }

  /** In particular a name whose last letter is none of 'T', 'I' and 'B' is kept. */
  lemma CapitalLastLetterKeep(s: string)
    requires |s| == 0 || (s[|s| - 1] != 'T' && s[|s| - 1] != 'I' && s[|s| - 1] != 'B')
    ensures DisambiguateCapitalModifiers(s) == (s, "")
  {
    EndsWithSlice(s, "TI");
    EndsWithSlice(s, "TB");
    EndsWithSlice(s, "T");
    CapitalModifiersKeep(s);
  }

  /** The ten results of `_disambiguate_modifiers`. */
  const ModifierNames: seq<string> := [
    "", "Italic", "Light", "LightItalic", "Semibold", "SemiboldItalic", "Extrabold", "ExtraboldItalic", "Bold", "BoldItalic"
  ]

  /** `_disambiguate_modifiers` produces one of ten names. */
  lemma ModifiersVocabulary(modifiers: string)
    ensures DisambiguateModifiers(modifiers) in ModifierNames
  {
    var m := Lower(modifiers);
    var w := Weight(m);
    WeightPrecedence(m);
    if HasItalicKeyword(m) {
      assert DisambiguateModifiers(modifiers) == w + "Italic";
      assert w + "Italic" in ModifierNames by {
        if w == "" {
          assert w + "Italic" == "Italic";
        } else if w == "Light" {
          assert w + "Italic" == "LightItalic";
        } else if w == "Semibold" {
          assert w + "Italic" == "SemiboldItalic";
        } else if w == "Extrabold" {
          assert w + "Italic" == "ExtraboldItalic";
        } else {
          assert w + "Italic" == "BoldItalic";
        }
      }
    } else {
      assert DisambiguateModifiers(modifiers) == w + "";
      assert w + "" == w;
    }
  }

  /** No modifier name has a space, and each non-empty one ends in a lower-case letter. */
  lemma ModifierSpelling(m: string)
    requires m in ModifierNames
    ensures ' ' !in m
    ensures m == "" || 'a' <= m[|m| - 1] <= 'z'
  {
  }

  /** No capital modifier name has a space, and each non-empty one ends in a lower-case letter. */
  lemma CapitalSpelling(m: string)
    requires m == "" || m == "Bold" || m == "Italic" || m == "BoldItalic"
    ensures ' ' !in m
    ensures m == "" || 'a' <= m[|m| - 1] <= 'z'
  {
  }

  /** The family before FONT_MAP has no space and no '-'. */
  lemma BaseFamilyShape(name: string)
    requires ' ' !in name
    ensures var base := StripFoundrySuffixes(SplitOnce(name, Splitter(name)).0);
            ' ' !in base && '-' !in base
  {
    var parts := SplitOnce(name, Splitter(name));
    assert ' ' !in parts.0 && '-' !in parts.0;
    var mt := RemoveSuffix(parts.0, "MT");
    PrefixLacks(mt, parts.0, ' ');
    PrefixLacks(mt, parts.0, '-');
    var base := RemoveSuffix(mt, "PS");
    PrefixLacks(base, mt, ' ');
    PrefixLacks(base, mt, '-');
  }

  /** The family after FONT_MAP: a base family, or a replacement. */
  lemma MappedFamilyShape(base: string)
    ensures var family := ApplyFontMap(base);
            family == base || (family in ReplacementNames && 'a' <= family[|family| - 1] <= 'z')
  {
    var family := ApplyFontMap(base);
    if family != base {
      var i :| FirstMatching(base, i) && family == FontMap[i].replacement;
      Replacements(i);
      ReplacementSpelling(family);
    }
  }

  /** Joining keeps out spaces and a trailing '-' when the modifiers end in a lower-case letter. */
  lemma JoinShape(family: string, modifiers: string)
    requires ' ' !in family && !EndsInDash(family)
    requires ' ' !in modifiers && (modifiers == "" || 'a' <= modifiers[|modifiers| - 1] <= 'z')
    ensures ' ' !in Join(family, modifiers) && !EndsInDash(Join(family, modifiers))
  {
  }

  /** The assembly without a splitter: the family with capital modifiers read off its end. */
  lemma CapitalAssemblyShape(base: string)
    requires ' ' !in base && '-' !in base
    ensures var family := ApplyFontMap(base);
            var capital := DisambiguateCapitalModifiers(family);
            ' ' !in Join(capital.0, capital.1) && !EndsInDash(Join(capital.0, capital.1))
  {
    var family := ApplyFontMap(base);
    var capital := DisambiguateCapitalModifiers(family);
    assert ' ' !in capital.0 && !EndsInDash(capital.0) by {
      MappedFamilyShape(base);
      if family == base {
        CapitalModifiersPrefix(family);
        PrefixLacks(capital.0, family, ' ');
        PrefixLacks(capital.0, family, '-');
        if |capital.0| > 0 {
          assert capital.0[|capital.0| - 1] in capital.0;
        }
      } else {
        ReplacementSpelling(family);
        CapitalLastLetterKeep(family);
      }
    }
    assert ' ' !in capital.1 && (capital.1 == "" || 'a' <= capital.1[|capital.1| - 1] <= 'z') by {
      CapitalSpelling(capital.1);
    }
    JoinShape(capital.0, capital.1);
  }

  /** The assembly with a splitter: the family and the disambiguated modifiers. */
  lemma ModifierAssemblyShape(base: string, rest: string)
    requires ' ' !in base && '-' !in base
    ensures var family := ApplyFontMap(base);
            ' ' !in Join(family, DisambiguateModifiers(rest)) && !EndsInDash(Join(family, DisambiguateModifiers(rest)))
  {
    var family := ApplyFontMap(base);
    MappedFamilyShape(base);
    if family != base {
      ReplacementSpelling(family);
    }
    ModifiersVocabulary(rest);
    ModifierSpelling(DisambiguateModifiers(rest));
    JoinShape(family, DisambiguateModifiers(rest));
  }

  /** Assembling a name without spaces gives a name without spaces that does not end in '-'. */
  lemma AssembledShape(name: string)
    requires ' ' !in name
    ensures ' ' !in Assemble(name) && !EndsInDash(Assemble(name))
  {
    var parts := SplitOnce(name, Splitter(name));
    var base := StripFoundrySuffixes(parts.0);
    BaseFamilyShape(name);
    match parts.1
    case None => CapitalAssemblyShape(base);
    case Some(rest) => ModifierAssemblyShape(base, rest);
  }

  /** A normalised identifier has no spaces and does not end in '-'. */
  lemma DisambiguatedShape(pdfIdentifier: string)
    ensures ' ' !in DisambiguateIdentifier(pdfIdentifier)
    ensures !EndsInDash(DisambiguateIdentifier(pdfIdentifier))
  {
    var compact := CompactName(pdfIdentifier);
    ReplaceCharByNothing(StripSubsetPrefix(pdfIdentifier), ' ');
    PrefixLacks(StripTrailingDigits(compact), compact, ' ');
    AssembledShape(StripTrailingDigits(compact));
  }

  // The normalisation on identifiers of known shape.

  /** An identifier without '+' and spaces keeps its subset-prefix and space handling unchanged. */
  lemma CompactUnchanged(s: string)
    requires '+' !in s && ' ' !in s
    ensures CompactName(s) == s
  {
    assert StripSubsetPrefix(s) == s;
    ReplaceFromAbsent(s, " ", "", 0);
    assert s[0..] == s;
  }

  /** An identifier without '+', spaces and trailing digits reaches the split unchanged. */
  lemma CleanIdentifier(s: string)
    requires '+' !in s && ' ' !in s && (|s| == 0 || !IsDigit(s[|s| - 1]))
    ensures StripTrailingDigits(CompactName(s)) == s
  {
    CompactUnchanged(s);
    StripTrailingDigitsOf(s, "");
    assert s + "" == s;
  }

  /** Exactly the digits after the last non-digit are removed. */
  lemma StripTrailingDigitsOf(p: string, digits: string)
    requires |p| == 0 || !IsDigit(p[|p| - 1])
    requires forall k :: 0 <= k < |digits| ==> IsDigit(digits[k])
    ensures StripTrailingDigits(p + digits) == p
  {
    var s := p + digits;
    var r := StripTrailingDigits(s);
    assert r == s[..|p|];
  }

  /** A family ending in neither 'T' nor 'S' has no foundry suffix. */
  lemma NoFoundrySuffix(f: string)
    requires |f| == 0 || (f[|f| - 1] != 'T' && f[|f| - 1] != 'S')
    ensures StripFoundrySuffixes(f) == f
  {
    EndsWithSlice(f, "MT");
    EndsWithSlice(f, "PS");
  }

  /** "Family" + splitter + "Modifiers" is split into the two, '-' being preferred as splitter. */
  lemma AssembleSplit(f: string, sep: char, m: string)
    requires sep !in f && (sep == '-' || (sep == ',' && '-' !in f && '-' !in m))
    ensures Assemble(f + [sep] + m) == Join(ApplyFontMap(StripFoundrySuffixes(f)), DisambiguateModifiers(m))
  {
    var s := f + [sep] + m;
    assert s[|f|] == sep;
    if sep == ',' {
      assert '-' !in s;
    }
    assert Splitter(s) == sep;
    SplitOnceOf(f, sep, m);
  }

  /** A name with neither '-' nor ',' takes its modifiers from its capital suffix. */
  lemma AssembleBare(f: string)
    requires '-' !in f && ',' !in f
    ensures var capital := DisambiguateCapitalModifiers(ApplyFontMap(StripFoundrySuffixes(f)));
            Assemble(f) == Join(capital.0, capital.1)
  {
  }

  lemma TimesBoldParts()
    ensures "TimesNewRomanPS-BoldMT" == "TimesNewRomanPS" + ['-'] + "BoldMT"
    ensures StripFoundrySuffixes("TimesNewRomanPS") == "TimesNewRoman"
  {
  }

  lemma BoldMTModifiers()
    ensures DisambiguateModifiers("BoldMT") == "Bold"
  {
    assert Lower("BoldMT") == "boldmt";
  }

  /**
   * A TeX family whose FONT_MAP replacement already carries a modifier keeps
   * its own modifier as well: "CMTI10-Italic" gets "Italic" twice.
   */
  lemma DisambiguateTeXItalic()
    ensures DisambiguateIdentifier("CMTI10-Italic") == Join("ComputerModernSerif-Italic", "Italic")
  {
    TeXItalicClean();
    TeXItalicSplit();
    FontMapTeXItalic();
    ItalicModifiers();
  }

  lemma TeXItalicClean()
    ensures DisambiguateIdentifier("CMTI10-Italic") == Assemble("CMTI10-Italic")
  {
    CleanIdentifier("CMTI10-Italic");
  }

  lemma TeXItalicSplit()
    ensures Assemble("CMTI10-Italic") == Join(ApplyFontMap("CMTI10"), DisambiguateModifiers("Italic"))
  {
    assert "CMTI10-Italic" == "CMTI10" + ['-'] + "Italic";
    AssembleSplit("CMTI10", '-', "Italic");
    NoFoundrySuffix("CMTI10");
  }

  /** "CMTI10" is renamed by the third rule, whose replacement carries "-Italic". */
  lemma FontMapTeXItalic()
    ensures ApplyFontMap("CMTI10") == "ComputerModernSerif-Italic"
  {
    assert Matches(FontMap[2].pattern, "CMTI10");
    assert !Matches(FontMap[1].pattern, "CMTI10") by { assert "CMTI10"[2] != 'R'; }
    assert !Matches(FontMap[0].pattern, "CMTI10") by { assert "CMTI10"[2] != 'S'; }
    assert FirstMatch(FontMap, "CMTI10", 2) == 2;
  }

  lemma ItalicModifiers()
    ensures DisambiguateModifiers("Italic") == "Italic"
  {
    assert Lower("Italic") == "italic";
  }

  /** A Monotype and PostScript family with its weight after the '-'. */
  lemma DisambiguateTimesBold()
    ensures DisambiguateIdentifier("TimesNewRomanPS-BoldMT") == "TimesNewRoman-Bold"
  {
    var s := "TimesNewRomanPS-BoldMT";
    calc {
      DisambiguateIdentifier(s);
    == { CleanIdentifier(s); }
      Assemble(s);
    == { TimesBoldParts(); }
      Assemble("TimesNewRomanPS" + ['-'] + "BoldMT");
    == { AssembleSplit("TimesNewRomanPS", '-', "BoldMT"); TimesBoldParts(); }
      Join(ApplyFontMap("TimesNewRoman"), DisambiguateModifiers("BoldMT"));
    == { FontMapTimesNewRoman(); BoldMTModifiers(); }
      Join("TimesNewRoman", "Bold");
    ==
      "TimesNewRoman-Bold";
    }
  }

  // Bare TeX font names: the point size is removed before FONT_MAP is tried.

  lemma TeXParts()
    ensures "CMR10" == "CMR" + "10" && "CMTI10" == "CMTI" + "10" && "CMTI" == "CM" + "TI"
  {
  }

  lemma TeXCompact()
    ensures StripTrailingDigits(CompactName("CMR10")) == "CMR"
    ensures StripTrailingDigits(CompactName("CMTI10")) == "CMTI"
  {
    TeXParts();
    assert CompactName("CMR10") == "CMR10" by { CompactUnchanged("CMR10"); }
    assert CompactName("CMTI10") == "CMTI10" by { CompactUnchanged("CMTI10"); }
    StripTrailingDigitsOf("CMR", "10");
    StripTrailingDigitsOf("CMTI", "10");
  }

  lemma AssembleCMR()
    ensures Assemble("CMR") == "CMR"
  {
    calc {
      Assemble("CMR");
    == { AssembleBare("CMR"); NoFoundrySuffix("CMR"); }
      Join(DisambiguateCapitalModifiers(ApplyFontMap("CMR")).0, DisambiguateCapitalModifiers(ApplyFontMap("CMR")).1);
    == { UnmappedName("CMR"); CapitalLastLetterKeep("CMR"); }
      Join("CMR", "");
    }
  }

  lemma AssembleCMTI()
    ensures Assemble("CMTI") == "CM-Italic"
  {
    calc {
      Assemble("CMTI");
    == { AssembleBare("CMTI"); NoFoundrySuffix("CMTI"); }
      Join(DisambiguateCapitalModifiers(ApplyFontMap("CMTI")).0, DisambiguateCapitalModifiers(ApplyFontMap("CMTI")).1);
    == { UnmappedName("CMTI"); TeXParts(); CapitalItalic("CM"); }
      Join("CM", "Italic");
    ==
      "CM-Italic";
    }
  }

  /** As written: "CMR10" loses its point size and is no longer renamed. */
  lemma BareTeXNameAsWritten()
    ensures DisambiguateIdentifier("CMR10") == "CMR"
  {
    TeXCompact();
    AssembleCMR();
  }

  /**
   * A name ending in "TI" but not in "TBTI" is read as italic; a 'T' left in
   * front of the stripped "TI" is removed as well.
   */
  lemma CapitalItalic(f: string)
    requires !EndsWith(f, "TB")
    ensures DisambiguateCapitalModifiers(f + "TI") == (RemoveSuffix(f, "T"), "Italic")
  {
    var s := f + "TI";
    EndsWithSlice(s, "TI");
    assert s[|s| - 2..] == "TI";
    assert RemoveSuffix(s, "TI") == f;
  }

  /** A single trailing 'T' marks the regular face and is stripped. */
  lemma CapitalRegular(f: string)
    ensures DisambiguateCapitalModifiers(f + "T") == (f, "")
  {
    var s := f + "T";
    assert !EndsWith(s, "TI") && !EndsWith(s, "TB") by {
      EndsWithSlice(s, "TI");
      EndsWithSlice(s, "TB");
      assert s[|s| - 1] == 'T';
    }
    assert RemoveSuffix(s, "T") == f by {
      EndsWithSlice(s, "T");
      assert s[|s| - 1..] == "T";
    }
  }

  /** A name ending in "TB" is read as bold; a 'T' in front of the stripped "TB" is removed as well. */
  lemma CapitalBold(f: string)
    ensures DisambiguateCapitalModifiers(f + "TB") == (RemoveSuffix(f, "T"), "Bold")
  {
    var s := f + "TB";
    EndsWithSlice(s, "TI");
    EndsWithSlice(s, "TB");
    assert s[|s| - 2..] == "TB";
    assert RemoveSuffix(s, "TB") == f;
  }

  /** A name ending in "TBTI" is read as bold italic; a 'T' in front of the stripped "TBTI" is removed as well. */
  lemma CapitalBoldItalic(f: string)
    ensures DisambiguateCapitalModifiers(f + "TBTI") == (RemoveSuffix(f, "T"), "BoldItalic")
  {
    var s := f + "TBTI";
    EndsWithSlice(s, "TI");
    assert s[|s| - 2..] == "TI";
    assert RemoveSuffix(s, "TI") == f + "TB";
    EndsWithSlice(f + "TB", "TB");
    assert (f + "TB")[|f + "TB"| - 2..] == "TB";
    assert RemoveSuffix(f + "TB", "TB") == f;
  }

  /** "XTTB": the doubled 'T' in front of "TB" is stripped too. */
  lemma CapitalDoubledT()
    ensures DisambiguateCapitalModifiers("XTTB") == ("X", "Bold")
  {
    CapitalBold("XT");
    assert "XT" + "TB" == "XTTB";
    assert "XT" == "X" + "T";
    CapitalStripT("X");
  }

  /** Removing a suffix "T" from `f + "T"` gives back `f`. */
  lemma CapitalStripT(f: string)
    ensures RemoveSuffix(f + "T", "T") == f
  {
    var s := f + "T";
    EndsWithSlice(s, "T");
    assert s[|s| - 1..] == "T";
  }

  /** As written: "CMTI10" loses its point size, and its "TI" is then read as an italic suffix. */
  lemma BareTeXItalicAsWritten()
    ensures DisambiguateIdentifier("CMTI10") == "CM-Italic"
  {
    TeXCompact();
    AssembleCMTI();
  }

  /**
   * `_disambiguate_identifier` with the trailing digits kept when the whole
   * name is matched by a FONT_MAP rule, so that the rules with a point size
   * can fire.
   */
  function DisambiguateIdentifierCorrected(pdfIdentifier: string): string {
    var compact := CompactName(pdfIdentifier);
    Assemble(if FirstMatch(FontMap, compact, 0) < |FontMap| then compact else StripTrailingDigits(compact))
  }

  /** A mismatch at one position rules out a match. */
  lemma MismatchAt(s: string, t: string, k: nat)
    requires |t| <= |s| && k < |t| && s[k] != t[k]
    ensures !MatchesAt(s, t, 0, 0)
  {
    MatchesAtSlice(s, t, 0, 0);
    assert s[0..|t|][k] == s[k];
  }

  /** A TeX prefix followed by its point size is matched by its own rule and by no earlier one. */
  lemma TeXNameMatches(i: int, prefix: string, replacement: string, size: string)
    requires 0 <= i < 4 && FontMap[i] == Rule(PrefixThenDigits(prefix), replacement)
    requires (|size| == 1 || |size| == 2) && forall k :: 0 <= k < |size| ==> IsDigit(size[k])
    ensures FirstMatching(prefix + size, i)
  {
    var s := prefix + size;
    MatchesAtSlice(s, prefix, 0, 0);
    assert s[0..|prefix|] == prefix && prefix[0..] == prefix;
    assert s[|prefix|] == size[0];
    assert |size| == 2 ==> s[|prefix| + 1] == size[1];
    assert s[2] == prefix[2];
    forall j | 0 <= j < i
      ensures !Matches(FontMap[j].pattern, s)
    {
      FontMapShape(j);
      var other := FontMap[j].pattern.prefix;
      if |other| <= |s| {
        MismatchAt(s, other, 2);
      }
    }
  }

  /** The TeX prefixes are upper-case letters, and their replacements are FONT_MAP values. */
  lemma TeXRule(i: int, prefix: string, replacement: string)
    requires 0 <= i < 4 && FontMap[i] == Rule(PrefixThenDigits(prefix), replacement)
    ensures forall k :: 0 <= k < |prefix| ==> IsUpper(prefix[k])
    ensures replacement in ReplacementNames
  {
  }

  /** Corrected: a bare TeX name with its point size is renamed by its rule. */
  lemma BareTeXNameCorrected(i: int, prefix: string, replacement: string, size: string)
    requires 0 <= i < 4 && FontMap[i] == Rule(PrefixThenDigits(prefix), replacement)
    requires (|size| == 1 || |size| == 2) && forall k :: 0 <= k < |size| ==> IsDigit(size[k])
    ensures DisambiguateIdentifierCorrected(prefix + size) == replacement
  {
    var s := prefix + size;
    assert FirstMatch(FontMap, s, 0) == i by {
      TeXNameMatches(i, prefix, replacement, size);
    }
    assert CompactName(s) == s && '-' !in s && ',' !in s by {
      TeXRule(i, prefix, replacement);
      assert forall k :: 0 <= k < |s| ==> IsUpper(s[k]) || IsDigit(s[k]) by {
        forall k | 0 <= k < |s|
          ensures IsUpper(s[k]) || IsDigit(s[k])
        {
          if k >= |prefix| {
            assert s[k] == size[k - |prefix|];
          }
        }
      }
      CompactUnchanged(s);
    }
    calc {
      DisambiguateIdentifierCorrected(s);
    ==
      Assemble(s);
    == { AssembleBare(s); NoFoundrySuffix(s); }
      Join(DisambiguateCapitalModifiers(ApplyFontMap(s)).0, DisambiguateCapitalModifiers(ApplyFontMap(s)).1);
    ==
      Join(DisambiguateCapitalModifiers(replacement).0, DisambiguateCapitalModifiers(replacement).1);
    == { TeXRule(i, prefix, replacement); ReplacementSpelling(replacement); CapitalLastLetterKeep(replacement); }
      replacement;
    }
  }

  /** The correction changes nothing for identifiers whose compact name does not end in a digit. */
  lemma CorrectedAgrees(pdfIdentifier: string)
    requires var compact := CompactName(pdfIdentifier); |compact| == 0 || !IsDigit(compact[|compact| - 1])
    ensures DisambiguateIdentifierCorrected(pdfIdentifier) == DisambiguateIdentifier(pdfIdentifier)
  {
    var compact := CompactName(pdfIdentifier);
    assert StripTrailingDigits(compact) == compact;
  }
}
