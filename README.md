# eye-guide font alignment and font-name normalisation, in Dafny

eye-guide is a PDF reading aid. It overlays a bold font on the fonts a PDF uses, so it needs two pieces of logic:

- **Measuring how well a candidate font covers a reference font** (`align_fonts.py`).
  - `move_image` shifts a glyph bitmap. The vacated side is padded and the other side is cut off.
  - `optimize_offset` slides the overlay glyph over the reference glyph. It is a greedy eight-neighbour descent over a memoised cost: the reference ink the overlay leaves uncovered.
  - `align_font_instance` runs that descent for every character of a charset and averages the scores.
  - `align_font` searches for the scale ratio between the two fonts. It samples 25 scales in a bracket and narrows the bracket around the best sample until a score or width tolerance is met.
- **Normalising PDF font identifiers and escalating them to a bolder face** (`fonts.py`).
  - `_disambiguate_identifier` turns a name such as `ABCDEF+TimesNewRomanPS-BoldMT` into `TimesNewRoman-Bold`.
  - `_disambiguate_modifiers` and `_disambiguate_capital_modifiers` classify the style part of a name.
  - `_bolden` gives the next bolder face.
  - `_handle_helvetica` renames Helvetica's italics to the names reportlab uses.

The model is split into modules:

- `Results` (results.dfy): `Result` and `Option`.
- `Text` (text.dfy): the Python string operations used: `in`, `lower`, `endswith`, `removesuffix`, `replace`, `split(sep, maxsplit=1)`.
- `Bitmaps` (bitmaps.dfy): glyph bitmaps as rectangular `seq<seq<int>>`, `move_image`, and the remainder cost.
- `Argmin` (argmin.dfy): `np.argmin`, which returns the first minimal index.
- `OffsetSearch` (offset_search.dfy): the descent, as a recursive function and as the source's imperative loop with its memo map.
- `GlyphSet` (glyph_set.dfy): `align_font_instance`. The offsets dict is an insertion-ordered association list.
- `ScaleSearch` (scale_search.dfy): `align_font`, as a recursive function and as the source's `while` loop.
- `FontNames` (font_names.dfy): `_disambiguate_identifier`, `FONT_MAP`, `_disambiguate_modifiers`, `_disambiguate_capital_modifiers`.
- `Boldening` (boldening.dfy): `_bolden` and `_handle_helvetica`.

Notes on how the model represents the source:

- **Pixels.** They are raw integers 0..255. The source divides both bitmaps by 255 (align_fonts.py:74-75), so every model cost is the source's cost times 255².
- **Padding.** `move_image` is called at align_fonts.py:85 with its default `pad_color=255`, but on images already scaled to [0, 1]. A padded pixel therefore weighs 255 rather than 1. The model keeps this: its off-canvas pad is `255 * 255` in raw units (`OffsetSearch.OffCanvas`). The score still lies in [0, 1] (`OffsetSearch.ScoreInUnitInterval`), because the descent never ends above the unshifted cost at the origin, and that cost has no padding.
- **Rendering.**
  - A glyph pair (the two bitmaps and their x-anchors) is an input.
  - The charset's renderer is a function from characters to glyph pairs.
  - The per-scale evaluation of `align_font` is a function from scales to average remainders.

### Behaviour of the code that the model keeps

- **Boundary minimum.** `align_font` fails `assert 0 < min_i < len(results) - 1` (align_fonts.py:36) when the best sample is the first or the last. The model returns `Err(BoundsTooNarrow)`.
- **No further result fields.** The result of `align_font` holds the font stems and paths, `font_scale` and the fields of the winning `align_font_instance` result (align_fonts.py:44-50). It has no convergence flag and no y-offset statistic.
- **Pad value.** `move_image` pads with 255 (align_fonts.py:100) on images already divided by 255 (align_fonts.py:74-75); see above.
- **Replacements that carry a modifier.** FONT_MAP renames `CMTI` and `CMBX` to names that already contain "-Italic" or "-Bold" (fonts.py:17-18). The modifiers after the name's own '-' are still appended (fonts.py:143-144), so `CMTI10-Italic` becomes `ComputerModernSerif-Italic-Italic`. `_bolden` then fails its assertion (fonts.py:201). The caller catches only `FontIsExtraboldException` (fonts.py:52-55), so the model's `Err(UnexpectedModifiers)` stands for an `AssertionError` that escapes. The intended result is not evident from the code, so the model keeps this behaviour and proposes no correction.

## Model

| member | source | states |
|---|---|---|
| Bitmaps.MoveImage | align_fonts.py:100-109 | the moved image keeps the rectangular H×W shape |
| Bitmaps.MoveImageAt | align_fonts.py:100-109 | every pixel `(r, c)` of the moved image equals `img[r-dy][c-dx]` when that index is on the canvas and the pad value otherwise; nothing wraps around |
| Bitmaps.MoveColumnsAt | align_fonts.py:101-104 | the horizontal pad-and-slice puts `img[r][c-dx]` at `(r, c)`, or the pad when `c-dx` is off the canvas |
| Bitmaps.MoveRowsAt | align_fonts.py:105-108 | the vertical pad-and-slice puts `img[r-dy][c]` at `(r, c)`, or the pad when `r-dy` is off the canvas |
| Bitmaps.MoveImageUnshifted | align_fonts.py:100-109 | moving by (0, 0) returns the image unchanged, so the unshifted cost at line 77 is the cost of a move by the origin |
| Bitmaps.MoveImageBounds | align_fonts.py:100-109 | if the pixels and the pad lie in `[lo, hi]`, so do the moved image's pixels |
| Bitmaps.Cost | align_fonts.py:77 | the remainder `Σ overlay × (255 − reference)` is never negative for in-range pixels |
| Bitmaps.CostAtMost | align_fonts.py:77 | for pixels in 0..255 the unshifted remainder is at most 255²·H·W, that is a ratio of at most 1 |
| Bitmaps.CostOfBinarySelf | align_fonts.py:77 | a black-and-white glyph laid on itself leaves no remainder |
| Argmin.FirstArgMin | align_fonts.py:89 | `np.argmin` returns an index of a minimum, and no earlier index holds the same value |
| OffsetSearch.Area | align_fonts.py:94 | the pixel count H·W is positive and is the same for both bitmaps |
| OffsetSearch.Remainder | align_fonts.py:84-87 | definition: the cost of the overlay moved by an offset, padded with the off-canvas value 255². Its meaning is stated by OffsetSearch.RemainderAtOrigin and OffsetSearch.ScoreInUnitInterval |
| OffsetSearch.RemainderSurface | align_fonts.py:77-87 | definition: the remainder of every offset, the surface the memo samples. OffsetSearch.NeighborRemainders proves the memo agrees with it |
| OffsetSearch.NeighborCosts | align_fonts.py:81-88 | definition: the list `neighbor_remainders` should hold. OffsetSearch.NeighborRemainders proves the loop builds it and OffsetSearch.DescentStep uses it for the move |
| OffsetSearch.Descent | align_fonts.py:80-92 | definition: the greedy walk to the first cheapest neighbour while it is strictly cheaper. Its properties are OffsetSearch.DescentStep, OffsetSearch.DescentIsLocalMinimum and OffsetSearch.DescentNeverWorse |
| OffsetSearch.Report | align_fonts.py:94-96 | definition: score = remainder / (255²·H·W) and offset `((ox − x1 + x2)/size, oy/size)`, the score taken before the anchor correction |
| OffsetSearch.OptimalAlignment | align_fonts.py:72-97 | definition: the report of the descent's end point from (0, 0). OffsetSearch.OptimizeOffset computes it and OffsetSearch.ScoreInUnitInterval bounds it |
| OffsetSearch.DescentStep | align_fonts.py:89-92 | if the first minimal neighbour is at least the current cost, the search stops here; otherwise it continues from that neighbour |
| OffsetSearch.DescentIsLocalMinimum | align_fonts.py:89-91 | the final offset is a local minimum: none of its eight neighbours costs less |
| OffsetSearch.DescentNeverWorse | align_fonts.py:89-92 | the final cost is at most the cost at the starting offset |
| OffsetSearch.ZeroCostStops | align_fonts.py:89-91 | when the starting cost is 0 the search stops at once |
| OffsetSearch.RemainderAtOrigin | align_fonts.py:77 | the memo's starting entry equals the cost of the overlay moved by (0, 0) |
| OffsetSearch.ScoreInUnitInterval | align_fonts.py:74-94 | the reported score lies in [0, 1] despite the 255 padding |
| OffsetSearch.SelfAlignmentIsExact | align_fonts.py:77-94 | a black-and-white glyph aligned with itself stays at the origin with score 0 |
| OffsetSearch.NeighborRemainders | align_fonts.py:81-88 | the inner loop returns the neighbour costs of the surface in neighbour order; it adds every neighbour to the memo, keeps the old keys and keeps every entry equal to the true cost |
| OffsetSearch.OptimizeOffset | align_fonts.py:65-97 | the memoised `while` loop returns the descent's end point from (0, 0). The score is its remainder over H·W and the offset is `((ox − x1 + x2)/size, oy/size)` |
| GlyphSet.Keys | align_fonts.py:59-60 | definition: the dict's keys in insertion order. GlyphSet.PutKeys, GlyphSet.LookupKeys and GlyphSet.OffsetsContents state what they are |
| GlyphSet.Put | align_fonts.py:60 | definition: `d[key] = value` on an insertion-ordered dict. Its properties are GlyphSet.PutKeys and GlyphSet.PutLookup |
| GlyphSet.Lookup | align_fonts.py:60 | definition: `d.get(key)`. GlyphSet.LookupKeys and GlyphSet.PutLookup state its behaviour |
| GlyphSet.Offsets | align_fonts.py:58-60 | definition: the dict after assigning every character in charset order. Its contents are stated by GlyphSet.OffsetsContents and GlyphSet.OffsetsLookup |
| GlyphSet.Mean | align_fonts.py:61 | definition: `np.mean`, `None` for an empty list. GlyphSet.MeanBounds bounds it |
| GlyphSet.PutKeys | align_fonts.py:60 | assigning an existing key keeps the key order; assigning a new key appends it |
| GlyphSet.PutLookup | align_fonts.py:60 | after the assignment the key maps to the new value and every other key is unchanged |
| GlyphSet.LookupKeys | align_fonts.py:60 | a lookup succeeds exactly for the keys present |
| GlyphSet.DedupSound | align_fonts.py:59-60 | the dict's keys are distinct and are exactly the charset's characters |
| GlyphSet.DedupOfDistinct | align_fonts.py:59-60 | a charset without repeats keeps its characters and order |
| GlyphSet.OffsetsContents | align_fonts.py:58-60 | the offsets dict holds one entry per distinct charset character, in first-occurrence order, each holding a value computed for that character |
| GlyphSet.OffsetsLookup | align_fonts.py:58-60 | when equal characters get equal values, each character looks up its own value |
| GlyphSet.OffsetsOfDistinct | align_fonts.py:58-60 | for a charset without repeats the dict's keys are exactly the charset, in order |
| GlyphSet.SearchesLookup | align_fonts.py:58-60 | every charset character maps to the offset search of its own glyph pair |
| GlyphSet.OffsetsSnoc | align_fonts.py:59-60 | one loop iteration extends the dict of a charset prefix by the next character's assignment |
| GlyphSet.MeanBounds | align_fonts.py:61 | the mean of a non-empty list lies within the list's bounds |
| GlyphSet.AlignFontInstance | align_fonts.py:54-62 | the `for` loop builds the dict of per-character searches, and the average is the mean of the stored scores |
| GlyphSet.AverageInUnitInterval | align_fonts.py:61 | the average is undefined exactly for an empty charset and otherwise lies in [0, 1] |
| ScaleSearch.Linspace | align_fonts.py:32 | `np.linspace` returns `resolution` samples |
| ScaleSearch.LinspaceShape | align_fonts.py:32 | the samples start at `low`, end at `high`, are equally spaced and stay within the bracket |
| ScaleSearch.LinspaceIncreasing | align_fonts.py:32 | the samples strictly increase when `low < high` |
| ScaleSearch.LinspaceGap | align_fonts.py:37 | the neighbours of an interior sample are `2·(high − low)/(resolution − 1)` apart |
| ScaleSearch.Remainders | align_fonts.py:33-34 | definition: one average remainder per sample scale, in order. ScaleSearch.StepOutcome ties the first minimum of these remainders to the round's outcome, and ScaleSearch.DoneIsBestSample ties it to the scale and result returned |
| ScaleSearch.Step | align_fonts.py:32-43 | definition: one round of the loop. ScaleSearch.StepOutcome characterises its three outcomes |
| ScaleSearch.StepOutcome | align_fonts.py:32-50 | a round fails exactly when the argmin is the first or last sample. It returns exactly when the argmin is interior and either both neighbours are within `score_epsilon` of it or the neighbours are less than `scale_epsilon` apart; it then reports that sample's scale and remainder. Otherwise the new bracket is the argmin's two neighbours, lies inside the old bracket and is `2·spacing` wide, at least `scale_epsilon` |
| ScaleSearch.DoneIsBestSample | align_fonts.py:35-50 | a returned fit's remainder is no larger than at any sample of its round |
| ScaleSearch.NarrowedWidth | align_fonts.py:37 | the new bracket is the old width times `2/(resolution − 1)` and at least `scale_epsilon` |
| ScaleSearch.MeasureDecreases | align_fonts.py:31-43 | every narrowing round lowers the variant `2·width/scale_epsilon` by at least one, so the loop terminates |
| ScaleSearch.SearchWithin | align_fonts.py:30-50 | a returned font scale lies inside the starting bracket |
| ScaleSearch.FontScaleWithin | align_fonts.py:30-50 | the returned font scale lies in [0.5, 2.0] |
| ScaleSearch.RoundsAtMost | align_fonts.py:31-43 | if k narrowings by the factor would bring the width below `scale_epsilon`, the loop runs at most k rounds |
| ScaleSearch.DefaultRounds | align_fonts.py:28-43 | with resolution 25 and tolerance 0.01 from [0.5, 2.0], the loop runs at most three rounds, whatever the evaluation |
| ScaleSearch.IncreasingFails | align_fonts.py:35-36 | if the remainder strictly increases with the scale, the first round's argmin is index 0 and the search fails with "bounds too narrow" |
| ScaleSearch.Search | align_fonts.py:31-50 | definition: the rounds repeated until one fails or returns. ScaleSearch.SearchWithin, ScaleSearch.RoundsAtMost and ScaleSearch.AlignFont are about it |
| ScaleSearch.ResolutionThreeRepeats | align_fonts.py:37 | as written, with three samples a narrowing round returns the bracket it started from |
| ScaleSearch.ResolutionThreeStalls | align_fonts.py:32-43 | with three samples, the default tolerances and a remainder of (x − 1.25)², the round from [0.5, 2.0] narrows to [0.5, 2.0] again |
| ScaleSearch.AlignFont | align_fonts.py:28-50 | the `while` loop returns what the bracket search specifies |
| Text.SplitOnce | fonts.py:121-123 | splitting once at the first separator gives a part without the separator; the rest is absent exactly when there is no separator, and the parts reassemble the input |
| Text.RemoveSuffix | fonts.py:126-129 | `removesuffix` gives a prefix of the input, and it removes the suffix exactly when the input ends with it |
| Text.ReplaceCharByNothing | fonts.py:115 | deleting every space with `replace` equals the filter `Without`: the other characters are kept in order and no space remains |
| Text.Without | fonts.py:115 | the filtered text holds no occurrence of the character and is no longer than the input |
| Text.WithoutConcat | fonts.py:115 | filtering a concatenation filters each part |
| Text.WithoutAbsent | fonts.py:115 | text without the character is kept whole |
| Text.Replace | fonts.py:197 | definition: `str.replace`, every non-overlapping occurrence from the left. Text.ReplaceCharByNothing and Text.ReplaceFromAbsent state its behaviour |
| Text.ReplaceFromAbsent | fonts.py:197 | text without the pattern's first character is left as it is |
| Text.Lower | fonts.py:151 | definition: ASCII `lower()`. Text.LowerIdempotent and FontNames.ModifiersIgnoreCase are about it |
| Text.EndsWith | fonts.py:174 | definition: `endswith`. Text.EndsWithSlice states it as a slice |
| Text.EndsWithSlice | fonts.py:174 | a string ends with a suffix exactly when its last characters are the suffix |
| Text.Contains | fonts.py:154-162 | definition: substring `in`; Text.ContainsAt characterises it |
| Text.ContainsAt | fonts.py:154-162 | substring `in` holds exactly when the pattern occurs at some position |
| Text.LowerIdempotent | fonts.py:151 | lower-casing twice is lower-casing once |
| FontNames.StripSubsetPrefix | fonts.py:111-112 | the result is the input, or the part after a run of one or more capitals followed by '+', where something non-empty follows |
| FontNames.StripSubsetPrefixOf | fonts.py:111-112 | a subset tag such as `ABCDEF+` in front of a non-empty name is removed |
| FontNames.StripTrailingDigits | fonts.py:118 | the result is a prefix of the input that does not end in a digit, and only digits were removed |
| FontNames.StripTrailingDigitsOf | fonts.py:118 | a name not ending in a digit loses exactly the digits appended to it |
| FontNames.FirstMatch | fonts.py:132-135 | the rule found matches and no earlier rule does |
| FontNames.ApplyFontMap | fonts.py:132-135 | a name matched by a rule becomes the first matching rule's replacement; an unmatched name is unchanged |
| FontNames.FontMapTimes | fonts.py:132-135 | `Times` becomes `TimesNewRoman` |
| FontNames.FontMapTimesNewRoman | fonts.py:132-135 | `TimesNewRoman` is left unchanged, because matching is full-string |
| FontNames.FontMapTeX | fonts.py:16 | `CMR10` is mapped to `ComputerModernSerif` |
| FontNames.FontMapTeXItalic | fonts.py:15-17 | `CMTI10` matches neither of the first two rules and is mapped to `ComputerModernSerif-Italic` by the third |
| FontNames.UnmappedName | fonts.py:14-24 | a name that is none of the exact names and does not end in a digit is unchanged |
| FontNames.WeightPrecedence | fonts.py:152-161 | the weight is Light iff "light" occurs, Semibold iff "semibold" occurs without "light", Extrabold iff "extrabold" or "black" occurs without either, Bold iff only "bold"; otherwise empty |
| FontNames.ModifiersItalic | fonts.py:162-164 | the modifiers end in "Italic" exactly when the lower-cased text contains "ital", "oblique" or "slant" |
| FontNames.DisambiguateModifiers | fonts.py:150-164 | definition: weight and italic marker. FontNames.WeightPrecedence, FontNames.ModifiersItalic, FontNames.ModifiersVocabulary and FontNames.ModifiersIgnoreCase state its behaviour |
| FontNames.ModifiersIgnoreCase | fonts.py:151 | the classification ignores letter case |
| FontNames.ModifiersVocabulary | fonts.py:150-164 | the result is one of the weights "", Light, Semibold, Extrabold or Bold, optionally followed by Italic |
| FontNames.DisambiguateCapitalModifiers | fonts.py:167-182 | the modifiers are "", Bold, Italic or BoldItalic, and they are italic exactly when the input ends in "TI". The input is the returned name followed by an optional "T" and the matching capital suffix. FontNames.CapitalItalic, FontNames.CapitalBold, FontNames.CapitalBoldItalic, FontNames.CapitalRegular and FontNames.CapitalModifiersKeep together fix the result for every input |
| FontNames.CapitalModifiersPrefix | fonts.py:174-182 | the returned name is a prefix of the input |
| FontNames.CapitalModifiersKeep | fonts.py:174-182 | a name ending in none of "TI", "TB" and "T" has no capital modifiers and is kept |
| FontNames.CapitalLastLetterKeep | fonts.py:174-182 | in particular, a name whose last letter is none of T, I, B is kept with no modifiers |
| FontNames.CapitalItalic | fonts.py:174-181 | for any f not ending in "TB", `f + "TI"` gives Italic and f with one trailing 'T' removed, if it has one |
| FontNames.CapitalBold | fonts.py:174-181 | for any f, `f + "TB"` gives Bold and f with one trailing 'T' removed, if it has one |
| FontNames.CapitalBoldItalic | fonts.py:174-181 | for any f, `f + "TBTI"` gives BoldItalic and f with one trailing 'T' removed, if it has one |
| FontNames.CapitalDoubledT | fonts.py:174-181 | "XTTB" gives ("X", "Bold"): the 'T' in front of the stripped "TB" is removed too |
| FontNames.CapitalRegular | fonts.py:180-181 | a single trailing "T" is stripped with no modifiers |
| FontNames.NoFoundrySuffix | fonts.py:126-129 | a family ending in neither T nor S keeps its name |
| FontNames.CompactUnchanged | fonts.py:111-115 | a name without '+' or spaces passes the prefix and space steps unchanged |
| FontNames.CleanIdentifier | fonts.py:111-118 | a name without '+', spaces or a trailing digit passes the whole cleaning stage unchanged |
| FontNames.Assemble | fonts.py:121-147 | definition: the split, suffix, font-map and modifier steps. FontNames.AssembleSplit, FontNames.AssembleBare and FontNames.AssembledShape state its behaviour |
| FontNames.AssembleSplit | fonts.py:121-147 | a name split at a '-' (or at a ',' when it has no '-') becomes the mapped, suffix-stripped family joined with the classified modifiers |
| FontNames.AssembleBare | fonts.py:121-141 | a name with no splitter takes its modifiers from the capital-suffix rule, applied after the family map |
| FontNames.AssembledShape | fonts.py:137-147 | an assembled name has no spaces and never ends in '-' |
| FontNames.DisambiguateIdentifier | fonts.py:104-147 | definition: the cleaning steps followed by `Assemble`. FontNames.DisambiguatedShape, FontNames.CleanIdentifier and FontNames.DisambiguateTimesBold are about it |
| FontNames.DisambiguatedShape | fonts.py:104-147 | a disambiguated identifier has no spaces and never ends in '-' |
| FontNames.DisambiguateTimesBold | fonts.py:104-147 | `TimesNewRomanPS-BoldMT` becomes `TimesNewRoman-Bold` |
| FontNames.DisambiguateTeXItalic | fonts.py:104-147 | `CMTI10-Italic` becomes `ComputerModernSerif-Italic-Italic`: the replacement's own "-Italic" and the name's modifiers are both kept |
| FontNames.BareTeXNameAsWritten | fonts.py:118 | as written, `CMR10` becomes `CMR`, not `ComputerModernSerif` |
| FontNames.BareTeXItalicAsWritten | fonts.py:118 | as written, `CMTI10` becomes `CM-Italic` |
| FontNames.DisambiguateIdentifierCorrected | fonts.py:118 | definition: the identifier normalisation with line 118 applied only when no font-map rule matches the name with its digits. FontNames.BareTeXNameCorrected and FontNames.CorrectedAgrees are about it |
| FontNames.BareTeXNameCorrected | fonts.py:15-18 | with trailing digits removed only when no font-map rule matches, a bare TeX name with a one- or two-digit size becomes its rule's replacement |
| FontNames.CorrectedAgrees | fonts.py:104-147 | the corrected normalisation agrees with the original on every identifier whose cleaned form does not end in a digit |
| Boldening.Bolden | fonts.py:185-203 | a successful result keeps the family before the first '-' as a prefix |
| Boldening.BoldenSplit | fonts.py:189-203 | an identifier with a '-' is boldened through its modifiers alone |
| Boldening.BolderModifiers | fonts.py:192-202 | definition: the bolder modifiers or the error. The table lemmas below and Boldening.BoldenCanonical state its behaviour |
| Boldening.BolderLight | fonts.py:194-195 | Light becomes the regular face; LightItalic becomes Italic |
| Boldening.BolderSemibold | fonts.py:196-197 | Semibold becomes Bold |
| Boldening.BolderSemiboldItalic | fonts.py:196-197 | SemiboldItalic becomes BoldItalic |
| Boldening.BolderBold | fonts.py:198-199 | Bold becomes Extrabold |
| Boldening.BolderBoldItalic | fonts.py:198-199 | BoldItalic becomes ExtraboldItalic |
| Boldening.BolderItalic | fonts.py:200-202 | Italic becomes BoldItalic |
| Boldening.BolderExtrabold | fonts.py:192-193 | Extrabold and ExtraboldItalic raise the extrabold error |
| Boldening.BoldenStep | fonts.py:189-203 | boldening `family-modifiers` keeps the family and bolds the modifiers |
| Boldening.BoldenStuck | fonts.py:189-203 | a modifier error makes the whole identifier fail |
| Boldening.RegularEscalation | fonts.py:189-199 | `F` → `F-Bold` → `F-Extrabold` → extrabold error |
| Boldening.ItalicEscalation | fonts.py:192-202 | `F-Italic` → `F-BoldItalic` → `F-ExtraboldItalic` → extrabold error |
| Boldening.BoldenCanonical | fonts.py:185-203 | a name with modifiers produced by `_disambiguate_modifiers` can be boldened exactly when its weight is not extrabold, and never fails the assertion. This is stated for families without a '-'. A font-map replacement such as `ComputerModernSerif-Italic` used as a family does fail the assertion, as Boldening.BoldenTeXItalicFails shows |
| Boldening.BolderDoubledItalic | fonts.py:192-202 | the modifiers `Italic-Italic` contain no weight and are not `Italic`, so they fail `assert modifiers == "Italic"` |
| Boldening.BoldenTeXItalicFails | fonts.py:185-203 | boldening the normalised `CMTI10-Italic` fails the assertion |
| Boldening.HandleHelvetica | fonts.py:206-215 | the identifier changes exactly when it is `Helvetica-Italic` or `Helvetica-BoldItalic`; the first becomes `Helvetica-Oblique`, the second `Helvetica-BoldOblique` |
| Boldening.HandleHelveticaIdempotent | fonts.py:211-215 | applying the fix-up twice is applying it once |
| Boldening.BoldHelveticaItalic | fonts.py:185-215 | boldening `Helvetica-Italic` and fixing it up gives `Helvetica-BoldOblique` |

## Left out

- `char_to_image_array` (align_fonts.py:112-131) is left out because it draws with PIL. Glyph bitmaps and their x-anchors are inputs (`OffsetSearch.GlyphPair`), and the charset's renderer is a function parameter (`GlyphSet.Renderable` asks that its bitmaps be non-empty, of equal shape and with pixels in 0..255).
- Font loading with `ImageFont.truetype` (align_fonts.py:29, 33) is left out. `align_font`'s evaluation of a scale is the parameter `evaluate`, which maps a scale to its average remainder.
- The result dict of `align_font` (align_fonts.py:44-50) is modelled partly. `ScaleSearch.ScaleFit` carries the font scale and average remainder, but not the font stems, the paths or the per-character offsets of the winning scale.
- `run`, `write_json`, `write_report`, `draw_char_overlay` and `__main__` (align_fonts.py:16-25, 134-208) are left out: they are file, HTML and PNG output.
- `setup_boldened_font`, `_get_remapping` and `_init_remapped_fonts` (fonts.py:33-101) are left out: they use the file system, JSON, reportlab registration and global caches.
- IEEE floating point is not modelled. Scales, scores and means are exact `real`s, so `np.linspace` rounding and the float division in the score are not captured.
- `np.mean` of an empty list is NaN with a warning. `GlyphSet.Mean` returns `None` there.
- The regular expressions are hand-coded over ASCII. `\d` is `'0'..'9'` and `[A-Z]` is `'A'..'Z'`, so Unicode digits, `$` matching before a final newline, and `.` in `^[A-Z]+\+(.+)$` refusing a newline are not modelled. For example, the source keeps "AB+C\nD" unchanged, but `FontNames.StripSubsetPrefix` strips its prefix. `lower()` maps only ASCII letters.
- `ScaleSearch.AlignFont` requires `resolution >= 4` and `scale_epsilon > 0`, which the source does not check. The other cases behave as follows:
  - Resolution 0 makes `np.argmin([])` raise.
  - Resolutions 1 and 2 always fail the assertion at align_fonts.py:36 in the first round.
  - Resolution 3 makes a narrowing round return the bracket it started from, so the loop can repeat forever (see "## Findings").
  - With a non-positive `scale_epsilon` the bracket still shrinks, but the width test never fires, so only the score test can end the loop. The model's termination measure `2·width/scale_epsilon` needs a positive tolerance.
- `Boldening.Bolden` models the failing `assert modifiers == "Italic"` as `Err(UnexpectedModifiers)` and `FontIsExtraboldException` as `Err(FontIsExtrabold)`, instead of Python exceptions.
- The charset is an input of `GlyphSet.AlignFontInstance`. The default `DEFAULT_CHARS` constant is not modelled.

## Findings

| source | as written | input that shows it | evidently intended | confidence | as-written member | corrected member |
|---|---|---|---|---|---|---|
| fonts.py:118 versus fonts.py:15-18, 132-135 | trailing digits are removed before `FONT_MAP` is consulted, so the TeX rules `CMR(\d\|\d\d)` and the others can only match when a splitter follows the size | `CMR10` gives `CMR`; `CMTI10` gives `CM-Italic` | `CMR10` gives `ComputerModernSerif`, as the TeX rules state | medium, not executed | FontNames.BareTeXNameAsWritten, FontNames.BareTeXItalicAsWritten | FontNames.BareTeXNameCorrected |
| align_fonts.py:32-37 | nothing checks `resolution`; with 3 samples the argmin's neighbours are the first and last sample, so a round that does not stop returns the same bracket and the `while True` loop repeats it forever | resolution 3, the default tolerances and a remainder of (x − 1.25)² from [0.5, 2.0] | a resolution of at least 4, so that every narrowing shrinks the bracket and the loop ends | medium, not executed | ScaleSearch.ResolutionThreeStalls, ScaleSearch.ResolutionThreeRepeats | ScaleSearch.MeasureDecreases |

`FontNames.DisambiguateIdentifierCorrected` keeps the trailing digits whenever a font-map rule matches the cleaned name with them; otherwise it strips them as before. `FontNames.CorrectedAgrees` shows the change affects only names whose cleaned form ends in a digit. The rest of the model (`Boldening`) is stated over assembled names and does not depend on which version is used.

The scale search is modelled with the requirement `ScaleSearch.Terminating`: at least 4 samples and a positive width tolerance. Under it, `ScaleSearch.MeasureDecreases` proves that every narrowing round lowers `2·width/scale_epsilon` by at least one, and `ScaleSearch.AlignFont` is proved to terminate.
