# Repository and trophy carousels, modelled in Dafny

This project models the computational core of two SVG generators of a
GitHub profile repository:

- `docs/r.svg/scripts/generate-repo-slide.mjs` draws a carousel of
  repository cards, two per page. Each card has these parts:
  - a title wrapped onto at most two lines;
  - a description fitted into a box by a downward font-size search
    (`wrapTextToBox`);
  - a language bar whose rectangles tile the bar exactly;
  - a legend of the first four languages.

  The repository list comes from a comma-separated environment value
  (`parseEnvRepos`) or from GitHub's `nameWithOwner` strings. All text is
  escaped with `xmlEsc`.
- `docs/t.svg/scripts/build-trophies.mjs` draws eight graded trophy cards
  in the same carousel.

Both carousels share one schedule. The items are cut into pages of two.
Every page gets one `animateTransform` spanning the whole cycle of
`N * PAGE_SEC` seconds:
- the page waits off to the right;
- it slides in during its window `[i/N, (i+1)/N]`;
- it holds for the fraction `HOLD_FRAC` of that window;
- it slides out to the left.

The modules follow the source:

- **Strings**: JavaScript whitespace, the word split `split(/\s+/).filter(Boolean)`, `trim`, `split` on one character, and `join`.
- **Options**: the `??` and `||` defaults.
- **XmlEscape**: `xmlEsc`.
- **TextFit**: `wrapTextToBox`.
- **Card**: `TITLE`, `DESC`, the title wrap and the description box.
- **LanguageBar**: the segments, the weights, the rectangles and the legends.
- **RepoList**: `parseEnvRepos` and the `nameWithOwner` split.
- **Carousel**: paging, timing, keyframes and section 19.2.9 of SVG 1.1.
- **RepoSlide**: `buildRepoSvg`.
- **Trophies**: `grade`, the trophy list and the trophy pages.

The loops of the source are methods with loop invariants, proved against
specification functions:
- the greedy word packer (`FillLines` against `Fill`);
- the font-size search (`WrapTextToBox` against `Search`);
- the title wrap;
- the bar layout (`LayShares`);
- the page chunking (`Paginate`);
- the slide loop (`BuildSlides`).

The expression chains are functions, and their properties are lemmas.
Times are exact reals.

## Model

| member | source | states |
|---|---|---|
| Strings.WordLen | docs/r.svg/scripts/generate-repo-slide.mjs:174 | the length of the leading run of non-whitespace: the run is space-free and is followed by whitespace or the end |
| Strings.Words | docs/r.svg/scripts/generate-repo-slide.mjs:174 | `split(/\s+/).filter(Boolean)` yields only non-empty, whitespace-free words |
| Strings.IsSpace | docs/r.svg/scripts/generate-repo-slide.mjs:174 | the `\s` class of ECMAScript (WhiteSpace and LineTerminator), the same set `trim()` removes; `WordLen`, `Words` and the trim lemmas are stated over it |
| Strings.Join | docs/r.svg/scripts/generate-repo-slide.mjs:191 | `ls.join(sep)`: no lines give `""`, one line itself, and otherwise the lines with `sep` between them; `WordsOfJoin` and `JoinSplit` state what a join keeps |
| Strings.Split | docs/r.svg/scripts/generate-repo-slide.mjs:81 | `split(d)` gives at least one piece; a string without `d` is its own only piece, and one with `d` has at least two |
| Strings.SplitPieces | docs/r.svg/scripts/generate-repo-slide.mjs:81 | no piece of `split(d)` holds `d` |
| Strings.TrimStart | docs/r.svg/scripts/generate-repo-slide.mjs:82 | `trimStart()`, dropping whitespace from the front; its meaning is stated by `TrimStartFacts` and `TrimStartSplit` |
| Strings.TrimEnd | docs/r.svg/scripts/generate-repo-slide.mjs:82 | `trimEnd()`, dropping whitespace from the back; its meaning is stated by `TrimEndFacts` and `TrimEndSplit` |
| Strings.Trim | docs/r.svg/scripts/generate-repo-slide.mjs:82 | `trim()` as `trimEnd(trimStart(s))`; `TrimEnds`, `TrimParts` and `WordsOfTrim` state what it removes and what it keeps |
| Strings.TrimStartFacts | docs/r.svg/scripts/generate-repo-slide.mjs:82 | `trimStart` removes exactly the leading whitespace: the result is a suffix, what was cut is all whitespace, and the result does not start with whitespace |
| Strings.TrimEndFacts | docs/r.svg/scripts/generate-repo-slide.mjs:82 | `trimEnd` removes exactly the trailing whitespace |
| Strings.TrimEnds | docs/r.svg/scripts/generate-repo-slide.mjs:82 | a trimmed string neither starts nor ends with whitespace |
| Strings.TrimParts | docs/r.svg/scripts/generate-repo-slide.mjs:82 | the input is whitespace, then the trimmed string, then whitespace |
| Strings.TrimStartSplit | docs/r.svg/scripts/generate-repo-slide.mjs:82 | the input is whitespace followed by its `trimStart()` |
| Strings.TrimEndSplit | docs/r.svg/scripts/generate-repo-slide.mjs:82 | the input is its `trimEnd()` followed by whitespace |
| Strings.WordsOfWord | docs/r.svg/scripts/generate-repo-slide.mjs:174 | a word splits into itself alone |
| Strings.WordLenIs | docs/r.svg/scripts/generate-repo-slide.mjs:174 | a space-free prefix followed by whitespace or the end is exactly the leading word |
| Strings.WordsAroundSpace | docs/r.svg/scripts/generate-repo-slide.mjs:174 | words never straddle a whitespace character: the split of `a + c + b` is the split of `a` followed by that of `b` |
| Strings.WordsOfSpaces | docs/r.svg/scripts/generate-repo-slide.mjs:174 | all-whitespace text has no words |
| Strings.WordsSpacesBefore | docs/r.svg/scripts/generate-repo-slide.mjs:174 | leading whitespace does not change the words |
| Strings.WordsSpacesAfter | docs/r.svg/scripts/generate-repo-slide.mjs:174 | trailing whitespace does not change the words |
| Strings.WordsOfTrim | docs/r.svg/scripts/generate-repo-slide.mjs:191 | `trim()` never changes the words of a string |
| Strings.WordsOfJoin | docs/r.svg/scripts/generate-repo-slide.mjs:191 | splitting `lines.join(" ")` gives the words of the lines, in order |
| Strings.FlatWordsAppend | docs/r.svg/scripts/generate-repo-slide.mjs:187 | pushing a line appends its words to the words of the lines |
| Strings.JoinSplit | docs/r.svg/scripts/generate-repo-slide.mjs:116-117 | splitting on `d` and joining with `d` gives back the string |
| Strings.SplitAround | docs/r.svg/scripts/generate-repo-slide.mjs:81 | the split of `a + d + b` is the split of `a` followed by that of `b` |
| Strings.SplitAroundStep | docs/r.svg/scripts/generate-repo-slide.mjs:81 | a character before `a + d + b` that is not `d` extends the first piece of the split of `a` |
| Strings.JoinPrefix | docs/r.svg/scripts/generate-repo-slide.mjs:86 | the leading pieces of a split, rejoined, are a prefix of the string |
| Options.StringOr | docs/r.svg/scripts/generate-repo-slide.mjs:145 | the default `x or d` of JavaScript on a string: `x` when it is a non-empty string and `d` otherwise |
| XmlEscape.ReplaceAll | docs/r.svg/scripts/generate-repo-slide.mjs:93 | `s.replace(/c/g, rep)` for one character `c`: every `c` replaced by `rep`, in one left-to-right pass; `ReplaceAllAppend` and `ReplaceAllAbsent` state its properties |
| XmlEscape.XmlEsc | docs/r.svg/scripts/generate-repo-slide.mjs:92-97 | `xmlEsc(s)` as written: five global replaces with `&` first; `XmlEscIsEscapeEach`, `NoMarkupLeft`, `AmpersandsStartEntities` and `UnescapeEscape` state what it produces |
| XmlEscape.EscapeChar | docs/r.svg/scripts/generate-repo-slide.mjs:92-97 | each of the five special characters maps to an XML 1.0 predefined entity; every other character maps to itself |
| XmlEscape.EscapeEach | docs/r.svg/scripts/generate-repo-slide.mjs:92-97 | the per-character escape leaves no `<`, `>`, `"` or `'` |
| XmlEscape.ReplaceAllAppend | docs/r.svg/scripts/generate-repo-slide.mjs:93 | a global replace of one character distributes over concatenation |
| XmlEscape.ReplaceAllAbsent | docs/r.svg/scripts/generate-repo-slide.mjs:93 | replacing a character that does not occur changes nothing |
| XmlEscape.XmlEscAppend | docs/r.svg/scripts/generate-repo-slide.mjs:92-97 | `xmlEsc` distributes over concatenation |
| XmlEscape.XmlEscChar | docs/r.svg/scripts/generate-repo-slide.mjs:92-97 | on a single character the chain of five replaces is the per-character escape, because `&` is replaced first |
| XmlEscape.Untouched | docs/r.svg/scripts/generate-repo-slide.mjs:94-97 | the four replaces after `&` leave an entity as it is |
| XmlEscape.XmlEscIsEscapeEach | docs/r.svg/scripts/generate-repo-slide.mjs:92-97 | the chain of five global replaces equals the per-character escape map |
| XmlEscape.NoMarkupLeft | docs/r.svg/scripts/generate-repo-slide.mjs:92-97 | the output contains no `<`, `>`, `"` or `'` |
| XmlEscape.AmpersandsStartEntities | docs/r.svg/scripts/generate-repo-slide.mjs:92-97 | every `&` of the output starts one of `&amp; &lt; &gt; &quot; &apos;` |
| XmlEscape.EscapedAmpersands | docs/r.svg/scripts/generate-repo-slide.mjs:92-97 | the same for the per-character map |
| XmlEscape.CharAmpersands | docs/r.svg/scripts/generate-repo-slide.mjs:92-97 | in the escape of one character, `&` occurs only where an entity starts |
| XmlEscape.AmpersandsAppend | docs/r.svg/scripts/generate-repo-slide.mjs:92-97 | entities on both sides of a concatenation stay entities in it |
| XmlEscape.PlainUnchanged | docs/r.svg/scripts/generate-repo-slide.mjs:92-97 | a string free of the five characters is returned unchanged |
| XmlEscape.Unescape | docs/r.svg/scripts/generate-repo-slide.mjs:92-97 | the reference inverse of `xmlEsc`, not in the source: decoding of the five predefined entities, any other `&` kept; `UnescapeEscape` relates the two |
| XmlEscape.UnescapeEscape | docs/r.svg/scripts/generate-repo-slide.mjs:92-97 | decoding the five entities recovers the input, so nothing is escaped twice |
| XmlEscape.UnescapeEach | docs/r.svg/scripts/generate-repo-slide.mjs:92-97 | decoding undoes the per-character escape |
| XmlEscape.UnescapeStep | docs/r.svg/scripts/generate-repo-slide.mjs:92-97 | decoding reads one escaped character back and continues after it |
| TextFit.Cand | docs/r.svg/scripts/generate-repo-slide.mjs:185 | the candidate line `cur ? cur + " " + w : w`; `WordsOfCand` states its words |
| TextFit.Fill | docs/r.svg/scripts/generate-repo-slide.mjs:184-188 | the greedy `for` loop as a recursive specification: append while the candidate fits, else push `cur` and start a new line, breaking once `maxLines` lines are pushed; `FillLines` implements it and `FillProgress` states its result |
| TextFit.Pack | docs/r.svg/scripts/generate-repo-slide.mjs:184-189 | the loop followed by `if (lines.length < maxLines && cur) lines.push(cur)`; `PackWrapped` states that it is a greedy wrap within the limits |
| TextFit.FillLines | docs/r.svg/scripts/generate-repo-slide.mjs:181-188 | the greedy `for` loop with its `break` computes the lines and the current line of the specification `Fill` |
| TextFit.WordsOfCand | docs/r.svg/scripts/generate-repo-slide.mjs:185 | the candidate `cur ? cur + " " + w : w` has the words of `cur` followed by `w` |
| TextFit.FillProgress | docs/r.svg/scripts/generate-repo-slide.mjs:184-188 | from any state with the loop invariant `Progress`, the loop ends in `FillOk`. The invariant: the words of the pushed lines and `cur` are, in order, the words consumed; only the first line can be empty; each line is within the budget or a single word. `FillOk`: on `break` every line is used and the words placed are a proper prefix |
| TextFit.FitStep | docs/r.svg/scripts/generate-repo-slide.mjs:185-186 | a word whose candidate fits joins `cur` and keeps the invariant |
| TextFit.PushStep | docs/r.svg/scripts/generate-repo-slide.mjs:187 | a word that does not fit pushes `cur`, which holds exactly the words before it; the lines stay well shaped; the invariant holds again unless every line is used |
| TextFit.ShapedSnoc | docs/r.svg/scripts/generate-repo-slide.mjs:187 | pushing a line within the budget or of one word, non-empty unless first, keeps the lines well shaped |
| TextFit.StopOk | docs/r.svg/scripts/generate-repo-slide.mjs:187 | on `break` with every line used, the words placed are a proper prefix of the input |
| TextFit.PackWrapped | docs/r.svg/scripts/generate-repo-slide.mjs:181-189 | at most `maxLines` lines; their words form an order-preserving prefix of the input, all of it unless every line is used; each line is within `charsPerLine` or one overlong word; only the first line may be `""`, and only when the first word is overlong |
| TextFit.FillOneLine | docs/r.svg/scripts/generate-repo-slide.mjs:246-250 | with a one-line limit the line pushed is within the budget |
| TextFit.LineBudget | docs/r.svg/scripts/generate-repo-slide.mjs:178 | `maxLines >= 1` |
| TextFit.LineBudgetBounds | docs/r.svg/scripts/generate-repo-slide.mjs:178 | `maxLines` lines fit in the box, unless it is the minimum 1, and one more line would not |
| TextFit.CharBudget | docs/r.svg/scripts/generate-repo-slide.mjs:179 | `charsPerLine >= 8` |
| TextFit.CharBudgetBounds | docs/r.svg/scripts/generate-repo-slide.mjs:179 | `charsPerLine` characters of width `font * avgChar` fit across the box, unless it is the minimum 8, and one more would not |
| TextFit.MinBudget | docs/r.svg/scripts/generate-repo-slide.mjs:178-179 | `Math.max(m, Math.floor(x / d))` whole widths `d` fit in `x` unless it is the minimum `m`, and one more would not |
| TextFit.FloorDiv | docs/r.svg/scripts/generate-repo-slide.mjs:178-179 | `Math.floor(x / d)` counts the whole multiples of `d` in `x` |
| TextFit.Attempt | docs/r.svg/scripts/generate-repo-slide.mjs:177-189 | the lines of one candidate size under its `maxLines` and `charsPerLine`; `AttemptInBox` states the box bounds |
| TextFit.AllPlaced | docs/r.svg/scripts/generate-repo-slide.mjs:191-192 | the acceptance test `placed >= words.length`; `AllPlacedIffComplete` states that it holds exactly when every word is placed |
| TextFit.PlacedCount | docs/r.svg/scripts/generate-repo-slide.mjs:191 | `placed` counts exactly the words of the lines |
| TextFit.AllPlacedIffComplete | docs/r.svg/scripts/generate-repo-slide.mjs:191-192 | the test `placed >= words.length` holds iff the words of the lines are all the input words |
| TextFit.Search | docs/r.svg/scripts/generate-repo-slide.mjs:176-207 | the downward search from `fontSize` to `minFontSize` and then the fallback, as a recursive specification; `SearchRange`, `SearchChoice`, `SearchHigherFail` and `SearchInBox` state its result |
| TextFit.WrapTextToBox | docs/r.svg/scripts/generate-repo-slide.mjs:168-208 | returns the result of the downward search `Search`; `lineHeight == font + linePad`; `minFont <= font <= max(fontSize, minFont)`; the lines respect the box (`InBox`), and each is within `charsPerLine` at the chosen size (under the loop's or the fallback's width factor) or is one overlong word |
| TextFit.SearchRange | docs/r.svg/scripts/generate-repo-slide.mjs:176-207 | the chosen size is in `[minFontSize, max(fontSize, minFontSize)]` and `lineHeight == font + linePad` |
| TextFit.SearchHigherFail | docs/r.svg/scripts/generate-repo-slide.mjs:176-193 | every size above the chosen one left words out, so the chosen size is the largest that fits |
| TextFit.SearchChoice | docs/r.svg/scripts/generate-repo-slide.mjs:176-207 | the in-loop return happens only with every word placed; otherwise the result is the wrap at `minFont` with the fallback width factor 0.58 |
| TextFit.SearchInBox | docs/r.svg/scripts/generate-repo-slide.mjs:176-207 | at most `maxLines` lines (inside the box when one line fits); their words are an order-preserving prefix of the input; words are missing only when every line is used ; each line within `charsPerLine` at the chosen size (under the loop's or the fallback's width factor) or one overlong word |
| TextFit.SearchNoWords | docs/r.svg/scripts/generate-repo-slide.mjs:174-192 | text without words returns zero lines at the starting size |
| TextFit.AttemptInBox | docs/r.svg/scripts/generate-repo-slide.mjs:177-189 | the same box bounds at any single size, and each line within that size's `charsPerLine` or one overlong word |
| TextFit.WrapAtSize | docs/r.svg/scripts/generate-repo-slide.mjs:177-206 | one candidate size: `lineHeight == font + linePad`; the lines are the greedy wrap under the two budgets; the acceptance test holds iff every word was placed |
| Card.CollapseSpaces | docs/r.svg/scripts/generate-repo-slide.mjs:165 | `replace(/\s+/g, " ")`: empty iff the input is; starts with whitespace iff the input does; every whitespace left is a single blank, never two in a row |
| Card.WordsCons | docs/r.svg/scripts/generate-repo-slide.mjs:165 | how a non-space first character joins the words of the rest |
| Card.WordsOfCollapse | docs/r.svg/scripts/generate-repo-slide.mjs:165 | collapsing whitespace keeps the words |
| Card.Desc | docs/r.svg/scripts/generate-repo-slide.mjs:165 | `DESC(s)`: whitespace runs collapsed to one space, trimmed, then escaped; `DescWords` states the result |
| Card.DescWords | docs/r.svg/scripts/generate-repo-slide.mjs:165 | `DESC(s)` decodes to the collapsed, trimmed text, has the words of `s` in order, and holds no markup character |
| Card.SkipSeps | docs/r.svg/scripts/generate-repo-slide.mjs:244 | drops exactly the leading run of `[\s-]` |
| Card.TitleFields | docs/r.svg/scripts/generate-repo-slide.mjs:244 | `split(/[\s-]+/)` without a filter: no piece holds a separator, and only the first and last pieces may be empty |
| Card.Ellipsize | docs/r.svg/scripts/generate-repo-slide.mjs:251 | at most 40 characters; a short line is unchanged; a long one becomes its first 39 characters followed by `…` |
| Card.TitleWrap | docs/r.svg/scripts/generate-repo-slide.mjs:239-254 | the title wrap as a specification: one line when at most 40 characters, otherwise the greedy wrap over the pieces with the last line cut to 39 characters and `…`; `TitleWrapBounds` and `TitleTruncation` state its result |
| Card.WrapTitle | docs/r.svg/scripts/generate-repo-slide.mjs:239-254 | computes `TitleWrap` of the escaped title; a title of at most 40 characters is one line equal to itself; otherwise at most 2 lines of at most 40 characters |
| Card.TitleWrapBounds | docs/r.svg/scripts/generate-repo-slide.mjs:241-253 | the same bounds, for the specification `TitleWrap` |
| Card.TitleTruncation | docs/r.svg/scripts/generate-repo-slide.mjs:243-251 | a long title is cut only if its pieces overflow the first line; then the second line is the piece that did not fit, ellipsized, and it is absent when that piece is empty |
| Card.FillStopsOnPiece | docs/r.svg/scripts/generate-repo-slide.mjs:249 | on `break` the current line is the piece that did not fit and all lines are used |
| Card.DescTop | docs/r.svg/scripts/generate-repo-slide.mjs:260 | `descTop`: 70 when the title takes more than one line, else 54 |
| Card.DescHeight | docs/r.svg/scripts/generate-repo-slide.mjs:262 | `Math.max(12, Math.floor(descBottom - descTop))`; `DescBoxBelowTitle` states where the box lies |
| Card.DescBoxBelowTitle | docs/r.svg/scripts/generate-repo-slide.mjs:256-262 | the description box starts below the last title baseline and ends at `descBottom` |
| Card.CardText | docs/r.svg/scripts/generate-repo-slide.mjs:239-263 | the title lines; `descTop`; the description fitted at 13 down to 9 with `lineHeight == font + 2` and its lines within the box above 130; the words shown are a prefix of the description's words |
| RepoList.TrimAll | docs/r.svg/scripts/generate-repo-slide.mjs:82 | one trimmed piece per piece |
| RepoList.TrimAllAt | docs/r.svg/scripts/generate-repo-slide.mjs:82 | piece `i` becomes `trim(piece i)` |
| RepoList.NonEmpty | docs/r.svg/scripts/generate-repo-slide.mjs:83 | `filter(Boolean)` keeps exactly the non-empty strings |
| RepoList.Items | docs/r.svg/scripts/generate-repo-slide.mjs:80-83 | the items of the list: split on `,`, each trimmed, empty ones dropped; `ParseConcat` and `ParseSingle` state how a list is read |
| RepoList.ParseItem | docs/r.svg/scripts/generate-repo-slide.mjs:85-89 | one item: with `/` the first two `/`-pieces as owner and name, else `GH_USER` and the item; `ParseItemBare` and `ParseItemSlashed` state the two cases |
| RepoList.ParseEnvRepos | docs/r.svg/scripts/generate-repo-slide.mjs:80-90 | one entry per non-empty trimmed comma-separated item, in order, each parsed by `ParseItem` |
| RepoList.ParseAll | docs/r.svg/scripts/generate-repo-slide.mjs:84-90 | the `map` over the items, pointwise |
| RepoList.TrimAllAppend | docs/r.svg/scripts/generate-repo-slide.mjs:82 | the trims of two lists concatenate |
| RepoList.NonEmptyAppend | docs/r.svg/scripts/generate-repo-slide.mjs:83 | the filters of two lists concatenate |
| RepoList.EntriesAppend | docs/r.svg/scripts/generate-repo-slide.mjs:82-83 | trimming and filtering of two lists concatenate |
| RepoList.ParseAllAppend | docs/r.svg/scripts/generate-repo-slide.mjs:84-90 | the item map of two lists concatenates |
| RepoList.ParseConcat | docs/r.svg/scripts/generate-repo-slide.mjs:80-90 | the list is read item by item: the entries of `a,b` are those of `a` followed by those of `b` |
| RepoList.ParseSingle | docs/r.svg/scripts/generate-repo-slide.mjs:80-90 | an item without a comma contributes its trimmed self, or nothing when blank |
| RepoList.ParseItemBare | docs/r.svg/scripts/generate-repo-slide.mjs:89 | an item without `/` gets `owner = GH_USER` |
| RepoList.ParseItemSlashed | docs/r.svg/scripts/generate-repo-slide.mjs:85-87 | an item with `/` takes the first two `/`-pieces as owner and name, dropping any later pieces |
| RepoList.SplitNameWithOwner | docs/r.svg/scripts/generate-repo-slide.mjs:116-117 | `const [owner, ...rest] = nameWithOwner.split("/")` with `name: rest.join("/")`; `NameWithOwnerRoundTrip` and `NameWithOwnerBare` state its result |
| RepoList.NameWithOwnerRoundTrip | docs/r.svg/scripts/generate-repo-slide.mjs:116-117 | with a `/`, owner has no `/` and `owner + "/" + rest.join("/")` reconstructs `nameWithOwner` |
| RepoList.NameWithOwnerBare | docs/r.svg/scripts/generate-repo-slide.mjs:116-117 | without a `/` the whole string is the owner and the name is empty |
| LanguageBar.SegmentOf | docs/r.svg/scripts/generate-repo-slide.mjs:143-145 | keeps the language name; the weight is 0 without a total and positive for a positive size under a positive total |
| LanguageBar.SegmentsOf | docs/r.svg/scripts/generate-repo-slide.mjs:143-145 | one segment per language edge, pointwise |
| LanguageBar.Positive | docs/r.svg/scripts/generate-repo-slide.mjs:146 | keeps only segments of positive weight, taken from the input, and every segment of positive weight; order and multiplicity are stated by `PositiveAppend` and `PositiveOne` |
| LanguageBar.PositiveOne | docs/r.svg/scripts/generate-repo-slide.mjs:146 | the filter keeps a single segment exactly when its weight is positive |
| LanguageBar.PositiveAppend | docs/r.svg/scripts/generate-repo-slide.mjs:146 | the filter of a concatenation is the concatenation of the filters, so it keeps order and multiplicity |
| LanguageBar.Fallback | docs/r.svg/scripts/generate-repo-slide.mjs:148 | the segment pushed when none has positive weight: the primary language's name and colour, or `Other` and `#6b7280`, with weight 1 |
| LanguageBar.Segments | docs/r.svg/scripts/generate-repo-slide.mjs:143-155 | between 1 and 8 segments, all of positive weight |
| LanguageBar.NoTotalFallback | docs/r.svg/scripts/generate-repo-slide.mjs:144-148 | without a total size only the primary-or-"Other" segment remains |
| LanguageBar.PositiveNone | docs/r.svg/scripts/generate-repo-slide.mjs:146 | the filter of non-positive weights is empty |
| LanguageBar.SegmentsFromLanguages | docs/r.svg/scripts/generate-repo-slide.mjs:146-155 | with some positive weight, the segments are the first eight positive ones and no fallback is added |
| LanguageBar.SegmentsNameLanguages | docs/r.svg/scripts/generate-repo-slide.mjs:143-148 | every segment is the fallback or comes from a language edge |
| LanguageBar.WeightsOf | docs/r.svg/scripts/generate-repo-slide.mjs:218-219 | the weights of the segments, pointwise |
| LanguageBar.DivAll | docs/r.svg/scripts/generate-repo-slide.mjs:219-222 | division of every weight by one total, pointwise |
| LanguageBar.AtLeast | docs/r.svg/scripts/generate-repo-slide.mjs:220-221 | `Math.max(w, minw)`: every value is at least `minw` and is its input or `minw`; the sum is positive for a non-empty bar |
| LanguageBar.NormWeights | docs/r.svg/scripts/generate-repo-slide.mjs:218-222 | one normalised share per segment |
| LanguageBar.SumDivAll | docs/r.svg/scripts/generate-repo-slide.mjs:222 | dividing by a total divides the sum |
| LanguageBar.NormWeightsShares | docs/r.svg/scripts/generate-repo-slide.mjs:218-222 | the normalised shares are positive and add up to 1 |
| LanguageBar.Normalise | docs/r.svg/scripts/generate-repo-slide.mjs:221-222 | positive values divided by their sum are positive and add up to 1 |
| LanguageBar.Round | docs/r.svg/scripts/generate-repo-slide.mjs:225 | `Math.round(x)` as `floor(x + 0.5)`; `RoundNear` states its distance from `x` |
| LanguageBar.RoundNear | docs/r.svg/scripts/generate-repo-slide.mjs:225 | `Math.round` is within a half of its argument |
| LanguageBar.ShareWidth | docs/r.svg/scripts/generate-repo-slide.mjs:225 | `Math.round(w * pw)`, the drawn width of one share |
| LanguageBar.Widths | docs/r.svg/scripts/generate-repo-slide.mjs:225 | `wpx = Math.round(w * pw)` of every share, pointwise |
| LanguageBar.LayBars | docs/r.svg/scripts/generate-repo-slide.mjs:216-230 | one rectangle per segment, in its colour, tiling the bar (`Tiles`) |
| LanguageBar.PrefixWidth | docs/r.svg/scripts/generate-repo-slide.mjs:226-227 | the running `acc`: the sum of the first `k` widths; `LayShares` and `BarsTile` state the placement over it |
| LanguageBar.LayShares | docs/r.svg/scripts/generate-repo-slide.mjs:224-230 | the `map` with running `acc`: each x is `px` plus the earlier widths; each rectangle ends where the next starts; the last ends exactly at `px + pw` whatever the rounding |
| LanguageBar.BarsTile | docs/r.svg/scripts/generate-repo-slide.mjs:224-230 | rectangles placed at `px + acc` with the last one stretched to `px + pw` keep their colours and tile the bar |
| LanguageBar.Legends | docs/r.svg/scripts/generate-repo-slide.mjs:232-236 | `min(4, segments)` entries; entry `i` at `px + (i % 2) * 190`, `py + 30 + floor(i / 2) * 12`, in the segment's colour, labelled with its escaped name |
| LanguageBar.LegendsFrom | docs/r.svg/scripts/generate-repo-slide.mjs:232-236 | the same from entry `i` on |
| LanguageBar.LegendsDistinct | docs/r.svg/scripts/generate-repo-slide.mjs:233-234 | no two legend entries share a position |
| Carousel.Paginate | docs/r.svg/scripts/generate-repo-slide.mjs:300-301 | `ceil(n / 2)` pages; page `j` is `items[2j .. 2j+2]`; each holds 1 or 2; only the last may hold 1 |
| Carousel.Flatten | docs/r.svg/scripts/generate-repo-slide.mjs:301 | the pages concatenated in order; `ChunksFlatten` and `ChunksPrefix` state what the paging keeps |
| Carousel.ChunksFlatten | docs/r.svg/scripts/generate-repo-slide.mjs:301 | pages cut as `items.slice(i, i + 2)` concatenate back to the items |
| Carousel.ChunksPrefix | docs/r.svg/scripts/generate-repo-slide.mjs:301 | the first `m` pages concatenated are the first `2m` items |
| Carousel.PageCount | docs/r.svg/scripts/generate-repo-slide.mjs:302 | `N = max(1, pages.length)` is at least 1 and equals the page count when there are pages |
| Carousel.TotalDur | docs/t.svg/scripts/build-trophies.mjs:134 | `totalDur = N * PAGE_SEC` |
| Carousel.EnterK | docs/t.svg/scripts/build-trophies.mjs:135 | `enterK = (1 - HOLD_FRAC) / 2`; `SymmetricMotion` states the motion it gives |
| Carousel.ExitK | docs/t.svg/scripts/build-trophies.mjs:136 | `exitK = 1 - (1 - HOLD_FRAC) / 2`; `SymmetricMotion` states the motion it gives |
| Carousel.T0 | docs/t.svg/scripts/build-trophies.mjs:141 | `t0 = (i * PAGE_SEC) / totalDur`; `Window` states that it is `i / N` |
| Carousel.T1 | docs/t.svg/scripts/build-trophies.mjs:142 | `t1 = ((i + 1) * PAGE_SEC) / totalDur`; `Window` states that it is `(i + 1) / N` |
| Carousel.Kin | docs/t.svg/scripts/build-trophies.mjs:143 | `kin = t0 + (enterK * PAGE_SEC) / totalDur`; `KeyTimesOrdered` and `SymmetricMotion` place it in the window |
| Carousel.Khold | docs/t.svg/scripts/build-trophies.mjs:144 | `khold = t0 + (exitK * PAGE_SEC) / totalDur`; `KeyTimesOrdered` and `SymmetricMotion` place it in the window |
| Carousel.Window | docs/t.svg/scripts/build-trophies.mjs:141-142 | `t0 == i/N` and `t1 == (i+1)/N` |
| Carousel.WindowsTile | docs/t.svg/scripts/build-trophies.mjs:141-142 | the first window starts at 0; `t1` of page `i` is `t0` of page `i+1`; the last ends at 1 |
| Carousel.WindowAt | docs/t.svg/scripts/build-trophies.mjs:140-142 | every moment `t` of the cycle lies in the window of page `floor(t * N)` |
| Carousel.FloorWindow | docs/t.svg/scripts/build-trophies.mjs:140-142 | `floor(t * N) / N <= t < (floor(t * N) + 1) / N` for `0 <= t < 1` |
| Carousel.WindowsDisjoint | docs/t.svg/scripts/build-trophies.mjs:140-142 | windows of different pages do not overlap |
| Carousel.OneWindowAtATime | docs/t.svg/scripts/build-trophies.mjs:140-142 | at each moment exactly one page is in its window |
| Carousel.SymmetricMotion | docs/t.svg/scripts/build-trophies.mjs:135-144 | `kin - t0 == t1 - khold == (1 - HOLD_FRAC) / (2N)` and `khold - kin == HOLD_FRAC / N` |
| Carousel.KeyTimesOrdered | docs/t.svg/scripts/build-trophies.mjs:135-147 | for `0 <= HOLD_FRAC <= 1`, `0 <= t0 <= kin <= khold <= t1 <= 1`; for `0 < HOLD_FRAC < 1`, `t0 < kin < khold < t1` |
| Carousel.Round4 | docs/t.svg/scripts/build-trophies.mjs:147 | `x.toFixed(4)` read back as a number: the nearest multiple of 1/10000, halves rounded up |
| Carousel.Round4Monotone | docs/t.svg/scripts/build-trophies.mjs:147 | rounding to four decimals (`toFixed(4)`) keeps the order and fixes 0 and 1 |
| Carousel.Keyframes | docs/t.svg/scripts/build-trophies.mjs:147-149 | the animation of page `i`: key times `0;t0;kin;khold;t1;1` rounded to four decimals, values `W;W;0;0;-W;-W`, five splines, duration `totalDur`; `KeyframesValid` states that it is a valid animation |
| Carousel.KeyframesValid | docs/t.svg/scripts/build-trophies.mjs:147-149 | every page's animation obeys section 19.2.9 of SVG 1.1 after rounding: 6 key times from 0 to 1, never decreasing; 6 values; 5 splines in the unit square; positive duration |
| Carousel.BuildSlides | docs/t.svg/scripts/build-trophies.mjs:139-163 | one slide per page, in order, with values `W;W;0;0;-W;-W`, splines LINEAR, EASE_IN, EASE_HOLD, EASE_OUT, LINEAR, and the rounded key times of page `i`; all valid when `0 <= HOLD_FRAC <= 1` |
| Carousel.BuildCarousel | docs/r.svg/scripts/generate-repo-slide.mjs:300-318 | `N` and `totalDur == N * PAGE_SEC`; the slides' pages are the chunks `items[2i .. 2i+2]`, 1 or 2 each, only the last short; each animation is that of its page, and valid |
| Carousel.PagesOf | docs/r.svg/scripts/generate-repo-slide.mjs:309 | the pages of the slides, pointwise |
| RepoSlide.RepoFractions | docs/r.svg/scripts/generate-repo-slide.mjs:305-306 | with `HOLD_FRAC = 0.55`, `enterK = 0.225` in (0, 1/2) and `exitK = 0.775` in (1/2, 1) |
| RepoSlide.RepoKeyTimes | docs/r.svg/scripts/generate-repo-slide.mjs:310-316 | every repository page has `0 <= t0 < kin < khold < t1 <= 1` |
| RepoSlide.BuildRepoSlides | docs/r.svg/scripts/generate-repo-slide.mjs:299-332 | `N = max(1, ceil(n / 2))`; `totalDur = N * PAGE_SEC`; no repositories give no slides; pages rebuild the list, 1 or 2 each, only the last short; every animation is valid with `W = 880` |
| Trophies.GradeOf | docs/t.svg/scripts/build-trophies.mjs:94 | `S` iff `v > 5000`, `A` iff `1000 < v <= 5000`, `B` otherwise |
| Trophies.Rank | docs/t.svg/scripts/build-trophies.mjs:94 | the order B < A < S |
| Trophies.GradeMonotone | docs/t.svg/scripts/build-trophies.mjs:94 | `grade` is monotone in `v` under B < A < S |
| Trophies.Letter | docs/t.svg/scripts/build-trophies.mjs:94 | the grade is shown as one letter |
| Trophies.TrophyList | docs/t.svg/scripts/build-trophies.mjs:97-106 | eight trophies, each carrying its statistic, in source order |
| Trophies.TrophyFractions | docs/t.svg/scripts/build-trophies.mjs:135-136 | with `HOLD_FRAC = 0.75`, `enterK = 0.125` in (0, 1/2) and `exitK = 0.875` in (1/2, 1) |
| Trophies.TrophyKeyTimes | docs/t.svg/scripts/build-trophies.mjs:141-147 | every trophy page has `0 <= t0 < kin < khold < t1 <= 1` |
| Trophies.BuildTrophySlides | docs/t.svg/scripts/build-trophies.mjs:108-163 | 4 pages of exactly 2 trophies in order; `N == 4`; `totalDur == 4 * PAGE_SEC`; every animation is page `i`'s keyframes with `W = 760`, valid |
| Trophies.BuildEightCarousel | docs/t.svg/scripts/build-trophies.mjs:109-134 | eight cards chunk into 4 pages of exactly 2 in order, over a cycle of 4 pages |
| Trophies.EightPages | docs/t.svg/scripts/build-trophies.mjs:109-110 | eight cards cut into pages of two are four full pages `cards[2i .. 2i+2]` |

## Left out

- Network and GitHub access are not modelled. This covers the GraphQL client `gql` with its retries, the fetch sequence at the top level, `fetchRepoDetails`, the paginated star sum, and the choice in `takeRepos` between pinned and top repositories. The language edges, totals and statistics are parameters instead.
- `docs/S.S.svg/scripts/generate-statik-server.mjs` is not part of this model. It is network plumbing, avatar encoding and file writing.
- The SVG and markup templates are not modelled: card markup, `glow`, icons, `<style>`, the `<svg>` document, and `keyTimes`/`values`/`keySplines` written as `;`-joined text. They are rendering. The model keeps the numbers and sequences those strings are made from.
- `toLocaleString` formatting of the numbers is not modelled, because it depends on the locale.
- Environment, command-line input and files are not modelled. `PAGE_SEC` and `GH_USER` are parameters; `PAGE_SEC` is required to be positive. At zero the source divides by zero, and a value that is not a number gives `NaN`. A negative value is excluded as well: the source then divides by a negative, non-zero `totalDur`, so its key times are unchanged but `dur` is negative. `fs.mkdir` and `writeFile` are left out.
- Floating point is modelled with exact reals in four places:
  - weights, shares and key times are exact reals, not binary doubles;
  - `Math.round` is `floor(x + 0.5)` on reals;
  - `toFixed(4)` is decimal rounding on exact reals (`Round4`), which keeps the properties the source needs;
  - the factor 0.58 is the exact rational, not its nearest double.
- `CharBudget` and `LineBudget` take the box size as a real, so a box size of `NaN` or infinity is outside the model.
- JavaScript string lengths count UTF-16 code units, but the model counts Unicode scalar values. The two differ for characters outside the Basic Multilingual Plane, which matters for the 40-character title limit and for `charsPerLine`.
- The `(s || "")` and `s = ""` defaults of `DESC` and `xmlEsc` turn `null` or `undefined` into `""`. The model's strings are never missing, so nothing stands for the default.
- GraphQL's optional fields are modelled as `Option` only where the source applies a default to them: colour and primary language. Missing `edges` and `totalSize` are modelled as an empty list and 0.
- `FitOptions` holds `fontSize`, `minFontSize` and `linePad` as integers, while `options.fontSize ?? 13` and the other defaults accept any number. The one call of `wrapTextToBox` passes 13, 9 and 2 (docs/r.svg/scripts/generate-repo-slide.mjs:263), so a fractional size or padding is outside the model.
- The fallback of `wrapTextToBox` uses the literal 0.58 instead of `avgChar`. The model keeps this quirk as `FallbackAvgChar` and does not correct it.
- The trophy `value`s are integers here. The source's `grade` compares JavaScript numbers, which may also be fractional or `NaN`.
