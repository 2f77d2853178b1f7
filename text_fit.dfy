/**
 * `wrapTextToBox` of generate-repo-slide.mjs: a downward search over font
 * sizes for the first size at which the words of a text, packed greedily
 * into lines of an estimated character budget, all fit within the number of
 * lines the box allows; at the floor size it falls back to a truncated wrap.
 *
 * The greedy `for` loop over the words occurs three times in the source (the
 * search, the fallback and the title wrap of `card`) with the same body; it is
 * modelled once, as the specification function `Fill` and the method
 * `FillLines` that runs it as a loop.
 */
module TextFit {
  import opened Strings
  import opened Options

  /** The candidate line `cur ? cur + " " + w : w`. */
  function Cand(cur: string, w: string): string {
    if cur == "" then w else cur + " " + w
  }

  /** State of the greedy loop: the lines pushed so far, the line being
      built, and whether the loop left by `break` on reaching its limit. */
  datatype Filled = Filled(lines: seq<string>, cur: string, stopped: bool)

  /** The greedy loop run over `ws` from the state `lines`, `cur`: a word is
      appended to the current line while the candidate stays within `cpl`
      characters; otherwise the current line is pushed, the word starts the
      next one, and the loop stops once `maxLines` lines have been pushed. */
  function Fill(ws: seq<string>, cpl: int, maxLines: int, lines: seq<string>, cur: string): Filled
  {
    if ws == [] then Filled(lines, cur, false)
    else
      var cand := Cand(cur, ws[0]);
      if |cand| <= cpl then Fill(ws[1..], cpl, maxLines, lines, cand)
      else if |lines| + 1 == maxLines then Filled(lines + [cur], ws[0], true)
      else Fill(ws[1..], cpl, maxLines, lines + [cur], ws[0])
  }

  /** The loop followed by `if (lines.length < maxLines && cur) lines.push(cur)`. */
  function Pack(words: seq<string>, cpl: int, maxLines: int): seq<string> {
    var f := Fill(words, cpl, maxLines, [], "");
    if |f.lines| < maxLines && f.cur != "" then f.lines + [f.cur] else f.lines
  }

  /** The greedy `for` loop itself, with its `break`. */
  method FillLines(words: seq<string>, cpl: int, maxLines: int) returns (lines: seq<string>, cur: string)
    ensures var f := Fill(words, cpl, maxLines, [], ""); lines == f.lines && cur == f.cur
  {
    lines, cur := [], "";
    var i := 0;
    while i < |words|
      invariant 0 <= i <= |words|
      invariant Fill(words[i..], cpl, maxLines, lines, cur) == Fill(words, cpl, maxLines, [], "")
    {
      var w := words[i];
      assert words[i..][1..] == words[i + 1..];
      var cand := if cur != "" then cur + " " + w else w;
      if |cand| <= cpl {
        cur := cand;
      } else {
        lines := lines + [cur];
        cur := w;
        if |lines| == maxLines {
          break;
        }
      }
      i := i + 1;
    }
  }

  // ---------------------------------------------------------------------
  // What the greedy wrap guarantees

  /** The width rules of the wrapped lines: a line is within the budget or
      is one word on its own, and only the first line can be empty, which
      happens when the very first word is longer than the budget. */
  ghost predicate Shaped(lines: seq<string>, words: seq<string>, cpl: int) {
    && (forall j :: 0 <= j < |lines| ==> lines[j] == "" || |lines[j]| <= cpl || IsWord(lines[j]))
    && (forall j :: 0 < j < |lines| ==> lines[j] != "")
    && (|lines| > 0 && lines[0] == "" ==> |words| > 0 && |words[0]| > cpl)
  }

  /** A greedy wrap of `words`: at most `maxLines` lines whose words are, in
      order, a prefix of `words`, all of them unless every line is used. */
  ghost predicate Wrapped(lines: seq<string>, words: seq<string>, cpl: int, maxLines: int) {
    && |lines| <= maxLines
    && FlatWords(lines) <= words
    && (FlatWords(lines) != words ==> |lines| == maxLines)
    && Shaped(lines, words, cpl)
  }

  /** The loop has consumed `words[..k]` without stopping. */
  ghost predicate Progress(words: seq<string>, k: nat, cpl: int, maxLines: int, lines: seq<string>, cur: string) {
    && k <= |words|
    && |lines| < maxLines
    && FlatWords(lines) + Words(cur) == words[..k]
    && (cur == "" <==> k == 0)
    && (k == 0 ==> lines == [])
    && (cur == "" || |cur| <= cpl || IsWord(cur))
    && Shaped(lines, words, cpl)
  }

  lemma WordsOfCand(cur: string, w: string)
    requires IsWord(w)
    ensures Words(Cand(cur, w)) == Words(cur) + [w]
  {
    WordsOfWord(w);
    if cur != "" {
      assert cur + " " + w == cur + [' '] + w;
      WordsAroundSpace(cur, ' ', w);
    }
  }

  /** What the loop leaves: `Progress` over all the words when it ran to the
      end, or every line used, their words a proper prefix of `words`, when
      it stopped. */
  ghost predicate FillOk(words: seq<string>, cpl: int, maxLines: int, f: Filled) {
    && (!f.stopped ==> Progress(words, |words|, cpl, maxLines, f.lines, f.cur))
    && (f.stopped ==> |f.lines| == maxLines && Shaped(f.lines, words, cpl)
                      && |FlatWords(f.lines)| < |words| && FlatWords(f.lines) == words[..|FlatWords(f.lines)|])
  }

  /** The loop run from a state with `Progress` ends in `FillOk`. */
  lemma {:induction false} FillProgress(words: seq<string>, k: nat, cpl: int, maxLines: int, lines: seq<string>, cur: string)
    requires forall i :: 0 <= i < |words| ==> IsWord(words[i])
    requires Progress(words, k, cpl, maxLines, lines, cur)
    ensures FillOk(words, cpl, maxLines, Fill(words[k..], cpl, maxLines, lines, cur))
    decreases |words| - k
  {
    if k < |words| {
      var w := words[k];
      var ws := words[k..];
      assert ws[0] == w && ws[1..] == words[k + 1..];
      var cand := Cand(cur, w);
      if |cand| <= cpl {
        assert Fill(ws, cpl, maxLines, lines, cur) == Fill(words[k + 1..], cpl, maxLines, lines, cand);
        FitStep(words, k, cpl, maxLines, lines, cur);
        FillProgress(words, k + 1, cpl, maxLines, lines, cand);
      } else {
        PushStep(words, k, cpl, maxLines, lines, cur);
        if |lines| + 1 < maxLines {
          assert Fill(ws, cpl, maxLines, lines, cur) == Fill(words[k + 1..], cpl, maxLines, lines + [cur], w);
          FillProgress(words, k + 1, cpl, maxLines, lines + [cur], w);
        } else {
          assert Fill(ws, cpl, maxLines, lines, cur) == Filled(lines + [cur], w, true);
          StopOk(words, k, cpl, maxLines, lines + [cur], w);
        }
      }
    } else {
      assert words[k..] == [];
    }
  }

  /** Stopping with every line used and the words before `words[k]` placed. */
  lemma StopOk(words: seq<string>, k: nat, cpl: int, maxLines: int, lines: seq<string>, w: string)
    requires k < |words| && |lines| == maxLines
    requires Shaped(lines, words, cpl) && FlatWords(lines) == words[..k]
    ensures FillOk(words, cpl, maxLines, Filled(lines, w, true))
  {
    assert |words[..k]| == k;
  }

  /** A word that fits joins the current line. */
  lemma FitStep(words: seq<string>, k: nat, cpl: int, maxLines: int, lines: seq<string>, cur: string)
    requires forall i :: 0 <= i < |words| ==> IsWord(words[i])
    requires Progress(words, k, cpl, maxLines, lines, cur) && k < |words|
    requires |Cand(cur, words[k])| <= cpl
    ensures Progress(words, k + 1, cpl, maxLines, lines, Cand(cur, words[k]))
  {
    TakeSnoc(words, k);
    WordsOfCand(cur, words[k]);
  }

  /** A word that does not fit pushes the current line, which holds exactly
      the words before it, and starts the next one. */
  lemma PushStep(words: seq<string>, k: nat, cpl: int, maxLines: int, lines: seq<string>, cur: string)
    requires forall i :: 0 <= i < |words| ==> IsWord(words[i])
    requires Progress(words, k, cpl, maxLines, lines, cur) && k < |words|
    requires |Cand(cur, words[k])| > cpl
    ensures Shaped(lines + [cur], words, cpl) && FlatWords(lines + [cur]) == words[..k]
    ensures |lines| + 1 < maxLines ==> Progress(words, k + 1, cpl, maxLines, lines + [cur], words[k])
  {
    var w := words[k];
    FlatWordsAppend(lines, cur);
    WordsOfWord(w);
    TakeSnoc(words, k);
    assert |lines| > 0 ==> cur != "";
    assert lines == [] && cur == "" ==> |words| > 0 && |words[0]| > cpl by {
      if lines == [] && cur == "" {
        assert k == 0 && Cand(cur, w) == w;
      }
    }
    ShapedSnoc(lines, cur, words, cpl);
  }

  /** A line that is within the budget or one word, non-empty unless it is
      the first, keeps the lines `Shaped`. */
  lemma ShapedSnoc(lines: seq<string>, l: string, words: seq<string>, cpl: int)
    requires Shaped(lines, words, cpl)
    requires l == "" || |l| <= cpl || IsWord(l)
    requires |lines| > 0 ==> l != ""
    requires lines == [] && l == "" ==> |words| > 0 && |words[0]| > cpl
    ensures Shaped(lines + [l], words, cpl)
  {
    var ls := lines + [l];
    forall j | 0 <= j < |ls| ensures ls[j] == "" || |ls[j]| <= cpl || IsWord(ls[j]) {
      if j < |lines| {
        assert ls[j] == lines[j];
      }
    }
    forall j | 0 < j < |ls| ensures ls[j] != "" {
      if j < |lines| {
        assert ls[j] == lines[j];
      }
    }
  }

  /** The greedy wrap of a sequence of words is `Wrapped`. */
  lemma PackWrapped(words: seq<string>, cpl: int, maxLines: int)
    requires forall i :: 0 <= i < |words| ==> IsWord(words[i])
    requires maxLines >= 1
    ensures Wrapped(Pack(words, cpl, maxLines), words, cpl, maxLines)
  {
    assert words[..0] == [] && words[0..] == words;
    FillProgress(words, 0, cpl, maxLines, [], "");
    var f := Fill(words, cpl, maxLines, [], "");
    if !f.stopped {
      assert words[..|words|] == words;
      if f.cur != "" {
        FlatWordsAppend(f.lines, f.cur);
      }
    }
  }

  /** With a budget of one line, every pushed line is within `cpl`: the
      first overflow pushes a line built only from candidates that fitted.
      This is the title wrap, whose pieces may be empty. */
  lemma {:induction false} FillOneLine(ws: seq<string>, cpl: int, cur: string)
    requires |cur| <= cpl
    ensures var f := Fill(ws, cpl, 1, [], cur);
      && |f.lines| <= 1
      && (forall j :: 0 <= j < |f.lines| ==> |f.lines[j]| <= cpl)
      && (!f.stopped ==> f.lines == [] && |f.cur| <= cpl)
  {
    if ws != [] {
      var cand := Cand(cur, ws[0]);
      if |cand| <= cpl {
        FillOneLine(ws[1..], cpl, cand);
      }
    }
  }

  // ---------------------------------------------------------------------
  // The box

  /** `Math.max(1, Math.floor(boxHeightPx / lineHeight))`. */
  function LineBudget(boxHeight: real, lineHeight: int): (n: int)
    requires lineHeight > 0
    ensures n >= 1
  {
    Max(1, (boxHeight / lineHeight as real).Floor)
  }

  /** The line budget is how many lines of height `lineHeight` fit in the
      box, but at least one. */
  lemma LineBudgetBounds(boxHeight: real, lineHeight: int)
    requires lineHeight > 0
    ensures var n := LineBudget(boxHeight, lineHeight);
      && (n == 1 || (n * lineHeight) as real <= boxHeight)
      && boxHeight < ((n + 1) * lineHeight) as real
      && (lineHeight as real <= boxHeight ==> (n * lineHeight) as real <= boxHeight)
  {
    var h := lineHeight as real;
    FloorDiv(boxHeight, h);
    var n := LineBudget(boxHeight, lineHeight);
    var fl := (boxHeight / h).Floor;
    if fl < 1 {
      StrictScale(fl as real + 1.0, 2.0, h);
      assert 2.0 * h == (2 * lineHeight) as real;
    }
    assert (n * lineHeight) as real == n as real * h;
    assert ((n + 1) * lineHeight) as real == (n + 1) as real * h;
  }

  /** `Math.max(8, Math.floor(boxWidthPx / (font * avgChar)))`. */
  function CharBudget(boxWidth: real, font: int, avgChar: real): (n: int)
    requires font > 0 && avgChar > 0.0
    ensures n >= 8
  {
    Max(8, (boxWidth / (font as real * avgChar)).Floor)
  }

  /** The character budget is how many characters of estimated width
      `font * avgChar` fit across the box, but at least eight. */
  lemma CharBudgetBounds(boxWidth: real, font: int, avgChar: real)
    requires font > 0 && avgChar > 0.0
    ensures var n := CharBudget(boxWidth, font, avgChar);
      && (n == 8 || n as real * (font as real * avgChar) <= boxWidth)
      && boxWidth < (n + 1) as real * (font as real * avgChar)
  {
    MinBudget(boxWidth, font as real * avgChar, 8);
  }

  /** `Math.max(m, Math.floor(x / d))` is the number of whole `d` in `x`
      unless that is below `m`, and `x` is short of one more. */
  lemma MinBudget(x: real, d: real, m: int)
    requires d > 0.0
    ensures var n := Max(m, (x / d).Floor);
      && (n == m || n as real * d <= x)
      && x < (n + 1) as real * d
  {
    FloorDiv(x, d);
    var fl := (x / d).Floor;
    if fl < m {
      assert x < (fl + 1) as real * d;
      WeakScale((fl + 1) as real, (m + 1) as real, d);
    }
  }

  /** `Math.floor(x / d)` for a positive `d` counts the whole multiples of
      `d` in `x`. */
  lemma FloorDiv(x: real, d: real)
    requires d > 0.0
    ensures (x / d).Floor as real * d <= x < ((x / d).Floor + 1) as real * d
    ensures d <= x ==> (x / d).Floor >= 1
  {
    var q := x / d;
    assert q * d == x;
    assert q.Floor as real <= q < q.Floor as real + 1.0;
    WeakScale(q.Floor as real, q, d);
    StrictScale(q, (q.Floor + 1) as real, d);
    assert x < (q.Floor + 1) as real * d;
    if d <= x {
      assert 1.0 <= q by {
        if q < 1.0 {
          StrictScale(q, 1.0, d);
          assert false;
        }
      }
      assert 0.0 < q.Floor as real;
      assert q.Floor > 0;
    }
  }

  lemma WeakScale(a: real, b: real, c: real)
    requires a <= b && c > 0.0
    ensures a * c <= b * c
  {
  }

  lemma StrictScale(a: real, b: real, c: real)
    requires a < b && c > 0.0
    ensures a * c < b * c
  {
  }

  /** The lines of one candidate font size. */
  function Attempt(words: seq<string>, boxWidth: real, boxHeight: real, font: int, linePad: int, avgChar: real): seq<string>
    requires font > 0 && font + linePad > 0 && avgChar > 0.0
  {
    Pack(words, CharBudget(boxWidth, font, avgChar), LineBudget(boxHeight, font + linePad))
  }

  /** The acceptance test `lines.join(" ").trim().split(/\s+/).filter(Boolean).length >= words.length`. */
  predicate AllPlaced(words: seq<string>, lines: seq<string>) {
    |Words(Trim(Join(lines, " ")))| >= |words|
  }

  /** The acceptance test counts exactly the words of the lines. */
  lemma PlacedCount(lines: seq<string>)
    ensures |Words(Trim(Join(lines, " ")))| == |FlatWords(lines)|
  {
    WordsOfTrim(Join(lines, " "));
    WordsOfJoin(lines);
  }

  /** A candidate size is accepted exactly when its wrap holds every word. */
  lemma AllPlacedIffComplete(words: seq<string>, cpl: int, maxLines: int)
    requires forall i :: 0 <= i < |words| ==> IsWord(words[i])
    requires maxLines >= 1
    ensures AllPlaced(words, Pack(words, cpl, maxLines)) <==> FlatWords(Pack(words, cpl, maxLines)) == words
  {
    PackWrapped(words, cpl, maxLines);
    PlacedCount(Pack(words, cpl, maxLines));
  }

  // ---------------------------------------------------------------------
  // wrapTextToBox

  datatype FitOptions = FitOptions(fontSize: Option<int>, minFontSize: Option<int>, linePad: Option<int>, avgChar: Option<real>)

  datatype FitResult = FitResult(lines: seq<string>, font: int, lineHeight: int)

  function StartFont(o: FitOptions): int { GetOr(o.fontSize, 13) }

  function MinFont(o: FitOptions): int { GetOr(o.minFontSize, 9) }

  function LinePad(o: FitOptions): int { GetOr(o.linePad, 2) }

  function AvgChar(o: FitOptions): real { GetOr(o.avgChar, 0.58) }

  /** The character-width factor of the fallback, written there as the
      literal 0.58 rather than `avgChar`. */
  const FallbackAvgChar: real := 0.58

  /** The options under which every candidate size has a positive line
      height and a positive character width. */
  predicate SaneOptions(o: FitOptions) {
    MinFont(o) > 0 && MinFont(o) + LinePad(o) > 0 && AvgChar(o) > 0.0
  }

  /** The search of `wrapTextToBox` from size `font` down to `minFont`: the
      first size whose wrap places every word, and otherwise the wrap at
      `minFont` with the fallback width factor. The source's acceptance test,
      `AllPlaced`, holds exactly when every word is placed
      (`AllPlacedIffComplete`). */
  function Search(words: seq<string>, boxWidth: real, boxHeight: real, font: int, minFont: int, linePad: int, avgChar: real): FitResult
    requires minFont > 0 && minFont + linePad > 0 && avgChar > 0.0
    decreases font - minFont
  {
    if font < minFont then
      FitResult(Attempt(words, boxWidth, boxHeight, minFont, linePad, FallbackAvgChar), minFont, minFont + linePad)
    else
      var lines := Attempt(words, boxWidth, boxHeight, font, linePad, avgChar);
      if FlatWords(lines) == words then FitResult(lines, font, font + linePad)
      else Search(words, boxWidth, boxHeight, font - 1, minFont, linePad, avgChar)
  }

  /** `wrapTextToBox(text, boxWidthPx, boxHeightPx, options)`. */
  method WrapTextToBox(text: string, boxWidth: real, boxHeight: real, opts: FitOptions) returns (r: FitResult)
    requires SaneOptions(opts)
    ensures r == Search(Words(text), boxWidth, boxHeight, StartFont(opts), MinFont(opts), LinePad(opts), AvgChar(opts))
    ensures r.lineHeight == r.font + LinePad(opts)
    ensures MinFont(opts) <= r.font <= Max(StartFont(opts), MinFont(opts))
    ensures InBox(r.lines, Words(text), boxHeight, r.lineHeight)
    ensures || Shaped(r.lines, Words(text), CharBudget(boxWidth, r.font, AvgChar(opts)))
            || Shaped(r.lines, Words(text), CharBudget(boxWidth, r.font, FallbackAvgChar))
  {
    var font := StartFont(opts);
    var minFont := MinFont(opts);
    var linePad := LinePad(opts);
    var avgChar := AvgChar(opts);

    var words := Words(text);
    ghost var spec := Search(words, boxWidth, boxHeight, font, minFont, linePad, avgChar);
    SearchRange(words, boxWidth, boxHeight, font, minFont, linePad, avgChar);
    SearchInBox(words, boxWidth, boxHeight, font, minFont, linePad, avgChar);

    while font >= minFont
      invariant Search(words, boxWidth, boxHeight, font, minFont, linePad, avgChar) == spec
      decreases font - minFont
    {
      var lines, lineHeight := WrapAtSize(words, boxWidth, boxHeight, font, linePad, avgChar);
      var placed := |Words(Trim(Join(lines, " ")))|;
      if placed >= |words| {
        return FitResult(lines, font, lineHeight);
      }
      font := font - 1;
    }
    // fallback
    var lines, lineHeight := WrapAtSize(words, boxWidth, boxHeight, minFont, linePad, FallbackAvgChar);
    return FitResult(lines, minFont, lineHeight);
  }

  /** The returned size lies between the floor and the starting size, and
      the line height is the size plus the padding. */
  lemma {:induction false} SearchRange(words: seq<string>, boxWidth: real, boxHeight: real, font: int, minFont: int, linePad: int, avgChar: real)
    requires minFont > 0 && minFont + linePad > 0 && avgChar > 0.0
    ensures var r := Search(words, boxWidth, boxHeight, font, minFont, linePad, avgChar);
      r.lineHeight == r.font + linePad && minFont <= r.font <= Max(font, minFont)
    decreases font - minFont
  {
    if font >= minFont {
      SearchRange(words, boxWidth, boxHeight, font - 1, minFont, linePad, avgChar);
    }
  }

  /** Every size above the returned one, down from `font`, was tried and
      left words out. */
  lemma {:induction false} SearchHigherFail(words: seq<string>, boxWidth: real, boxHeight: real, font: int, minFont: int, linePad: int, avgChar: real)
    requires minFont > 0 && minFont + linePad > 0 && avgChar > 0.0
    ensures var r := Search(words, boxWidth, boxHeight, font, minFont, linePad, avgChar);
      forall f :: minFont <= r.font < f <= font ==> FlatWords(Attempt(words, boxWidth, boxHeight, f, linePad, avgChar)) != words
    decreases font - minFont
  {
    if font >= minFont {
      SearchRange(words, boxWidth, boxHeight, font - 1, minFont, linePad, avgChar);
      SearchHigherFail(words, boxWidth, boxHeight, font - 1, minFont, linePad, avgChar);
    }
  }

  /** The result is the first size that places every word, or, when none
      does, the fallback wrap at the floor size. */
  lemma {:induction false} SearchChoice(words: seq<string>, boxWidth: real, boxHeight: real, font: int, minFont: int, linePad: int, avgChar: real)
    requires minFont > 0 && minFont + linePad > 0 && avgChar > 0.0
    ensures var r := Search(words, boxWidth, boxHeight, font, minFont, linePad, avgChar);
      || (minFont <= r.font <= font && FlatWords(r.lines) == words
          && r.lines == Attempt(words, boxWidth, boxHeight, r.font, linePad, avgChar))
      || (r.font == minFont
          && (minFont <= font ==> FlatWords(Attempt(words, boxWidth, boxHeight, minFont, linePad, avgChar)) != words)
          && r.lines == Attempt(words, boxWidth, boxHeight, minFont, linePad, FallbackAvgChar))
    decreases font - minFont
  {
    if font >= minFont {
      var lines := Attempt(words, boxWidth, boxHeight, font, linePad, avgChar);
      if FlatWords(lines) != words {
        var r := Search(words, boxWidth, boxHeight, font - 1, minFont, linePad, avgChar);
        assert Search(words, boxWidth, boxHeight, font, minFont, linePad, avgChar) == r;
        SearchChoice(words, boxWidth, boxHeight, font - 1, minFont, linePad, avgChar);
        if r.font == minFont && r.lines == Attempt(words, boxWidth, boxHeight, minFont, linePad, FallbackAvgChar) {
          assert minFont <= font - 1 || font == minFont;
        }
      }
    }
  }

  /** Whatever size is chosen, its lines respect the box, and each of them
      fits the characters-per-line budget of that size (under the width
      factor of the loop, or of the fallback) or is one overlong word. */
  lemma SearchInBox(words: seq<string>, boxWidth: real, boxHeight: real, font: int, minFont: int, linePad: int, avgChar: real)
    requires forall i :: 0 <= i < |words| ==> IsWord(words[i])
    requires minFont > 0 && minFont + linePad > 0 && avgChar > 0.0
    ensures var r := Search(words, boxWidth, boxHeight, font, minFont, linePad, avgChar);
      && r.lineHeight > 0 && r.font >= minFont && InBox(r.lines, words, boxHeight, r.lineHeight)
      && (|| Shaped(r.lines, words, CharBudget(boxWidth, r.font, avgChar))
          || Shaped(r.lines, words, CharBudget(boxWidth, r.font, FallbackAvgChar)))
  {
    SearchRange(words, boxWidth, boxHeight, font, minFont, linePad, avgChar);
    SearchChoice(words, boxWidth, boxHeight, font, minFont, linePad, avgChar);
    var r := Search(words, boxWidth, boxHeight, font, minFont, linePad, avgChar);
    if r.lines == Attempt(words, boxWidth, boxHeight, r.font, linePad, avgChar) {
      AttemptInBox(words, boxWidth, boxHeight, r.font, linePad, avgChar);
    } else {
      AttemptInBox(words, boxWidth, boxHeight, minFont, linePad, FallbackAvgChar);
    }
  }

  /** Text without words is set in one step at the starting size, with no lines. */
  lemma SearchNoWords(boxWidth: real, boxHeight: real, font: int, minFont: int, linePad: int, avgChar: real)
    requires minFont > 0 && minFont + linePad > 0 && avgChar > 0.0
    requires minFont <= font
    ensures Search([], boxWidth, boxHeight, font, minFont, linePad, avgChar) == FitResult([], font, font + linePad)
  {
  }

  /** The wrap at any one size respects the box, and its lines keep to that
      size's characters-per-line budget except for single overlong words. */
  lemma AttemptInBox(words: seq<string>, boxWidth: real, boxHeight: real, font: int, linePad: int, avgChar: real)
    requires forall i :: 0 <= i < |words| ==> IsWord(words[i])
    requires font > 0 && font + linePad > 0 && avgChar > 0.0
    ensures InBox(Attempt(words, boxWidth, boxHeight, font, linePad, avgChar), words, boxHeight, font + linePad)
    ensures Shaped(Attempt(words, boxWidth, boxHeight, font, linePad, avgChar), words, CharBudget(boxWidth, font, avgChar))
  {
    var maxLines := LineBudget(boxHeight, font + linePad);
    var lines := Attempt(words, boxWidth, boxHeight, font, linePad, avgChar);
    PackWrapped(words, CharBudget(boxWidth, font, avgChar), maxLines);
    LineBudgetBounds(boxHeight, font + linePad);
    ScaleLines(|lines|, maxLines, font + linePad);
  }

  /** The lines respect the box: within the line budget (so inside the box
      whenever one line fits), their words a prefix of `words`, and words
      left out only when every line is used. */
  ghost predicate InBox(lines: seq<string>, words: seq<string>, boxHeight: real, lineHeight: int)
    requires lineHeight > 0
  {
    && |lines| <= LineBudget(boxHeight, lineHeight)
    && (lineHeight as real <= boxHeight ==> (|lines| * lineHeight) as real <= boxHeight)
    && FlatWords(lines) <= words
    && (FlatWords(lines) != words ==> |lines| == LineBudget(boxHeight, lineHeight))
  }

  /** One candidate size: the body of the `while` loop up to the acceptance
      test, and the fallback, which differs only in its width factor. */
  method WrapAtSize(words: seq<string>, boxWidth: real, boxHeight: real, font: int, linePad: int, avgChar: real)
    returns (lines: seq<string>, lineHeight: int)
    requires forall i :: 0 <= i < |words| ==> IsWord(words[i])
    requires font > 0 && font + linePad > 0 && avgChar > 0.0
    ensures lineHeight == font + linePad
    ensures lines == Attempt(words, boxWidth, boxHeight, font, linePad, avgChar)
    ensures AllPlaced(words, lines) <==> FlatWords(lines) == words
  {
    lineHeight := font + linePad;
    var maxLines := LineBudget(boxHeight, lineHeight);
    var charsPerLine := CharBudget(boxWidth, font, avgChar);

    var cur;
    lines, cur := FillLines(words, charsPerLine, maxLines);
    if |lines| < maxLines && cur != "" {
      lines := lines + [cur];
    }
    AllPlacedIffComplete(words, charsPerLine, maxLines);
  }

  lemma ScaleLines(k: int, n: int, h: int)
    requires 0 <= k <= n && h > 0
    ensures k * h <= n * h
  {
  }
}
