/**
 * The text of one repository card in generate-repo-slide.mjs: the escaped
 * title wrapped onto at most two lines of 40 characters, and the
 * description, with its whitespace collapsed, fitted into the box left
 * between the title and the badges.
 */
module Card {
  import opened Strings
  import opened Options
  import opened XmlEscape
  import opened TextFit

  // ---------------------------------------------------------------------
  // DESC

  /** `s.replace(/\s+/g, " ")`: every maximal run of whitespace becomes one
      blank. */
  function CollapseSpaces(s: string): (r: string)
    ensures r == [] <==> s == []
    ensures r != [] ==> (IsSpace(r[0]) <==> IsSpace(s[0]))
    ensures forall i :: 0 <= i < |r| && IsSpace(r[i]) ==> r[i] == ' '
    ensures forall i :: 0 <= i < |r| - 1 ==> !(IsSpace(r[i]) && IsSpace(r[i + 1]))
    decreases |s|
  {
    if s == [] then ""
    else if IsSpace(s[0]) then
      TrimStartFacts(s);
      " " + CollapseSpaces(TrimStart(s))
    else [s[0]] + CollapseSpaces(s[1..])
  }

  /** `DESC(s)`: the description with its whitespace collapsed and trimmed,
      then escaped. */
  function Desc(s: string): string {
    XmlEsc(Trim(CollapseSpaces(s)))
  }

  /** A word followed by more text: the first character joins the first
      word of the rest unless the rest starts with whitespace. */
  lemma WordsCons(c: char, x: string)
    requires !IsSpace(c)
    ensures x == [] || IsSpace(x[0]) ==> Words([c] + x) == [[c]] + Words(x)
    ensures x != [] && !IsSpace(x[0]) ==> Words([c] + x) == [[c] + Words(x)[0]] + Words(x)[1..]
  {
    var s := [c] + x;
    assert s[1..] == x;
    var n := WordLen(x);
    assert s[..1 + n] == [c] + x[..n];
    WordLenIs(s, 1 + n);
    assert s[1 + n..] == x[n..];
    if x != [] && !IsSpace(x[0]) {
      assert n > 0;
    } else {
      assert n == 0;
      assert [c] + x[..0] == [c];
    }
  }

  /** Collapsing whitespace never changes the words of a string. */
  lemma {:induction false} WordsOfCollapse(s: string)
    ensures Words(CollapseSpaces(s)) == Words(s)
    decreases |s|
  {
    if s != [] {
      if IsSpace(s[0]) {
        var t := TrimStart(s);
        TrimStartFacts(s);
        WordsOfCollapse(t);
        var r := " " + CollapseSpaces(t);
        assert r[1..] == CollapseSpaces(t);
        assert s == s[..|s| - |t|] + t;
        WordsSpacesBefore(s[..|s| - |t|], t);
      } else {
        var x := s[1..];
        WordsOfCollapse(x);
        assert s == [s[0]] + x;
        WordsCons(s[0], x);
        WordsCons(s[0], CollapseSpaces(x));
      }
    }
  }

  /** The description as escaped keeps the words of the original, in order,
      with no markup character and no whitespace at either end. */
  lemma DescWords(s: string)
    ensures Unescape(Desc(s)) == Trim(CollapseSpaces(s))
    ensures Words(Unescape(Desc(s))) == Words(s)
    ensures forall c :: c in Desc(s) ==> c != '<' && c != '>' && c != '"' && c != '\''
  {
    UnescapeEscape(Trim(CollapseSpaces(s)));
    WordsOfTrim(CollapseSpaces(s));
    WordsOfCollapse(s);
    NoMarkupLeft(Trim(CollapseSpaces(s)));
  }

  // ---------------------------------------------------------------------
  // Title (at most two lines)

  const MaxTitleChars := 40
  const MaxTitleLines := 2

  /** The separators of the title split, `/[\s-]+/`. */
  predicate IsSep(c: char) {
    IsSpace(c) || c == '-'
  }

  predicate NoSep(w: string) {
    forall j :: 0 <= j < |w| ==> !IsSep(w[j])
  }

  /** `s` without its leading separators. */
  function SkipSeps(s: string): (r: string)
    ensures |r| <= |s| && r == s[|s| - |r|..]
    ensures r == [] || !IsSep(r[0])
    ensures s != [] && IsSep(s[0]) ==> |r| < |s|
  {
    if s != [] && IsSep(s[0]) then SkipSeps(s[1..]) else s
  }

  /** `s.split(/[\s-]+/)`: the pieces between maximal runs of separators.
      Unlike the description's split nothing is filtered, so the first and
      the last piece are empty when `s` starts or ends with a separator;
      every other piece is a non-empty run of non-separators. */
  function TitleFields(s: string): (r: seq<string>)
    ensures |r| >= 1
    ensures forall i :: 0 <= i < |r| ==> NoSep(r[i])
    ensures forall i :: 0 < i < |r| - 1 ==> r[i] != ""
    ensures s != [] && !IsSep(s[0]) ==> r[0] != ""
    decreases |s|
  {
    if s == [] then [""]
    else if IsSep(s[0]) then [""] + TitleFields(SkipSeps(s))
    else
      var rest := TitleFields(s[1..]);
      assert NoSep([s[0]] + rest[0]) by {
        forall j | 0 <= j < |[s[0]] + rest[0]| ensures !IsSep(([s[0]] + rest[0])[j]) {
          if j > 0 { assert ([s[0]] + rest[0])[j] == rest[0][j - 1]; }
        }
      }
      [[s[0]] + rest[0]] + rest[1..]
  }

  /** `cur.length > 40 ? cur.slice(0, 39) + "…" : cur`. */
  function Ellipsize(c: string): (r: string)
    ensures |r| <= MaxTitleChars
    ensures |c| <= MaxTitleChars ==> r == c
    ensures |c| > MaxTitleChars ==> |r| == MaxTitleChars && r[..39] == c[..39] && r[39] == '…'
  {
    if |c| > MaxTitleChars then c[..MaxTitleChars - 1] + "…" else c
  }

  /** The title lines of an escaped title `t`: the whole title when it is
      short enough, otherwise the greedy wrap over its pieces, stopped as
      soon as one line has been pushed, with the line being built appended
      (shortened if need be) when it is not empty. */
  function TitleWrap(t: string): seq<string> {
    if |t| <= MaxTitleChars then [t]
    else
      var f := Fill(TitleFields(t), MaxTitleChars, MaxTitleLines - 1, [], "");
      if f.cur != "" && |f.lines| < MaxTitleLines then f.lines + [Ellipsize(f.cur)] else f.lines
  }

  /** The title wrap: a short title is one line, itself; a long one takes at
      most two lines of at most 40 characters. */
  method WrapTitle(name: string) returns (titleLines: seq<string>)
    ensures titleLines == TitleWrap(XmlEsc(name))
    ensures |XmlEsc(name)| <= MaxTitleChars ==> titleLines == [XmlEsc(name)]
    ensures |titleLines| <= MaxTitleLines
    ensures forall i :: 0 <= i < |titleLines| ==> |titleLines[i]| <= MaxTitleChars
  {
    var titleText := XmlEsc(name);
    TitleWrapBounds(titleText);
    if |titleText| > MaxTitleChars {
      var words := TitleFields(titleText);
      var cur;
      titleLines, cur := FillLines(words, MaxTitleChars, MaxTitleLines - 1);
      if cur != "" && |titleLines| < MaxTitleLines {
        titleLines := titleLines + [Ellipsize(cur)];
      }
    } else {
      titleLines := [titleText];
    }
  }

  /** Bounds of the title wrap. */
  lemma TitleWrapBounds(t: string)
    ensures |t| <= MaxTitleChars ==> TitleWrap(t) == [t]
    ensures |TitleWrap(t)| <= MaxTitleLines
    ensures forall i :: 0 <= i < |TitleWrap(t)| ==> |TitleWrap(t)[i]| <= MaxTitleChars
  {
    if |t| > MaxTitleChars {
      FillOneLine(TitleFields(t), MaxTitleChars, "");
    }
  }

  /** A long title is shortened with an ellipsis only when its pieces did not
      all fit on the first line: if they did, the title is that one line as
      built, and otherwise the second line is the piece that did not fit,
      shortened. (When that piece is the empty last piece of a title ending
      in a separator, there is no second line.) */
  lemma TitleTruncation(t: string)
    requires |t| > MaxTitleChars
    ensures var f := Fill(TitleFields(t), MaxTitleChars, 1, [], "");
      && (!f.stopped ==> TitleWrap(t) == (if f.cur == "" then [] else [f.cur]))
      && (f.stopped ==> |f.lines| == 1 && f.cur in TitleFields(t)
                        && TitleWrap(t) == f.lines + (if f.cur == "" then [] else [Ellipsize(f.cur)]))
  {
    var ws := TitleFields(t);
    FillOneLine(ws, MaxTitleChars, "");
    FillStopsOnPiece(ws, MaxTitleChars, 1, [], "");
  }

  /** When the greedy loop stops, its current line is the piece it could not
      place. */
  lemma {:induction false} FillStopsOnPiece(ws: seq<string>, cpl: int, maxLines: int, lines: seq<string>, cur: string)
    ensures var f := Fill(ws, cpl, maxLines, lines, cur);
      f.stopped ==> f.cur in ws && |f.lines| == maxLines
  {
    if ws != [] {
      var cand := Cand(cur, ws[0]);
      if |cand| <= cpl {
        FillStopsOnPiece(ws[1..], cpl, maxLines, lines, cand);
      } else if |lines| + 1 != maxLines {
        FillStopsOnPiece(ws[1..], cpl, maxLines, lines + [cur], ws[0]);
      }
    }
  }

  // ---------------------------------------------------------------------
  // Description box

  /** `descTop`: the description starts lower when the title takes two lines. */
  function DescTop(titleLineCount: nat): int {
    if titleLineCount > 1 then 70 else 54
  }

  const DescBottom := 130

  /** `Math.max(12, Math.floor(descBottom - descTop))`. */
  function DescHeight(titleLineCount: nat): int {
    Max(12, DescBottom - DescTop(titleLineCount))
  }

  /** The description box lies below the last title baseline (each title line
      is 20 units below the previous, the first at 30) with a line to spare,
      and ends at `descBottom`. */
  lemma DescBoxBelowTitle(titleLineCount: nat)
    requires titleLineCount <= MaxTitleLines
    ensures 30 + 20 * titleLineCount <= DescTop(titleLineCount)
    ensures DescTop(titleLineCount) + DescHeight(titleLineCount) == DescBottom
  {
  }

  /** The width of the card's text column, `pw = CW - 40`. */
  const TextWidth := 380

  /** The title lines and the fitted description of one card. */
  method CardText(name: string, desc: string) returns (titleLines: seq<string>, descTop: int, wrap: FitResult)
    ensures titleLines == TitleWrap(XmlEsc(name)) && |titleLines| <= MaxTitleLines
    ensures descTop == DescTop(|titleLines|) && 30 + 20 * |titleLines| <= descTop
    ensures wrap == Search(Words(Desc(desc)), TextWidth as real, DescHeight(|titleLines|) as real, 13, 9, 2, 0.58)
    ensures 9 <= wrap.font <= 13 && wrap.lineHeight == wrap.font + 2
    // every description line lies within the box above the badges
    ensures descTop + |wrap.lines| * wrap.lineHeight <= DescBottom
    ensures FlatWords(wrap.lines) <= Words(Desc(desc))
  {
    titleLines := WrapTitle(name);
    descTop := DescTop(|titleLines|);
    var descHeight := Max(12, DescBottom - descTop);
    DescBoxBelowTitle(|titleLines|);
    wrap := WrapTextToBox(Desc(desc), TextWidth as real, descHeight as real, FitOptions(Some(13), Some(9), Some(2), None));
  }
}
