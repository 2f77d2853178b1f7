/**
 * The language bar of a repository card in generate-repo-slide.mjs: the
 * segments built from GitHub's language edges, their weights normalised
 * with a minimum share, the rectangles laid side by side so that together
 * they span the bar exactly, and the legend of the first four languages.
 */
module LanguageBar {
  import opened Strings
  import opened Options
  import opened XmlEscape

  /** One language edge of the GraphQL answer: its size in bytes, its name
      and its colour, which GitHub may leave out. */
  datatype LangEdge = LangEdge(size: int, name: string, color: Option<string>)

  datatype Segment = Segment(name: string, color: string, weight: real)

  const DefaultColor := "#374151"
  const OtherName := "Other"
  const OtherColor := "#6b7280"
  const MaxSegments := 8

  /** `{ name, color: color || "#374151", weight: total ? size / total : 0 }`. */
  function SegmentOf(e: LangEdge, total: int): (s: Segment)
    ensures s.name == e.name
    ensures total == 0 ==> s.weight == 0.0
    ensures total > 0 && e.size > 0 ==> s.weight > 0.0
  {
    var w := if total != 0 then e.size as real / total as real else 0.0;
    Segment(e.name, StringOr(e.color, DefaultColor), w)
  }

  function SegmentsOf(edges: seq<LangEdge>, total: int): (r: seq<Segment>)
    ensures |r| == |edges|
    ensures forall i :: 0 <= i < |r| ==> r[i] == SegmentOf(edges[i], total)
  {
    if edges == [] then [] else [SegmentOf(edges[0], total)] + SegmentsOf(edges[1..], total)
  }

  /** `.filter(s => s.weight > 0)`. */
  function Positive(segs: seq<Segment>): (r: seq<Segment>)
    ensures |r| <= |segs|
    ensures forall i :: 0 <= i < |r| ==> r[i].weight > 0.0 && r[i] in segs
    ensures forall s :: s in segs && s.weight > 0.0 ==> s in r
  {
    if segs == [] then []
    else (if segs[0].weight > 0.0 then [segs[0]] else []) + Positive(segs[1..])
  }

  /** The filter keeps one segment exactly when its weight is positive. */
  lemma PositiveOne(s: Segment)
    ensures Positive([s]) == if s.weight > 0.0 then [s] else []
  {
    assert [s][1..] == [];
  }

  /** The filter works segment by segment: it keeps the order and the
      multiplicity of the segments it keeps. */
  lemma {:induction false} PositiveAppend(a: seq<Segment>, b: seq<Segment>)
    ensures Positive(a + b) == Positive(a) + Positive(b)
  {
    if a == [] {
      assert a + b == b;
    } else {
      assert (a + b)[1..] == a[1..] + b;
      PositiveAppend(a[1..], b);
    }
  }

  /** The segment pushed when no language has a positive weight: the primary
      language, or "Other". */
  function Fallback(primaryName: Option<string>, primaryColor: Option<string>): Segment {
    Segment(StringOr(primaryName, OtherName), StringOr(primaryColor, OtherColor), 1.0)
  }

  /** The `segments` of one repository: the languages of positive weight, or
      the fallback when there are none, at most eight of them. */
  function Segments(edges: seq<LangEdge>, total: int, primaryName: Option<string>, primaryColor: Option<string>): (r: seq<Segment>)
    ensures 1 <= |r| <= MaxSegments
    ensures forall i :: 0 <= i < |r| ==> r[i].weight > 0.0
  {
    var kept := Positive(SegmentsOf(edges, total));
    var segs := if kept == [] then [Fallback(primaryName, primaryColor)] else kept;
    segs[..Min(MaxSegments, |segs|)]
  }

  /** Without a total size every weight is zero and only the fallback remains. */
  lemma NoTotalFallback(edges: seq<LangEdge>, primaryName: Option<string>, primaryColor: Option<string>)
    ensures Segments(edges, 0, primaryName, primaryColor) == [Fallback(primaryName, primaryColor)]
  {
    PositiveNone(SegmentsOf(edges, 0));
  }

  lemma {:induction false} PositiveNone(segs: seq<Segment>)
    requires forall i :: 0 <= i < |segs| ==> segs[i].weight <= 0.0
    ensures Positive(segs) == []
  {
    if segs != [] {
      PositiveNone(segs[1..]);
    }
  }

  /** When some language has positive size under a positive total, the
      segments are the first (up to eight) languages of positive weight, in
      order, and the fallback is not used. */
  lemma SegmentsFromLanguages(edges: seq<LangEdge>, total: int, primaryName: Option<string>, primaryColor: Option<string>, k: int)
    requires total > 0 && 0 <= k < |edges| && edges[k].size > 0
    ensures var kept := Positive(SegmentsOf(edges, total));
      Segments(edges, total, primaryName, primaryColor) == kept[..Min(MaxSegments, |kept|)]
  {
    var segs := SegmentsOf(edges, total);
    assert segs[k] in segs && segs[k].weight > 0.0;
  }

  /** Every segment of the bar names a language of the repository, unless it
      is the fallback. */
  lemma SegmentsNameLanguages(edges: seq<LangEdge>, total: int, primaryName: Option<string>, primaryColor: Option<string>)
    ensures var r := Segments(edges, total, primaryName, primaryColor);
      r == [Fallback(primaryName, primaryColor)]
      || forall i :: 0 <= i < |r| ==> exists j :: 0 <= j < |edges| && r[i] == SegmentOf(edges[j], total)
  {
    var segs := SegmentsOf(edges, total);
    var kept := Positive(segs);
    var r := Segments(edges, total, primaryName, primaryColor);
    if kept != [] {
      forall i | 0 <= i < |r|
        ensures exists j :: 0 <= j < |edges| && r[i] == SegmentOf(edges[j], total)
      {
        assert r[i] == kept[i];
        assert kept[i] in segs;
        var j :| 0 <= j < |segs| && segs[j] == kept[i];
        assert r[i] == SegmentOf(edges[j], total);
      }
    }
  }

  // ---------------------------------------------------------------------
  // Weights

  function Sum(xs: seq<real>): real {
    if xs == [] then 0.0 else xs[0] + Sum(xs[1..])
  }

  function WeightsOf(segs: seq<Segment>): (r: seq<real>)
    ensures |r| == |segs|
    ensures forall i :: 0 <= i < |r| ==> r[i] == segs[i].weight
  {
    if segs == [] then [] else [segs[0].weight] + WeightsOf(segs[1..])
  }

  function DivAll(xs: seq<real>, c: real): (r: seq<real>)
    requires c != 0.0
    ensures |r| == |xs|
    ensures forall i :: 0 <= i < |r| ==> r[i] == xs[i] / c
  {
    if xs == [] then [] else [xs[0] / c] + DivAll(xs[1..], c)
  }

  /** `hard = segs.map(s => Math.max(s.weight, minw))`. */
  function AtLeast(xs: seq<real>, minw: real): (r: seq<real>)
    requires minw > 0.0
    ensures |r| == |xs|
    ensures forall i :: 0 <= i < |r| ==> r[i] >= minw && (r[i] == xs[i] || r[i] == minw)
    ensures Sum(r) >= 0.0 && (xs != [] ==> Sum(r) > 0.0)
  {
    if xs == [] then [] else [if xs[0] >= minw then xs[0] else minw] + AtLeast(xs[1..], minw)
  }

  /** The smallest share a segment is drawn with, before renormalising. */
  const MinShare: real := 0.04

  /** `norm`: the weights divided by their total (or by 1 when that is 0),
      raised to at least `minw`, and divided by their new total. */
  function NormWeights(segs: seq<Segment>): (r: seq<real>)
    ensures |r| == |segs|
  {
    var ws := WeightsOf(segs);
    var totalWeight := if Sum(ws) == 0.0 then 1.0 else Sum(ws);
    var hard := AtLeast(DivAll(ws, totalWeight), MinShare);
    if hard == [] then [] else DivAll(hard, Sum(hard))
  }

  lemma {:induction false} SumDivAll(xs: seq<real>, c: real)
    requires c != 0.0
    ensures Sum(DivAll(xs, c)) == Sum(xs) / c
  {
    if xs != [] {
      SumDivAll(xs[1..], c);
      assert DivAll(xs, c)[1..] == DivAll(xs[1..], c);
    }
  }

  /** The normalised weights are positive and add up to one. */
  lemma NormWeightsShares(segs: seq<Segment>)
    requires segs != []
    ensures var r := NormWeights(segs);
      Sum(r) == 1.0 && forall i :: 0 <= i < |r| ==> r[i] > 0.0
  {
    var ws := WeightsOf(segs);
    var totalWeight := if Sum(ws) == 0.0 then 1.0 else Sum(ws);
    var hard := AtLeast(DivAll(ws, totalWeight), MinShare);
    assert |hard| == |segs|;
    Normalise(hard);
  }

  /** Dividing positive values by their total gives positive shares adding
      up to one. */
  lemma Normalise(hard: seq<real>)
    requires hard != [] && Sum(hard) > 0.0
    requires forall i :: 0 <= i < |hard| ==> hard[i] > 0.0
    ensures var r := DivAll(hard, Sum(hard));
      Sum(r) == 1.0 && forall i :: 0 <= i < |r| ==> r[i] > 0.0
  {
    var t := Sum(hard);
    var r := DivAll(hard, t);
    SumDivAll(hard, t);
    assert t / t == 1.0;
    forall i | 0 <= i < |r| ensures r[i] > 0.0 {
      DivPositive(hard[i], t);
    }
  }

  lemma DivPositive(a: real, b: real)
    requires a > 0.0 && b > 0.0
    ensures a / b > 0.0
  {
  }

  // ---------------------------------------------------------------------
  // Rectangles

  /** Left edge and width of the bar, `px = 20` and `pw = CW - 40`. */
  const Px := 20
  const Pw := 380

  /** `Math.round(x)`: the nearest integer, halves rounded up. */
  function Round(x: real): int {
    (x + 0.5).Floor
  }

  /** The rounded value is within one half of `x`. */
  lemma RoundNear(x: real)
    ensures x - 0.5 < Round(x) as real <= x + 0.5
  {
  }

  /** `Math.round(w * pw)`: the width a share is drawn with. */
  function ShareWidth(w: real): int {
    Round(w * Pw as real)
  }

  /** `wpx` of every share: its rounded width. */
  function Widths(norm: seq<real>): (r: seq<int>)
    ensures |r| == |norm|
    ensures forall i :: 0 <= i < |r| ==> r[i] == ShareWidth(norm[i])
  {
    if norm == [] then [] else [ShareWidth(norm[0])] + Widths(norm[1..])
  }

  /** The first `k` widths added up: where the `k`th rectangle starts,
      relative to `px`. */
  function PrefixWidth(widths: seq<int>, k: nat): int
    requires k <= |widths|
  {
    if k == 0 then 0 else PrefixWidth(widths, k - 1) + widths[k - 1]
  }

  datatype Bar = Bar(x: int, width: int, color: string)

  /** The rectangles of the bar: the rounded widths of `norm` laid out with
      `LayShares`, coloured as the segments. */
  method LayBars(segs: seq<Segment>) returns (bars: seq<Bar>)
    ensures |bars| == |segs|
    ensures forall i :: 0 <= i < |bars| ==> bars[i].color == segs[i].color
    ensures Tiles(bars, Widths(NormWeights(segs)))
  {
    bars := LayShares(Widths(NormWeights(segs)), segs);
  }

  /** The rectangles start at `px`, each where the previous one ended, the
      first `n - 1` as wide as their `widths`, and the last ends at
      `px + pw`. */
  ghost predicate Tiles(bars: seq<Bar>, widths: seq<int>)
    requires |bars| == |widths|
  {
    && (forall i :: 0 <= i < |bars| ==> bars[i].x == Px + PrefixWidth(widths, i))
    && (forall i :: 0 <= i < |bars| - 1 ==> bars[i].width == widths[i])
    && (|bars| > 0 ==> bars[0].x == Px)
    && (forall i :: 0 <= i < |bars| - 1 ==> bars[i].x + bars[i].width == bars[i + 1].x)
    && (|bars| > 0 ==> bars[|bars| - 1].x + bars[|bars| - 1].width == Px + Pw)
  }

  /** Rectangle `j` as the `bars` map draws it: at `px` plus the widths
      before it, as wide as its width, except the last, which reaches
      `px + pw`. */
  function BarAt(widths: seq<int>, segs: seq<Segment>, j: nat): Bar
    requires |widths| == |segs| && j < |widths|
  {
    var x := Px + PrefixWidth(widths, j);
    Bar(x, if j == |widths| - 1 then Px + Pw - x else widths[j], segs[j].color)
  }

  /** The `bars` map with its running offset `acc`: each rectangle starts
      where the previous one ended, and the last is stretched or shrunk to
      end at `px + pw`, whatever the other widths are. */
  method LayShares(widths: seq<int>, segs: seq<Segment>) returns (bars: seq<Bar>)
    requires |widths| == |segs|
    ensures |bars| == |segs|
    ensures forall i :: 0 <= i < |bars| ==> bars[i].color == segs[i].color
    ensures Tiles(bars, widths)
  {
    var acc := 0;
    bars := [];
    var i := 0;
    while i < |widths|
      invariant 0 <= i <= |widths| && |bars| == i
      invariant acc == PrefixWidth(widths, i)
      invariant forall j :: 0 <= j < i ==> bars[j] == BarAt(widths, segs, j)
    {
      var wpx := widths[i];
      var xseg := Px + acc;
      acc := acc + wpx;
      var width := if i == |widths| - 1 then Px + Pw - xseg else wpx;
      bars := bars + [Bar(xseg, width, segs[i].color)];
      i := i + 1;
    }
    BarsTile(bars, widths, segs);
  }

  /** The rectangles drawn by the `bars` map tile the bar. */
  lemma BarsTile(bars: seq<Bar>, widths: seq<int>, segs: seq<Segment>)
    requires |bars| == |widths| == |segs|
    requires forall j :: 0 <= j < |bars| ==> bars[j] == BarAt(widths, segs, j)
    ensures forall i :: 0 <= i < |bars| ==> bars[i].color == segs[i].color
    ensures Tiles(bars, widths)
  {
    forall j | 0 <= j < |bars| - 1
      ensures bars[j].x + bars[j].width == bars[j + 1].x
    {
      assert bars[j] == BarAt(widths, segs, j);
      assert bars[j + 1] == BarAt(widths, segs, j + 1);
    }
  }

  // ---------------------------------------------------------------------
  // Legends

  datatype Legend = Legend(x: int, y: int, color: string, text: string)

  /** Top of the bar, `py = 165`. */
  const Py := 165

  /** The legend entries of the first four segments, two per row: entry `i`
      at column `i % 2` (190 apart) and row `i / 2` (12 apart), 30 below the
      bar, labelled with the escaped name. */
  function Legends(segs: seq<Segment>): (r: seq<Legend>)
    ensures |r| == Min(4, |segs|)
    ensures forall i :: 0 <= i < |r| ==>
      && r[i].x == Px + (i % 2) * 190 && r[i].y == Py + 30 + (i / 2) * 12
      && r[i].color == segs[i].color && r[i].text == XmlEsc(segs[i].name)
  {
    LegendsFrom(segs, 0, Min(4, |segs|))
  }

  function LegendsFrom(segs: seq<Segment>, i: nat, n: nat): (r: seq<Legend>)
    requires i <= n <= |segs|
    ensures |r| == n - i
    ensures forall k :: 0 <= k < |r| ==>
      && r[k].x == Px + ((i + k) % 2) * 190 && r[k].y == Py + 30 + ((i + k) / 2) * 12
      && r[k].color == segs[i + k].color && r[k].text == XmlEsc(segs[i + k].name)
    decreases n - i
  {
    if i == n then []
    else [Legend(Px + (i % 2) * 190, Py + 30 + (i / 2) * 12, segs[i].color, XmlEsc(segs[i].name))] + LegendsFrom(segs, i + 1, n)
  }

  /** No two legend entries share a position. */
  lemma LegendsDistinct(segs: seq<Segment>)
    ensures var r := Legends(segs);
      forall i, j :: 0 <= i < j < |r| ==> (r[i].x, r[i].y) != (r[j].x, r[j].y)
  {
  }
}
