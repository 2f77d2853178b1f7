/**
 * The global-cycle carousel shared by the repository slide and the trophy
 * slide: items are cut into pages of two, and every page gets one
 * `animateTransform` over the whole cycle that keeps it off to the right
 * before its window, slides it in, holds it centred, slides it out to the
 * left and keeps it there until the cycle repeats. Times are exact reals.
 */
module Carousel {
  import opened Strings

  const PerPage := 2

  // ---------------------------------------------------------------------
  // Paging

  /** The pages, concatenated. */
  function Flatten<T>(pages: seq<seq<T>>): seq<T> {
    if pages == [] then [] else Flatten(pages[..|pages| - 1]) + pages[|pages| - 1]
  }

  /** `for (let i = 0; i < items.length; i += 2) pages.push(items.slice(i, i + 2))`. */
  method Paginate<T>(items: seq<T>) returns (pages: seq<seq<T>>)
    ensures |pages| == (|items| + 1) / PerPage
    ensures forall j :: 0 <= j < |pages| ==> pages[j] == items[PerPage * j..Min(|items|, PerPage * j + PerPage)]
    ensures forall j :: 0 <= j < |pages| ==> 1 <= |pages[j]| <= PerPage
    ensures forall j :: 0 <= j < |pages| - 1 ==> |pages[j]| == PerPage
  {
    pages := [];
    var i := 0;
    while i < |items|
      invariant i == PerPage * |pages| && (i <= |items| || i == |items| + 1)
      invariant i <= |items| ==> |pages| == i / PerPage
      invariant i > |items| ==> |pages| == (|items| + 1) / PerPage
      invariant forall j :: 0 <= j < |pages| ==> pages[j] == items[PerPage * j..Min(|items|, PerPage * j + PerPage)]
    {
      var page := items[i..Min(|items|, i + PerPage)];
      pages := pages + [page];
      i := i + PerPage;
    }
  }

  /** Pages cut that way give the items back when concatenated. */
  lemma ChunksFlatten<T>(pages: seq<seq<T>>, items: seq<T>)
    requires |pages| == (|items| + 1) / PerPage
    requires forall j :: 0 <= j < |pages| ==> pages[j] == items[PerPage * j..Min(|items|, PerPage * j + PerPage)]
    ensures Flatten(pages) == items
  {
    ChunksPrefix(pages, items, |pages|);
    assert pages[..|pages|] == pages;
    assert items[..|items|] == items;
  }

  /** The first `m` pages concatenated are the first `2m` items. */
  lemma {:induction false} ChunksPrefix<T>(pages: seq<seq<T>>, items: seq<T>, m: nat)
    requires |pages| == (|items| + 1) / PerPage && m <= |pages|
    requires forall j :: 0 <= j < |pages| ==> pages[j] == items[PerPage * j..Min(|items|, PerPage * j + PerPage)]
    ensures Flatten(pages[..m]) == items[..Min(|items|, PerPage * m)]
  {
    if m > 0 {
      ChunksPrefix(pages, items, m - 1);
      var p := pages[..m];
      assert p[..m - 1] == pages[..m - 1];
      assert p[m - 1] == pages[m - 1];
      var a, b := PerPage * (m - 1), Min(|items|, PerPage * m);
      assert items[..b] == items[..a] + items[a..b];
    }
  }

  // ---------------------------------------------------------------------
  // Timing

  /** `N = Math.max(1, pages.length)`. */
  function PageCount(pages: nat): (n: nat)
    ensures n >= 1 && (pages > 0 ==> n == pages)
  {
    Max(1, pages)
  }

  /** `totalDur = N * PAGE_SEC`. */
  function TotalDur(n: nat, pageSec: real): real {
    n as real * pageSec
  }

  /** `enterK = (1 - HOLD_FRAC) / 2`: the fraction of its window a page
      spends sliding in. */
  function EnterK(hold: real): real {
    (1.0 - hold) / 2.0
  }

  /** `exitK = 1 - (1 - HOLD_FRAC) / 2`: the fraction of its window after
      which the page slides out. */
  function ExitK(hold: real): real {
    1.0 - (1.0 - hold) / 2.0
  }

  /** `t0 = (i * PAGE_SEC) / totalDur`. */
  function T0(i: nat, n: nat, pageSec: real): real
    requires n >= 1 && pageSec > 0.0
  {
    (i as real * pageSec) / TotalDur(n, pageSec)
  }

  /** `t1 = ((i + 1) * PAGE_SEC) / totalDur`. */
  function T1(i: nat, n: nat, pageSec: real): real
    requires n >= 1 && pageSec > 0.0
  {
    ((i + 1) as real * pageSec) / TotalDur(n, pageSec)
  }

  /** `kin = t0 + (enterK * PAGE_SEC) / totalDur`. */
  function Kin(i: nat, n: nat, pageSec: real, hold: real): real
    requires n >= 1 && pageSec > 0.0
  {
    T0(i, n, pageSec) + (EnterK(hold) * pageSec) / TotalDur(n, pageSec)
  }

  /** `khold = t0 + (exitK * PAGE_SEC) / totalDur`. */
  function Khold(i: nat, n: nat, pageSec: real, hold: real): real
    requires n >= 1 && pageSec > 0.0
  {
    T0(i, n, pageSec) + (ExitK(hold) * pageSec) / TotalDur(n, pageSec)
  }

  /** The page length cancels: `(a * p) / (n * p) == a / n`. */
  lemma Cancel(a: real, n: real, p: real)
    requires n > 0.0 && p > 0.0
    ensures (a * p) / (n * p) == a / n
  {
    assert (a / n) * (n * p) == a * p;
  }

  /** Page `i`'s window of the cycle is `[i/N, (i+1)/N]`. */
  lemma Window(i: nat, n: nat, pageSec: real)
    requires n >= 1 && pageSec > 0.0
    ensures T0(i, n, pageSec) == i as real / n as real
    ensures T1(i, n, pageSec) == (i + 1) as real / n as real
  {
    Cancel(i as real, n as real, pageSec);
    Cancel((i + 1) as real, n as real, pageSec);
  }

  /** The windows follow one another without gap or overlap and cover the
      cycle: the first starts at 0, each ends where the next starts, and the
      last ends at 1. */
  lemma WindowsTile(i: nat, n: nat, pageSec: real)
    requires n >= 1 && pageSec > 0.0
    ensures T0(0, n, pageSec) == 0.0
    ensures T1(i, n, pageSec) == T0(i + 1, n, pageSec)
    ensures T1(n - 1, n, pageSec) == 1.0
  {
    Window(0, n, pageSec);
    Window(i, n, pageSec);
    Window(i + 1, n, pageSec);
    Window(n - 1, n, pageSec);
  }

  /** At every moment of the cycle the page `floor(t * N)` is in its window. */
  lemma WindowAt(t: real, n: nat, pageSec: real)
    requires n >= 1 && pageSec > 0.0 && 0.0 <= t < 1.0
    ensures var i := (t * n as real).Floor;
      0 <= i < n && T0(i, n, pageSec) <= t < T1(i, n, pageSec)
  {
    var i := (t * n as real).Floor;
    FloorWindow(t, n as real);
    assert i < n by {
      assert i as real < n as real;
    }
    Window(i, n, pageSec);
  }

  /** `floor(t * m) / m <= t < (floor(t * m) + 1) / m` for `0 <= t < 1`. */
  lemma FloorWindow(t: real, m: real)
    requires m > 0.0 && 0.0 <= t < 1.0
    ensures var i := (t * m).Floor;
      0 <= i && i as real < m && i as real / m <= t < (i + 1) as real / m
  {
    var x := t * m;
    var i := x.Floor;
    ScaleBounds(t, m);
    MulDiv(t, m);
    DivMono(i as real, x, m);
    DivStrict(x, (i + 1) as real, m);
  }

  lemma ScaleBounds(t: real, m: real)
    requires m > 0.0 && 0.0 <= t < 1.0
    ensures 0.0 <= t * m < m
  {
    StrictScaleR(t, 1.0, m);
  }

  lemma MulDiv(t: real, m: real)
    requires m > 0.0
    ensures (t * m) / m == t
  {
  }

  lemma StrictScaleR(a: real, b: real, c: real)
    requires a < b && c > 0.0
    ensures a * c < b * c
  {
  }

  /** Windows of different pages do not overlap. */
  lemma WindowsDisjoint(i: nat, j: nat, n: nat, pageSec: real)
    requires n >= 1 && pageSec > 0.0 && i < j
    ensures T1(i, n, pageSec) <= T0(j, n, pageSec)
  {
    Window(i, n, pageSec);
    Window(j, n, pageSec);
    DivMono((i + 1) as real, j as real, n as real);
  }

  /** So at every moment of the cycle exactly one page is in its window. */
  lemma OneWindowAtATime(t: real, n: nat, pageSec: real, j: nat)
    requires n >= 1 && pageSec > 0.0 && 0.0 <= t < 1.0
    requires j < n && T0(j, n, pageSec) <= t < T1(j, n, pageSec)
    ensures j == (t * n as real).Floor
  {
    var i := (t * n as real).Floor;
    WindowAt(t, n, pageSec);
    if j < i {
      WindowsDisjoint(j, i, n, pageSec);
    } else if i < j {
      WindowsDisjoint(i, j, n, pageSec);
    }
  }

  lemma DivMono(a: real, b: real, c: real)
    requires a <= b && c > 0.0
    ensures a / c <= b / c
  {
  }

  lemma DivStrict(a: real, b: real, c: real)
    requires a < b && c > 0.0
    ensures a / c < b / c
  {
  }

  /** Sliding in and sliding out take the same time, `(1 - HOLD_FRAC) / (2N)`
      of the cycle each, and the page rests centred for `HOLD_FRAC / N`. */
  lemma SymmetricMotion(i: nat, n: nat, pageSec: real, hold: real)
    requires n >= 1 && pageSec > 0.0
    ensures Kin(i, n, pageSec, hold) - T0(i, n, pageSec) == (1.0 - hold) / (2.0 * n as real)
    ensures T1(i, n, pageSec) - Khold(i, n, pageSec, hold) == (1.0 - hold) / (2.0 * n as real)
    ensures Khold(i, n, pageSec, hold) - Kin(i, n, pageSec, hold) == hold / n as real
  {
    var nr := n as real;
    Window(i, n, pageSec);
    Cancel(EnterK(hold), nr, pageSec);
    Cancel(ExitK(hold), nr, pageSec);
    assert EnterK(hold) / nr == (1.0 - hold) / (2.0 * nr);
    assert (i + 1) as real / nr - i as real / nr == 1.0 / nr;
    assert 1.0 / nr - ExitK(hold) / nr == (1.0 - hold) / (2.0 * nr);
    assert ExitK(hold) / nr - EnterK(hold) / nr == hold / nr;
  }

  /** With a hold fraction strictly between 0 and 1, each page's key times
      are strictly increasing inside its window, and the window lies in the
      cycle. */
  lemma KeyTimesOrdered(i: nat, n: nat, pageSec: real, hold: real)
    requires i < n && pageSec > 0.0
    ensures 0.0 <= hold <= 1.0 ==>
      0.0 <= T0(i, n, pageSec) <= Kin(i, n, pageSec, hold) <= Khold(i, n, pageSec, hold) <= T1(i, n, pageSec) <= 1.0
    ensures 0.0 < hold < 1.0 ==>
      T0(i, n, pageSec) < Kin(i, n, pageSec, hold) < Khold(i, n, pageSec, hold) < T1(i, n, pageSec)
  {
    var nr := n as real;
    SymmetricMotion(i, n, pageSec, hold);
    Window(i, n, pageSec);
    DivMono(0.0, i as real, nr);
    DivMono((i + 1) as real, nr, nr);
    if 0.0 <= hold {
      DivMono(0.0, hold, nr);
    }
    if hold <= 1.0 {
      DivMono(0.0, 1.0 - hold, 2.0 * nr);
    }
    if 0.0 < hold {
      DivStrict(0.0, hold, nr);
    }
    if hold < 1.0 {
      DivStrict(0.0, 1.0 - hold, 2.0 * nr);
    }
  }

  // ---------------------------------------------------------------------
  // Rounding of the key times

  /** `x.toFixed(4)` read back as a number: the nearest multiple of 1/10000,
      halves rounded up. */
  function Round4(x: real): real {
    (x * 10000.0 + 0.5).Floor as real / 10000.0
  }

  lemma FloorMono(a: real, b: real)
    requires a <= b
    ensures a.Floor <= b.Floor
  {
  }

  /** Rounding to four decimals keeps the order and fixes 0 and 1. */
  lemma Round4Monotone(x: real, y: real)
    requires x <= y
    ensures Round4(x) <= Round4(y)
    ensures Round4(0.0) == 0.0 && Round4(1.0) == 1.0
  {
    FloorMono(x * 10000.0 + 0.5, y * 10000.0 + 0.5);
    assert (0.0 * 10000.0 + 0.5).Floor == 0;
    assert (1.0 * 10000.0 + 0.5).Floor == 10000;
  }

  // ---------------------------------------------------------------------
  // The animation of one page

  /** A cubic Bézier timing function `x1 y1 x2 y2`. */
  datatype Spline = Spline(x1: real, y1: real, x2: real, y2: real)

  const Linear := Spline(0.0, 0.0, 1.0, 1.0)
  const EaseIn := Spline(0.25, 0.1, 0.25, 1.0)
  const EaseHold := Spline(0.25, 0.1, 0.25, 1.0)
  const EaseOut := Spline(0.42, 0.0, 0.58, 1.0)

  /** The attributes of an `animateTransform` with `calcMode="spline"`. */
  datatype Animation = Animation(keyTimes: seq<real>, values: seq<int>, keySplines: seq<Spline>, dur: real)

  predicate UnitSpline(s: Spline) {
    0.0 <= s.x1 <= 1.0 && 0.0 <= s.y1 <= 1.0 && 0.0 <= s.x2 <= 1.0 && 0.0 <= s.y2 <= 1.0
  }

  /** The rules of section 19.2.9 of SVG 1.1 for a spline animation: as many
      key times as values, key times from 0 to 1 that never decrease, one
      spline fewer than key times, control points in the unit square, and a
      positive duration. */
  predicate ValidSplineAnimation(a: Animation) {
    && |a.keyTimes| >= 2
    && |a.keyTimes| == |a.values|
    && |a.keySplines| == |a.keyTimes| - 1
    && a.keyTimes[0] == 0.0 && a.keyTimes[|a.keyTimes| - 1] == 1.0
    && (forall k :: 0 <= k < |a.keyTimes| ==> 0.0 <= a.keyTimes[k] <= 1.0)
    && (forall k :: 0 < k < |a.keyTimes| ==> a.keyTimes[k - 1] <= a.keyTimes[k])
    && (forall k :: 0 <= k < |a.keySplines| ==> UnitSpline(a.keySplines[k]))
    && a.dur > 0.0
  }

  /** The exact key times `0, t0, kin, khold, t1, 1` of page `i`. */
  function ExactKeyTimes(i: nat, n: nat, pageSec: real, hold: real): seq<real>
    requires n >= 1 && pageSec > 0.0
  {
    [0.0, T0(i, n, pageSec), Kin(i, n, pageSec, hold), Khold(i, n, pageSec, hold), T1(i, n, pageSec), 1.0]
  }

  /** The animation of page `i` of `n`: the four inner key times written
      with `toFixed(4)`, values `W;W;0;0;-W;-W` and the five splines. */
  function Keyframes(i: nat, n: nat, pageSec: real, hold: real, w: int): Animation
    requires n >= 1 && pageSec > 0.0
  {
    var e := ExactKeyTimes(i, n, pageSec, hold);
    Animation([0.0, Round4(e[1]), Round4(e[2]), Round4(e[3]), Round4(e[4]), 1.0],
              [w, w, 0, 0, -w, -w],
              [Linear, EaseIn, EaseHold, EaseOut, Linear],
              TotalDur(n, pageSec))
  }

  /** Every page's animation is a valid spline animation, rounding
      included, whenever the hold fraction is a fraction. */
  lemma KeyframesValid(i: nat, n: nat, pageSec: real, hold: real, w: int)
    requires i < n && pageSec > 0.0 && 0.0 <= hold <= 1.0
    ensures ValidSplineAnimation(Keyframes(i, n, pageSec, hold, w))
  {
    var e := ExactKeyTimes(i, n, pageSec, hold);
    KeyTimesOrdered(i, n, pageSec, hold);
    Round4Monotone(0.0, e[1]);
    Round4Monotone(e[1], e[2]);
    Round4Monotone(e[2], e[3]);
    Round4Monotone(e[3], e[4]);
    Round4Monotone(e[4], 1.0);
    assert TotalDur(n, pageSec) > 0.0;
  }

  // ---------------------------------------------------------------------
  // The slides

  /** A page and its animation. */
  datatype Slide<T> = Slide(page: seq<T>, animation: Animation)

  /** `pages.forEach((pg, i) => slides += ...)`: one slide per page, in
      order, each animated over the whole cycle. */
  method BuildSlides<T>(pages: seq<seq<T>>, pageSec: real, hold: real, w: int) returns (slides: seq<Slide<T>>)
    requires pageSec > 0.0
    ensures |slides| == |pages|
    ensures forall i :: 0 <= i < |slides| ==> slides[i].page == pages[i]
    ensures forall i :: 0 <= i < |slides| ==> slides[i].animation == Keyframes(i, PageCount(|pages|), pageSec, hold, w)
    ensures 0.0 <= hold <= 1.0 ==> forall i :: 0 <= i < |slides| ==> ValidSplineAnimation(slides[i].animation)
  {
    var n := PageCount(|pages|);
    slides := [];
    var i := 0;
    while i < |pages|
      invariant 0 <= i <= |pages| && |slides| == i
      invariant forall j :: 0 <= j < i ==> slides[j].page == pages[j]
      invariant forall j :: 0 <= j < i ==> slides[j].animation == Keyframes(j, n, pageSec, hold, w)
      invariant 0.0 <= hold <= 1.0 ==> forall j :: 0 <= j < i ==> ValidSplineAnimation(slides[j].animation)
    {
      var anim := Keyframes(i, n, pageSec, hold, w);
      if 0.0 <= hold <= 1.0 {
        KeyframesValid(i, n, pageSec, hold, w);
      }
      slides := slides + [Slide(pages[i], anim)];
      i := i + 1;
    }
  }

  /** The whole carousel: the pages of `items`, the cycle length and the slides. */
  method BuildCarousel<T>(items: seq<T>, pageSec: real, hold: real, w: int)
    returns (n: nat, totalDur: real, slides: seq<Slide<T>>)
    requires pageSec > 0.0
    ensures n == PageCount((|items| + 1) / PerPage) && totalDur == n as real * pageSec
    ensures |slides| == (|items| + 1) / PerPage
    ensures forall i :: 0 <= i < |slides| ==> slides[i].page == items[PerPage * i..Min(|items|, PerPage * i + PerPage)]
    ensures forall i :: 0 <= i < |slides| ==> 1 <= |slides[i].page| <= PerPage
    ensures forall i :: 0 <= i < |slides| - 1 ==> |slides[i].page| == PerPage
    ensures forall i :: 0 <= i < |slides| ==> slides[i].animation == Keyframes(i, n, pageSec, hold, w)
    ensures 0.0 <= hold <= 1.0 ==> forall i :: 0 <= i < |slides| ==> ValidSplineAnimation(slides[i].animation)
  {
    var pages := Paginate(items);
    n := PageCount(|pages|);
    totalDur := TotalDur(n, pageSec);
    assert totalDur == n as real * pageSec;
    slides := BuildSlides(pages, pageSec, hold, w);
  }

  function PagesOf<T>(slides: seq<Slide<T>>): (r: seq<seq<T>>)
    ensures |r| == |slides| && forall i :: 0 <= i < |r| ==> r[i] == slides[i].page
  {
    if slides == [] then [] else [slides[0].page] + PagesOf(slides[1..])
  }
}
