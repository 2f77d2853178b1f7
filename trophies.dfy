/**
 * The trophy slide of build-trophies.mjs: eight trophy cards built from a
 * user's contribution statistics, each graded S, A or B, shown two per page
 * in the global-cycle carousel with a hold fraction of 0.75 and a card
 * strip 760 wide.
 */
module Trophies {
  import opened Strings
  import opened Carousel

  // ---------------------------------------------------------------------
  // Grades

  datatype Grade = S | A | B

  /** `grade = v => v > 5000 ? "S" : v > 1000 ? "A" : "B"`. */
  function GradeOf(v: int): (g: Grade)
    ensures g == S <==> v > 5000
    ensures g == A <==> 1000 < v <= 5000
    ensures g == B <==> v <= 1000
  {
    if v > 5000 then S else if v > 1000 then A else B
  }

  /** The order B < A < S. */
  function Rank(g: Grade): (r: nat)
    ensures r <= 2
    ensures g == B <==> r == 0
    ensures g == S <==> r == 2
  {
    match g
    case B => 0
    case A => 1
    case S => 2
  }

  /** A larger value never earns a lower grade. */
  lemma GradeMonotone(u: int, v: int)
    requires u <= v
    ensures Rank(GradeOf(u)) <= Rank(GradeOf(v))
  {
  }

  /** The letter shown in the card. */
  function Letter(g: Grade): (s: string)
    ensures |s| == 1
  {
    match g
    case S => "S"
    case A => "A"
    case B => "B"
  }

  // ---------------------------------------------------------------------
  // The trophies

  /** The statistics read from the contribution queries. */
  datatype Stats = Stats(
    commits: int, followers: int, stars: int, reviews: int,
    issues: int, repositories: int, pullRequests: int, totalActivity: int)

  datatype Trophy = Trophy(title: string, value: int, desc: string)

  const TrophyCount := 8

  /** The `trophies` array, in its source order. */
  function TrophyList(st: Stats): (r: seq<Trophy>)
    ensures |r| == TrophyCount
    ensures r[0].value == st.commits && r[1].value == st.followers
    ensures r[2].value == st.stars && r[3].value == st.reviews
    ensures r[4].value == st.issues && r[5].value == st.repositories
    ensures r[6].value == st.pullRequests && r[7].value == st.totalActivity
  {
    [ Trophy("Commits", st.commits, "Commit contributions across all repos."),
      Trophy("Followers", st.followers, "People following this account."),
      Trophy("Stars Earned", st.stars, "Stargazers on owned repositories."),
      Trophy("Reviews", st.reviews, "Pull request reviews submitted."),
      Trophy("Issues", st.issues, "Issues created."),
      Trophy("Repositories", st.repositories, "Owned non-fork repositories."),
      Trophy("Pull Requests", st.pullRequests, "Pull requests opened."),
      Trophy("Total Activity", st.totalActivity, "All recorded contributions.") ]
  }

  // ---------------------------------------------------------------------
  // The slide schedule

  /** `HOLD_FRAC = 0.75`. */
  const TrophyHold := 0.75

  /** `W = 760`. */
  const TrophyWidth := 760

  /** With a hold of 0.75 a page slides in during the first eighth of its
      window and out during the last eighth. */
  lemma TrophyFractions()
    ensures EnterK(TrophyHold) == 0.125 && 0.0 < EnterK(TrophyHold) < 0.5
    ensures ExitK(TrophyHold) == 0.875 && 0.5 < ExitK(TrophyHold) < 1.0
  {
  }

  /** Every trophy page moves strictly in order inside its window. */
  lemma TrophyKeyTimes(i: nat, n: nat, pageSec: real)
    requires i < n && pageSec > 0.0
    ensures 0.0 <= T0(i, n, pageSec) < Kin(i, n, pageSec, TrophyHold)
    ensures Kin(i, n, pageSec, TrophyHold) < Khold(i, n, pageSec, TrophyHold)
    ensures Khold(i, n, pageSec, TrophyHold) < T1(i, n, pageSec) <= 1.0
  {
    KeyTimesOrdered(i, n, pageSec, TrophyHold);
  }

  /** The page loop, `N`, `totalDur` and the `forEach` over the pages: four
      pages of exactly two trophies, in order, over a cycle of four pages. */
  method BuildTrophySlides(st: Stats, pageSec: real)
    returns (n: nat, totalDur: real, slides: seq<Slide<Trophy>>)
    requires pageSec > 0.0
    ensures n == 4 && totalDur == 4.0 * pageSec
    ensures |slides| == 4
    ensures forall i :: 0 <= i < 4 ==> slides[i].page == TrophyList(st)[2 * i..2 * i + 2]
    ensures forall i :: 0 <= i < 4 ==> slides[i].animation == Keyframes(i, n, pageSec, TrophyHold, TrophyWidth)
    ensures forall i :: 0 <= i < 4 ==> ValidSplineAnimation(slides[i].animation)
  {
    n, totalDur, slides := BuildEightCarousel(TrophyList(st), pageSec);
  }

  /** The carousel of any eight cards. */
  method BuildEightCarousel<T>(cards: seq<T>, pageSec: real)
    returns (n: nat, totalDur: real, slides: seq<Slide<T>>)
    requires |cards| == TrophyCount && pageSec > 0.0
    ensures n == 4 && totalDur == 4.0 * pageSec
    ensures |slides| == 4
    ensures forall i :: 0 <= i < 4 ==> slides[i].page == cards[2 * i..2 * i + 2]
    ensures forall i :: 0 <= i < 4 ==> slides[i].animation == Keyframes(i, n, pageSec, TrophyHold, TrophyWidth)
    ensures forall i :: 0 <= i < 4 ==> ValidSplineAnimation(slides[i].animation)
  {
    n, totalDur, slides := BuildCarousel(cards, pageSec, TrophyHold, TrophyWidth);
    EightPages(cards, slides);
    assert n == 4;
    assert n as real == 4.0;
  }

  /** Eight cards make four full pages. */
  lemma EightPages<T>(cards: seq<T>, slides: seq<Slide<T>>)
    requires |cards| == TrophyCount && |slides| == (|cards| + 1) / PerPage
    requires forall i :: 0 <= i < |slides| ==> slides[i].page == cards[PerPage * i..Min(|cards|, PerPage * i + PerPage)]
    ensures |slides| == 4
    ensures forall i :: 0 <= i < 4 ==> slides[i].page == cards[2 * i..2 * i + 2]
  {
    forall i | 0 <= i < 4 ensures slides[i].page == cards[2 * i..2 * i + 2] {
      assert Min(|cards|, PerPage * i + PerPage) == 2 * i + 2;
    }
  }
}
