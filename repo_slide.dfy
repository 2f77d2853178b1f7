/**
 * `buildRepoSvg` of generate-repo-slide.mjs: the repository cards shown two
 * per page in the global-cycle carousel with a hold fraction of 0.55 and a
 * card strip 880 wide.
 */
module RepoSlide {
  import opened Strings
  import opened Carousel

  /** `HOLD_FRAC = 0.55`. */
  const RepoHold := 0.55

  /** `W = 880`. */
  const RepoWidth := 880

  /** With a hold of 0.55 a page slides in during the first 22.5% of its
      window and out after 77.5% of it. */
  lemma RepoFractions()
    ensures EnterK(RepoHold) == 0.225 && 0.0 < EnterK(RepoHold) < 0.5
    ensures ExitK(RepoHold) == 0.775 && 0.5 < ExitK(RepoHold) < 1.0
  {
  }

  /** Every repository page moves strictly in order inside its window. */
  lemma RepoKeyTimes(i: nat, n: nat, pageSec: real)
    requires i < n && pageSec > 0.0
    ensures 0.0 <= T0(i, n, pageSec) < Kin(i, n, pageSec, RepoHold)
    ensures Kin(i, n, pageSec, RepoHold) < Khold(i, n, pageSec, RepoHold)
    ensures Khold(i, n, pageSec, RepoHold) < T1(i, n, pageSec) <= 1.0
  {
    KeyTimesOrdered(i, n, pageSec, RepoHold);
  }

  /** The pages of the repositories, `N`, `totalDur` and one valid slide per
      page; no repositories give no slides over a one-page cycle. */
  method BuildRepoSlides<T>(repos: seq<T>, pageSec: real)
    returns (n: nat, totalDur: real, slides: seq<Slide<T>>)
    requires pageSec > 0.0
    ensures n == Max(1, (|repos| + 1) / PerPage) && totalDur == n as real * pageSec
    ensures repos == [] ==> slides == [] && n == 1
    ensures |slides| == (|repos| + 1) / PerPage
    ensures Flatten(PagesOf(slides)) == repos
    ensures forall i :: 0 <= i < |slides| ==> 1 <= |slides[i].page| <= PerPage
    ensures forall i :: 0 <= i < |slides| - 1 ==> |slides[i].page| == PerPage
    ensures forall i :: 0 <= i < |slides| ==> slides[i].animation == Keyframes(i, n, pageSec, RepoHold, RepoWidth)
    ensures forall i :: 0 <= i < |slides| ==> ValidSplineAnimation(slides[i].animation)
  {
    n, totalDur, slides := BuildCarousel(repos, pageSec, RepoHold, RepoWidth);
    ChunksFlatten(PagesOf(slides), repos);
  }
}
