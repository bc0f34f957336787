/** The three version rules of `getVersionForHead`, each stated as an
    equation over the git oracles, together with the outcomes every
    resolution shares. */
module Rules {
  import opened Wrappers
  import opened Text
  import opened SemVer
  import opened Base
  import opened ArrayOps
  import opened Git
  import opened Catalog
  import opened HeadBranch
  import opened Resolve

  /** The facts every resolution establishes before it branches: HEAD, the
      current branch and the catalog were all read successfully. */
  ghost predicate Context(g: Repo, cfg: Config, head: string, current: string, cat: seq<ReleaseBranch>) {
    HeadAndBranch(g, cfg) == Success((head, current)) && ReleaseBranches(g) == Success(cat)
  }

  // ---------------------------------------------------------------------
  // Default branch
  // ---------------------------------------------------------------------

  /** After the shared prefix, resolution is the rule of the branch's class. */
  lemma Dispatch(g: Repo, cfg: Config, head: string, current: string, cat: seq<ReleaseBranch>)
    requires Context(g, cfg, head, current, cat)
    ensures Classify(cfg, current) == OnDefault ==> ResolveVersion(g, cfg) == DefaultBranchVersion(g, cfg, cat, head)
    ensures Classify(cfg, current) == OnRelease ==> ResolveVersion(g, cfg) == ReleaseBranchVersion(g, cfg, cat, current, head)
    ensures Classify(cfg, current) == OnOther ==> ResolveVersion(g, cfg) == OtherBranchVersion(g, cfg, cat)
  {
  }

  /** The scan has exactly one place it can end: the one the loop reaches. */
  lemma ScanWinnerIsLastAccepted(g: Repo, cfg: Config, cat: seq<ReleaseBranch>, head: string, r: int)
    requires ScanWinner(g, cfg, cat, head, r)
    ensures r == LastAccepted(g, cfg, cat, head)
  {
    var k := AcceptedCount(g, cfg, cat, head);
  }

  /** On the default branch the version is `4.(R.minor + 1).n`, where R is
      the entry the ancestor scan ends on and n counts the commits from R's
      branch point with `origin/<default>` to `head`; it fails exactly when
      one of those two git calls fails, and with no release branch at all. */
  lemma DefaultBranchRule(g: Repo, cfg: Config, head: string, current: string, cat: seq<ReleaseBranch>, r: int)
    requires Context(g, cfg, head, current, cat)
    requires Classify(cfg, current) == OnDefault
    requires ScanWinner(g, cfg, cat, head, r)
    ensures var point := g.mergeBase(ORIGIN + cfg.defaultBranch, cat[r].branch);
      && (ResolveVersion(g, cfg).Success? <==> point.Success? && g.revListCount(point.value, head).Success?)
      && (ResolveVersion(g, cfg).Success? ==>
            ResolveVersion(g, cfg).value == Version(4, cat[r].version.minor + 1, g.revListCount(point.value, head).value))
  {
    ScanWinnerIsLastAccepted(g, cfg, cat, head, r);
    Dispatch(g, cfg, head, current, cat);
  }

  /** A commit that is itself a release branch point is not counted as past
      that point: the scan stops before that entry. */
  lemma BranchPointIsNotAncestor(g: Repo, cfg: Config, cat: seq<ReleaseBranch>, head: string, i: int)
    requires 0 <= i < |cat|
    requires g.mergeBase(cat[i].branch, ORIGIN + cfg.defaultBranch) == Success(head)
    ensures AcceptedCount(g, cfg, cat, head) <= i
  {
  }

  // ---------------------------------------------------------------------
  // Release branch
  // ---------------------------------------------------------------------

  /** A release branch resolves only if the catalog lists it under its
      `origin/` name; otherwise resolution fails asking for it to be pushed. */
  lemma ReleaseBranchNotPushedRule(g: Repo, cfg: Config, head: string, current: string, cat: seq<ReleaseBranch>)
    requires Context(g, cfg, head, current, cat)
    requires Classify(cfg, current) == OnRelease
    ensures ResolveVersion(g, cfg) == Failure(ReleaseBranchNotPushed)
        <==> forall j :: 0 <= j < |cat| ==> cat[j].branch != RemoteName(current)
  {
    Dispatch(g, cfg, head, current, cat);
    ReleaseVersionNotPushed(g, cfg, cat, current, head);
  }

  lemma ReleaseVersionNotPushed(g: Repo, cfg: Config, cat: seq<ReleaseBranch>, current: string, head: string)
    ensures ReleaseBranchVersion(g, cfg, cat, current, head) == Failure(ReleaseBranchNotPushed)
        <==> forall j :: 0 <= j < |cat| ==> cat[j].branch != RemoteName(current)
  {
    var found := FindIndex(cat, Named(RemoteName(current)));
    if found.Some? {
      assert cat[found.value].branch == RemoteName(current);
    }
  }

  /** With the catalog entry R of the current branch at `i` and the first
      entry P of minor `R.minor - 1` at `j`, the version is
      `4.R.minor.(since + between)`: `between` counts default-branch commits
      from P's branch point to R's, `since` the commits from R's branch point
      to `head` (merge-bases taken against the default branch name as
      configured, without `origin/`). It fails exactly when one of those four
      git calls fails, and a failing merge-base fails it with git's error. */
  lemma ReleaseBranchRule(g: Repo, cfg: Config, head: string, current: string, cat: seq<ReleaseBranch>, i: nat, j: nat)
    requires Context(g, cfg, head, current, cat)
    requires Classify(cfg, current) == OnRelease
    requires i < |cat| && cat[i].branch == RemoteName(current)
    requires forall k :: 0 <= k < i ==> cat[k].branch != RemoteName(current)
    requires j < |cat| && cat[j].version.minor == cat[i].version.minor - 1
    requires forall k :: 0 <= k < j ==> cat[k].version.minor != cat[i].version.minor - 1
    ensures ReleaseRuleHolds(g, cfg, cat, head, i, j, ResolveVersion(g, cfg))
  {
    Dispatch(g, cfg, head, current, cat);
    ReleaseVersionFound(g, cfg, cat, current, head, i, j);
  }

  /** The release rule's outcome `r` for the current entry at `i` and the
      previous one at `j`, read off the four git calls the source makes. */
  ghost predicate ReleaseRuleHolds(g: Repo, cfg: Config, cat: seq<ReleaseBranch>, head: string, i: nat, j: nat,
                                   r: Result<Version, Error>)
    requires i < |cat| && j < |cat|
  {
    var previousPoint := g.mergeBase(cfg.defaultBranch, cat[j].branch);
    var currentPoint := g.mergeBase(cfg.defaultBranch, cat[i].branch);
    && (previousPoint.Failure? ==> r == Failure(GitFailed(previousPoint.error)))
    && (previousPoint.Success? && currentPoint.Failure? ==> r == Failure(GitFailed(currentPoint.error)))
    && (previousPoint.Success? && currentPoint.Success? ==>
          var between := g.revListCount(previousPoint.value, currentPoint.value);
          var since := g.revListCount(currentPoint.value, head);
          && (r.Success? <==> between.Success? && since.Success?)
          && (r.Success? ==> r.value == Version(4, cat[i].version.minor, since.value + between.value)))
  }

  lemma ReleaseVersionFound(g: Repo, cfg: Config, cat: seq<ReleaseBranch>, current: string, head: string, i: nat, j: nat)
    requires i < |cat| && cat[i].branch == RemoteName(current)
    requires forall k :: 0 <= k < i ==> cat[k].branch != RemoteName(current)
    requires j < |cat| && cat[j].version.minor == cat[i].version.minor - 1
    requires forall k :: 0 <= k < j ==> cat[k].version.minor != cat[i].version.minor - 1
    ensures ReleaseRuleHolds(g, cfg, cat, head, i, j, ReleaseBranchVersion(g, cfg, cat, current, head))
  {
    FindIndexFirst(cat, Named(RemoteName(current)), i);
    FindIndexFirst(cat, HasMinor(cat[i].version.minor - 1), j);
  }

  /** The previous release is found by minor, not by position: when no
      entry has minor `R.minor - 1` resolution fails, even if earlier
      release branches exist. */
  lemma ReleaseBranchWithoutPrevious(g: Repo, cfg: Config, head: string, current: string, cat: seq<ReleaseBranch>, i: nat)
    requires Context(g, cfg, head, current, cat)
    requires Classify(cfg, current) == OnRelease
    requires i < |cat| && cat[i].branch == RemoteName(current)
    requires forall k :: 0 <= k < i ==> cat[k].branch != RemoteName(current)
    requires forall k :: 0 <= k < |cat| ==> cat[k].version.minor != cat[i].version.minor - 1
    ensures ResolveVersion(g, cfg) == Failure(NoPreviousRelease(cat[i].version.minor))
  {
    Dispatch(g, cfg, head, current, cat);
    ReleaseVersionNoPrevious(g, cfg, cat, current, head, i);
  }

  lemma ReleaseVersionNoPrevious(g: Repo, cfg: Config, cat: seq<ReleaseBranch>, current: string, head: string, i: nat)
    requires i < |cat| && cat[i].branch == RemoteName(current)
    requires forall k :: 0 <= k < i ==> cat[k].branch != RemoteName(current)
    requires forall k :: 0 <= k < |cat| ==> cat[k].version.minor != cat[i].version.minor - 1
    ensures ReleaseBranchVersion(g, cfg, cat, current, head) == Failure(NoPreviousRelease(cat[i].version.minor))
  {
    FindIndexFirst(cat, Named(RemoteName(current)), i);
  }

  /** In particular the release branch of minor 0 can never be versioned. */
  lemma FirstMinorReleaseFails(g: Repo, cfg: Config, head: string, current: string, cat: seq<ReleaseBranch>, i: nat)
    requires Context(g, cfg, head, current, cat)
    requires Classify(cfg, current) == OnRelease
    requires i < |cat| && cat[i].branch == RemoteName(current) && cat[i].version.minor == 0
    requires forall k :: 0 <= k < i ==> cat[k].branch != RemoteName(current)
    ensures ResolveVersion(g, cfg) == Failure(NoPreviousRelease(0))
  {
    ReleaseBranchWithoutPrevious(g, cfg, head, current, cat, i);
  }

  // ---------------------------------------------------------------------
  // Any other branch
  // ---------------------------------------------------------------------

  /** Off the default and release branches, a successful resolution always
      has the sentinel patch 65535. */
  lemma OtherBranchPatch(g: Repo, cfg: Config, head: string, current: string, cat: seq<ReleaseBranch>)
    requires Context(g, cfg, head, current, cat)
    requires Classify(cfg, current) == OnOther
    requires ResolveVersion(g, cfg).Success?
    ensures ResolveVersion(g, cfg).value.patch == 65535
    ensures ResolveVersion(g, cfg).value.patch < 0x1_0000
  {
    Dispatch(g, cfg, head, current, cat);
  }

  /** The minor is that of the first entry whose branch point with
      `origin/<default>` is HEAD's. */
  lemma OtherBranchNearest(g: Repo, cfg: Config, head: string, current: string, cat: seq<ReleaseBranch>, i: nat)
    requires Context(g, cfg, head, current, cat)
    requires Classify(cfg, current) == OnOther
    requires i < |cat| && SharesBranchPoint(g, cfg, cat[i])
    requires forall j :: 0 <= j < i ==> ScanStepOk(g, cfg, cat[j]) && !SharesBranchPoint(g, cfg, cat[j])
    ensures ResolveVersion(g, cfg) == Success(Version(4, cat[i].version.minor, 65535))
  {
    var r := NearestIndex(g, cfg, cat, 0);
    assert forall j :: 0 <= j <= i ==> ScanStepOk(g, cfg, cat[j]);
    NearestIndexFinds(g, cfg, cat, 0, i);
    Dispatch(g, cfg, head, current, cat);
  }

  lemma {:induction false} NearestIndexFinds(g: Repo, cfg: Config, cat: seq<ReleaseBranch>, from: nat, i: nat)
    requires from <= i < |cat| && SharesBranchPoint(g, cfg, cat[i])
    requires forall j :: from <= j < i ==> ScanStepOk(g, cfg, cat[j]) && !SharesBranchPoint(g, cfg, cat[j])
    ensures NearestIndex(g, cfg, cat, from) == Success(Some(i))
    decreases i - from
  {
    if from < i {
      NearestIndexFinds(g, cfg, cat, from + 1, i);
    }
  }

  /** When no entry shares HEAD's branch point, the minor is one past the
      last release branch's. */
  lemma OtherBranchFallback(g: Repo, cfg: Config, head: string, current: string, cat: seq<ReleaseBranch>)
    requires Context(g, cfg, head, current, cat)
    requires Classify(cfg, current) == OnOther
    requires |cat| > 0
    requires forall j :: 0 <= j < |cat| ==> ScanStepOk(g, cfg, cat[j]) && !SharesBranchPoint(g, cfg, cat[j])
    ensures ResolveVersion(g, cfg) == Success(Version(4, cat[|cat| - 1].version.minor + 1, 65535))
  {
    Dispatch(g, cfg, head, current, cat);
    OtherVersionFallback(g, cfg, cat);
  }

  lemma OtherVersionFallback(g: Repo, cfg: Config, cat: seq<ReleaseBranch>)
    requires |cat| > 0
    requires forall j :: 0 <= j < |cat| ==> ScanStepOk(g, cfg, cat[j]) && !SharesBranchPoint(g, cfg, cat[j])
    ensures OtherBranchVersion(g, cfg, cat) == Success(Version(4, cat[|cat| - 1].version.minor + 1, 65535))
  {
    NearestIndexNone(g, cfg, cat);
  }

  lemma NearestIndexNone(g: Repo, cfg: Config, cat: seq<ReleaseBranch>)
    requires forall j :: 0 <= j < |cat| ==> ScanStepOk(g, cfg, cat[j]) && !SharesBranchPoint(g, cfg, cat[j])
    ensures NearestIndex(g, cfg, cat, 0) == Success(None)
  {
    var r := NearestIndex(g, cfg, cat, 0);
    assert r.Success?;
  }

  // ---------------------------------------------------------------------
  // Shared outcomes
  // ---------------------------------------------------------------------

  /** With no release branch at all, the default and other rules fail. */
  lemma EmptyCatalogFails(g: Repo, cfg: Config, head: string, current: string)
    requires Context(g, cfg, head, current, [])
    requires Classify(cfg, current) != OnRelease
    ensures ResolveVersion(g, cfg) == Failure(EmptyCatalog)
  {
  }

  /** Every version produced has major 4. */
  lemma MajorIsFour(g: Repo, cfg: Config)
    requires ResolveVersion(g, cfg).Success?
    ensures ResolveVersion(g, cfg).value.major == 4
  {
    var (head, current) := HeadAndBranch(g, cfg).value;
    var cat := ReleaseBranches(g).value;
    Dispatch(g, cfg, head, current, cat);
  }
}
