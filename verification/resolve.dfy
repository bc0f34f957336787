/** `getVersionForHead` (src/version-local.ts): classify the current branch
    as the default branch, a release branch or anything else, and compute the
    version by that class's rule. Every topology fact comes from the `Repo`
    oracles; the module adds only the arithmetic and the choices between them. */
module Resolve {
  import opened Wrappers
  import opened Text
  import opened SemVer
  import opened Base
  import opened ArrayOps
  import opened Git
  import opened Catalog
  import opened HeadBranch

  datatype BranchClass = OnDefault | OnRelease | OnOther

  /** The order of the tests in the source: default first, then release. */
  function Classify(cfg: Config, branch: string): BranchClass {
    if branch == cfg.defaultBranch || branch == ORIGIN + cfg.defaultBranch then OnDefault
    else if IsReleaseBranch(branch) then OnRelease
    else OnOther
  }

  // ---------------------------------------------------------------------
  // Default branch
  // ---------------------------------------------------------------------

  /** The body of the `try` block for one release branch: its branch point
      with `origin/<default>` is found, is not literally `head`, and a second
      merge-base of that point with `head` succeeds. Any git failure inside
      the block is caught and counts as "not an ancestor". */
  predicate Accepts(g: Repo, cfg: Config, rb: ReleaseBranch, head: string) {
    match g.mergeBase(rb.branch, ORIGIN + cfg.defaultBranch)
    case Failure(_) => false
    case Success(point) => point != head && g.mergeBase(point, head).Success?
  }

  /** Length of the prefix of the catalog the scan accepts before its first
      rejection. */
  function AcceptedCount(g: Repo, cfg: Config, cat: seq<ReleaseBranch>, head: string): (k: nat)
    ensures k <= |cat|
    ensures forall i :: 0 <= i < k ==> Accepts(g, cfg, cat[i], head)
    ensures k < |cat| ==> !Accepts(g, cfg, cat[k], head)
  {
    if |cat| == 0 || !Accepts(g, cfg, cat[0], head) then 0
    else 1 + AcceptedCount(g, cfg, cat[1..], head)
  }

  /** `r` is the entry the scan ends on: the last of the accepted prefix, or
      entry 0 when even that one is rejected. */
  ghost predicate ScanWinner(g: Repo, cfg: Config, cat: seq<ReleaseBranch>, head: string, r: int) {
    && 0 <= r < |cat|
    && (|| ((forall i :: 0 <= i <= r ==> Accepts(g, cfg, cat[i], head))
            && (r + 1 == |cat| || !Accepts(g, cfg, cat[r + 1], head)))
        || (r == 0 && !Accepts(g, cfg, cat[0], head)))
  }

  function LastAccepted(g: Repo, cfg: Config, cat: seq<ReleaseBranch>, head: string): (r: nat)
    requires |cat| > 0
    ensures ScanWinner(g, cfg, cat, head, r)
  {
    var k := AcceptedCount(g, cfg, cat, head);
    if k == 0 then 0 else k - 1
  }

  /** The default-branch rule: the minor after the scan's winner, and the
      number of commits since the winner's branch point. */
  function DefaultBranchVersion(g: Repo, cfg: Config, cat: seq<ReleaseBranch>, head: string): (r: Result<Version, Error>)
    ensures r.Success? ==> r.value.major == MAJOR
  {
    if |cat| == 0 then Failure(EmptyCatalog)
    else
      var last := cat[LastAccepted(g, cfg, cat, head)];
      var point :- Lift(g.mergeBase(ORIGIN + cfg.defaultBranch, last.branch));
      var since :- Lift(g.revListCount(point, head));
      Success(Version(MAJOR, last.version.minor + 1, since))
  }

  // ---------------------------------------------------------------------
  // Release branch
  // ---------------------------------------------------------------------

  /** The catalog name the current branch is looked up under. */
  function RemoteName(current: string): (r: string)
    ensures StartsWith(r, ORIGIN)
    ensures StripOrigin(r) == (if StartsWith(current, ORIGIN) then StripOrigin(current) else current)
  {
    if StartsWith(current, ORIGIN) then current
    else
      assert (ORIGIN + current)[..|ORIGIN|] == ORIGIN;
      ORIGIN + current
  }

  /** The `find` test for the entry of a given branch name. */
  function Named(name: string): ReleaseBranch -> bool {
    (rb: ReleaseBranch) => rb.branch == name
  }

  /** The `find` test for the entry of a given minor. */
  function HasMinor(minor: int): ReleaseBranch -> bool {
    (rb: ReleaseBranch) => rb.version.minor == minor
  }

  /** The release-branch rule: patch = commits on the default branch between
      the previous minor's branch point and this one's, plus commits since
      this one's branch point. */
  function ReleaseBranchVersion(g: Repo, cfg: Config, cat: seq<ReleaseBranch>, current: string, head: string): (r: Result<Version, Error>)
    ensures r.Success? ==> r.value.major == MAJOR
  {
    match FindIndex(cat, Named(RemoteName(current)))
    case None => Failure(ReleaseBranchNotPushed)
    case Some(i) =>
      var release := cat[i];
      match FindIndex(cat, HasMinor(release.version.minor - 1))
      case None => Failure(NoPreviousRelease(release.version.minor))
      case Some(j) =>
        var previous := cat[j];
        var previousPoint :- Lift(g.mergeBase(cfg.defaultBranch, previous.branch));
        var currentPoint :- Lift(g.mergeBase(cfg.defaultBranch, release.branch));
        var between :- Lift(g.revListCount(previousPoint, currentPoint));
        var since :- Lift(g.revListCount(currentPoint, head));
        Success(Version(MAJOR, release.version.minor, since + between))
  }

  // ---------------------------------------------------------------------
  // Any other branch
  // ---------------------------------------------------------------------

  /** The revision `HEAD` that the nearest-branch scan passes to
      `git merge-base`. */
  const HEAD_REV: string := "HEAD"

  /** Both merge-bases of one iteration of the nearest-branch scan succeed. */
  ghost predicate ScanStepOk(g: Repo, cfg: Config, rb: ReleaseBranch) {
    g.mergeBase(ORIGIN + cfg.defaultBranch, rb.branch).Success?
    && g.mergeBase(ORIGIN + cfg.defaultBranch, HEAD_REV).Success?
  }

  /** `rb` branched off the default branch where HEAD did. */
  ghost predicate SharesBranchPoint(g: Repo, cfg: Config, rb: ReleaseBranch) {
    ScanStepOk(g, cfg, rb)
    && g.mergeBase(ORIGIN + cfg.defaultBranch, rb.branch).value
       == g.mergeBase(ORIGIN + cfg.defaultBranch, HEAD_REV).value
  }

  /** The loop of `getNearestReleaseBranch` from entry `from` on: the index of
      the first entry sharing HEAD's branch point, `None` when no entry does. */
  function NearestIndex(g: Repo, cfg: Config, cat: seq<ReleaseBranch>, from: nat): (r: Result<Option<nat>, Error>)
    requires from <= |cat|
    ensures r.Success? && r.value.Some? ==>
      && from <= r.value.value < |cat|
      && SharesBranchPoint(g, cfg, cat[r.value.value])
      && forall j :: from <= j < r.value.value ==> ScanStepOk(g, cfg, cat[j]) && !SharesBranchPoint(g, cfg, cat[j])
    ensures r.Success? && r.value.None? ==>
      forall j :: from <= j < |cat| ==> ScanStepOk(g, cfg, cat[j]) && !SharesBranchPoint(g, cfg, cat[j])
    ensures r.Failure? ==> exists j :: from <= j < |cat| && !ScanStepOk(g, cfg, cat[j])
    ensures (forall j :: from <= j < |cat| ==> ScanStepOk(g, cfg, cat[j])) ==> r.Success?
    decreases |cat| - from
  {
    if from == |cat| then Success(None)
    else
      var releasePoint :- Lift(g.mergeBase(ORIGIN + cfg.defaultBranch, cat[from].branch));
      var headPoint :- Lift(g.mergeBase(ORIGIN + cfg.defaultBranch, HEAD_REV));
      if releasePoint == headPoint then Success(Some(from))
      else NearestIndex(g, cfg, cat, from + 1)
  }

  /** `getNearestReleaseBranch`: the first entry sharing HEAD's branch point,
      or a synthetic entry one minor past the last release branch. */
  function NearestReleaseBranch(g: Repo, cfg: Config, cat: seq<ReleaseBranch>): Result<ReleaseBranch, Error>
  {
    if |cat| == 0 then Failure(EmptyCatalog)
    else
      var fallback := ReleaseBranch(cfg.defaultBranch, IncMinor(cat[|cat| - 1].version));
      var found :- NearestIndex(g, cfg, cat, 0);
      match found
      case Some(i) => Success(cat[i])
      case None => Success(fallback)
  }

  /** The rule for any other branch: the nearest minor and the sentinel patch. */
  function OtherBranchVersion(g: Repo, cfg: Config, cat: seq<ReleaseBranch>): (r: Result<Version, Error>)
    ensures r.Success? ==> r.value.major == MAJOR && r.value.patch == UNSAFE_BRANCH_PATCH
  {
    var nearest :- NearestReleaseBranch(g, cfg, cat);
    Success(Version(MAJOR, nearest.version.minor, UNSAFE_BRANCH_PATCH))
  }

  // ---------------------------------------------------------------------
  // The whole resolution
  // ---------------------------------------------------------------------

  /** The current branch as `getVersionForHead` determines it. */
  function HeadAndBranch(g: Repo, cfg: Config): Result<(string, string), Error> {
    var head :- Lift(g.revParseHead);
    var current :- CurrentBranch(g, cfg, head);
    Success((head, current))
  }

  /** `getVersionForHead`, before rendering. */
  function ResolveVersion(g: Repo, cfg: Config): Result<Version, Error>
  {
    var (head, current) :- HeadAndBranch(g, cfg);
    var cat :- ReleaseBranches(g);
    match Classify(cfg, current)
    case OnDefault => DefaultBranchVersion(g, cfg, cat, head)
    case OnRelease => ReleaseBranchVersion(g, cfg, cat, current, head)
    case OnOther => OtherBranchVersion(g, cfg, cat)
  }

  /** `getVersionForHead`: the version as text. The text is produced exactly
      when a version is resolved, and `semver.parse` reads that version back
      from it whenever its components are within `semver`'s safe range. */
  function VersionForHead(g: Repo, cfg: Config): (r: Result<string, Error>)
    ensures r.Success? <==> ResolveVersion(g, cfg).Success?
    ensures r.Success? && InSafeRange(ResolveVersion(g, cfg).value) ==>
              ParseVersion(r.value) == Some(ResolveVersion(g, cfg).value)
    ensures r.Failure? ==> r.error == ResolveVersion(g, cfg).error
  {
    var v :- ResolveVersion(g, cfg);
    assert InSafeRange(v) ==> ParseVersion(Render(v)) == Some(v) by {
      if InSafeRange(v) { ParseRender(v); }
    }
    Success(Render(v))
  }
}
