# deterministic-versions: version resolution, modelled in Dafny

`deterministic-versions` derives a build version such as `4.27.12` for the
commit checked out in a git repository, using only the shape of the
repository's history. Two builds of the same commit therefore get the same
version. This project models the local, git-backed versioner
(`LocalVersioner`, in `src/version-local.ts` and `src/version-base.ts`) and
proves what it computes.

The modelled pipeline:

- **The release-branch matcher** (`Base`). The regular expression
  `^(?:origin\/)?release-4\.([0-9]+)\.x$` is a hand-written matcher,
  `MatchRelease`. It is proved sound and complete against a declarative
  description of the names it accepts, `ReleaseName`.
- **The release catalog** (`Catalog`). `getReleaseBranches` keeps the
  remote branches whose name matches. It builds `4.<minor>.0` for each one,
  parses that with `semver.parse`, and sorts the result by `semver.compare`.
  `semver`'s strict parse, `format`, `compare` and `inc("minor")` are
  modelled in `SemVer` on unbounded naturals, with the `MAX_SAFE_INTEGER`
  and 256-character limits that `semver` imposes.
- **The current branch** (`HeadBranch`). `getCurrentBranch` either returns
  the branch git names or, for a detached HEAD, the oldest default or
  release branch that contains the commit.
- **The three version rules** (`Resolve`, with the per-rule theorems in
  `Rules`):
  - the default branch gets the next unreleased minor plus the commits since
    the last branch point HEAD is past;
  - a release branch gets its own minor, with a patch counted from the
    previous minor's branch point;
  - any other branch gets the nearest minor and the sentinel patch 65535.
- **The memoised version** (`HeadCache`, and the class
  `Versioner.LocalVersioner`), and the **MAS build identifier**
  `<major><minor:2><patch:6>` (`Build`).

Git is not executed. The record `Git.Repo` holds one oracle per git query the
source makes:

- `rev-parse HEAD`;
- `rev-parse --abbrev-ref HEAD`;
- `branch -r`;
- `branch --contains <sha> --remote`;
- `merge-base <a> <b>`;
- `rev-list --count <a>..<b>`.

Each oracle returns a success value or an error message. A failed git call
propagates as `Git.Error.GitFailed`, except inside the `try` block of the
default-branch scan, which swallows it as the source does. The crashes in the
source are explicit error values:

- `ReleaseBranchNotPushed` is the thrown "ensure it is pushed" error.
- `EmptyCatalog` stands for indexing an empty `releaseBranches`.
- `NoPreviousRelease` stands for dereferencing the missing previous release
  found by `find(...)!`.
- `InvalidVersion` stands for a `semver.parse(...)!` that returned `null`.

Four behaviours of the code are easy to misread, and the model keeps each
as written:

- the major is hard-coded to 4, in the branch pattern and in every version
  built;
- when no release branch is past its branch point, the default-branch scan
  falls back to `releaseBranches[0]`;
- the previous release is looked up by `minor - 1`, with no special case
  for the first release, so minor 0 or a gap in the minors fails;
- "is an ancestor" means only that the second `merge-base` succeeded.

## Model

| member | source | states |
|---|---|---|
| Base.DefaultConfig | src/version-base.ts:5 | the default branch is `master` |
| Base.StripOrigin | src/version-local.ts:221 | removes exactly one leading `origin/` and leaves any other name alone |
| Base.MatchRelease | src/version-base.ts:6 | every accepted name is `release-4.<digits>.x`, optionally behind `origin/`, and the captured group is those digits |
| Base.MatchReleaseComplete | src/version-base.ts:6 | every name of that shape is accepted, with its digits captured |
| Base.ReleaseNameUnique | src/version-base.ts:6 | a name determines its captured digits uniquely |
| Base.MatcherAccepts | src/version-base.ts:6 | `release-4.26.x` captures `26` and `origin/release-4.7.x` captures `7` |
| Base.MatcherRejectsOtherMajor | src/version-base.ts:6 | a release branch of another major, `release-5.2.x`, is not matched |
| Text.NatToString | src/version-local.ts:184-186 | `${n}` is canonical decimal text (no leading zero) whose value is n |
| Text.NatToStringOfValue | src/version-local.ts:184-186 | conversely, canonical digit text is the rendering of its own value |
| Text.PadZerosValue | src/version-local.ts:184-186 | `padStart(width, "0")` keeps the text all digits and does not change its value |
| SemVer.ParseComponent | src/version-local.ts:265-271 | a numeric component is accepted iff it is canonical and at most `MAX_SAFE_INTEGER`, and then renders back to itself |
| SemVer.ParseVersion | src/version-local.ts:265-271 | a parsed version is in the safe range, and the text splits at its dots into the renderings of its three components |
| SemVer.ParseRender | src/version-local.ts:265-271 | parsing the rendering of any safe version gives that version back |
| SemVer.RenderParse | src/version-local.ts:265-271 | whatever parses is the rendering of its result, so parsing accepts only canonical text |
| SemVer.RenderInjective | src/version-local.ts:265-271 | two safe versions with the same text are the same version |
| SemVer.CompareByMinor | src/version-local.ts:274-276 | for equal major and patch, `compare` is negative or zero exactly when the minor is smaller or equal |
| SemVer.IncMinor | src/version-local.ts:320-322 | `inc("minor")` raises the minor by one, resets the patch and yields a strictly greater version |
| ArrayOps.SortBy | src/version-local.ts:274-276 | the sort returns a permutation of its input, ordered by key |
| ArrayOps.InsertWithKey | src/version-local.ts:274-276 | one insertion step puts the new element ahead of those sharing its key and keeps every key's elements in order |
| ArrayOps.SortByStable | src/version-local.ts:274-276 | the sort is stable: for every key, the elements with that key keep their input order |
| ArrayOps.SortHeadIsFirstMin | src/version-local.ts:233-243 | the first element after sorting is the earliest element of least key |
| ArrayOps.SortedPermutationsEqual | src/version-local.ts:274-276 | two key-sorted permutations of one collection with distinct keys are identical |
| ArrayOps.FindIndex | src/version-local.ts:103-107 | `find` returns the first element satisfying the test, or nothing when none does |
| ArrayOps.FindIndexFirst | src/version-local.ts:119-121 | if position i satisfies the test and no earlier one does, `find` returns position i |
| Catalog.MinorDigits | src/version-local.ts:267-269 | the group captured from a kept branch line is a non-empty run of digits |
| Catalog.EntryTextParses | src/version-local.ts:265-271 | `4.<d>.0` parses iff d has no leading zero and is at most `MAX_SAFE_INTEGER`, and then yields version 4.d.0 |
| Catalog.EntryFor | src/version-local.ts:262-272 | a kept line becomes the entry (line, 4.minor.0), or the invalid-version error when semver rejects its minor |
| Catalog.ReleaseLines | src/version-local.ts:258-260 | the kept lines are exactly the matching lines, each as often as git listed it |
| Catalog.ReleaseLinesAppend | src/version-local.ts:258-260 | the filter keeps git's order: filtering two pieces of a listing and joining them equals filtering the joined listing |
| Catalog.ReleaseLinesSingle | src/version-local.ts:258-260 | a single line is kept exactly when it is a release line |
| Catalog.Entries | src/version-local.ts:261-273 | mapping the kept lines succeeds iff every minor is valid, with one entry per line in order |
| Catalog.BuildCatalog | src/version-local.ts:253-277 | succeeds iff every matching line has a valid minor; the result is sorted by minor and is a permutation of the entries of the matching lines |
| Catalog.ReleaseBranches | src/version-local.ts:253-277 | the catalog exists iff `git branch -r` succeeds and every listed release branch has a minor semver accepts (a git failure is reported with git's error); it is sorted by minor, and each listed release branch contributes its entry as often as git lists it |
| Catalog.CatalogSortedBySemver | src/version-local.ts:274-276 | no catalog entry compares greater under `semver.compare` than a later one |
| Catalog.CatalogStable | src/version-local.ts:253-277 | the catalog entries of any one minor appear in the order git listed their lines |
| Catalog.CatalogOrderIndependent | src/version-local.ts:253-277 | reordering git's output cannot change whether the catalog succeeds, or its contents and order, when no minor appears under two names |
| HeadBranch.Candidates | src/version-local.ts:214-226 | the candidates are exactly the stripped non-alias lines that name the default branch or a release branch |
| HeadBranch.KeptIndices | src/version-local.ts:214-226 | the positions of the lines the filters keep, in increasing order, each kept line's position included |
| HeadBranch.CandidatesFollowGit | src/version-local.ts:214-226 | the k-th candidate is the k-th kept line stripped of `origin/`, so git's order and repetitions reach the sort unchanged |
| HeadBranch.ComparatorAgreesWithRank | src/version-local.ts:233-239 | the source's comparator orders any two candidates (unless both are the default branch) as the rank does: default first, then by release minor |
| HeadBranch.AttachedHead | src/version-local.ts:206-251 | on a branch, the name git prints is the current branch |
| HeadBranch.DetachedWithoutCandidates | src/version-local.ts:244-250 | detached, when no default or release branch contains the commit, the answer is the literal `HEAD` |
| HeadBranch.DetachedPicksOldest | src/version-local.ts:227-243 | detached with candidates, the answer is `origin/` plus the earliest candidate of least rank |
| HeadBranch.DetachedPrefersDefault | src/version-local.ts:233-243 | the default branch wins whenever it contains the commit |
| HeadBranch.DetachedPicksSmallestMinor | src/version-local.ts:235-243 | otherwise the release branch with the smallest minor wins |
| Resolve.AcceptedCount | src/version-local.ts:64-81 | the scan accepts a prefix of the catalog and stops at the first entry that is not past its branch point |
| Resolve.LastAccepted | src/version-local.ts:63-81 | the scan ends on the last accepted entry, or on entry 0 when the first is rejected |
| Resolve.DefaultBranchVersion | src/version-local.ts:82-100 | a default-branch version has major 4 |
| Resolve.RemoteName | src/version-local.ts:103-107 | the lookup name always starts with `origin/` and names the same branch as the current one |
| Resolve.ReleaseBranchVersion | src/version-local.ts:101-162 | a release-branch version has major 4 |
| Resolve.NearestIndex | src/version-local.ts:324-337 | the scan returns the first entry sharing HEAD's branch point, returns none when no entry does, and fails only when a merge-base fails |
| Resolve.OtherBranchVersion | src/version-local.ts:163-173 | a version off the default and release branches has major 4 and patch 65535 |
| Resolve.VersionForHead | src/version-local.ts:32-175 | the text is produced exactly when a version is resolved, failures keep their error, and `semver.parse` of the text gives the resolved version back whenever it is in the safe range |
| Rules.Dispatch | src/version-local.ts:32-175 | after reading HEAD, the branch and the catalog, the default test is applied first, then the release test, then the fallback |
| Rules.ScanWinnerIsLastAccepted | src/version-local.ts:63-81 | the scan has exactly one possible end entry |
| Rules.DefaultBranchRule | src/version-local.ts:41-100 | on the default branch the version is 4.(R.minor+1).n, with n the commits from R's branch point to HEAD, and it fails exactly when those git calls fail |
| Rules.BranchPointIsNotAncestor | src/version-local.ts:71-74 | a commit that is itself a release branch point is not counted as past it |
| Rules.ReleaseBranchNotPushedRule | src/version-local.ts:103-112 | a release branch fails with the "not pushed" error iff the catalog has no entry under its `origin/` name |
| Rules.ReleaseVersionNotPushed | src/version-local.ts:103-112 | the same "not pushed" condition for the release rule alone |
| Rules.ReleaseBranchRule | src/version-local.ts:101-162 | a failing merge-base of the default branch with the previous or the current release branch fails with git's error; otherwise the version is 4.R.minor.(since + between), counted between the branch points the source names, and it fails exactly when a count fails |
| Rules.ReleaseVersionFound | src/version-local.ts:103-162 | the same outcomes, failures included, for the release rule alone, given the two `find` positions |
| Rules.ReleaseBranchWithoutPrevious | src/version-local.ts:119-121 | when no entry has minor R.minor - 1, resolution fails, even if older release branches exist |
| Rules.ReleaseVersionNoPrevious | src/version-local.ts:119-121 | the same failure for the release rule alone |
| Rules.FirstMinorReleaseFails | src/version-local.ts:119-121 | the release branch of minor 0 can never be versioned |
| Rules.OtherBranchPatch | src/version-local.ts:163-173 | off the default and release branches every version has the sentinel patch 65535, which fits in 16 bits |
| Rules.OtherBranchNearest | src/version-local.ts:318-339 | the minor is that of the first entry whose branch point with `origin/<default>` equals HEAD's |
| Rules.NearestIndexFinds | src/version-local.ts:324-337 | the scan reaches the first entry sharing HEAD's branch point when all earlier steps succeed |
| Rules.OtherBranchFallback | src/version-local.ts:318-323 | when no entry shares HEAD's branch point, the minor is one past the last catalog entry's |
| Rules.OtherVersionFallback | src/version-local.ts:318-323 | the same fallback for the other-branch rule alone |
| Rules.NearestIndexNone | src/version-local.ts:324-337 | when every step succeeds without a match, the scan finds nothing |
| Rules.EmptyCatalogFails | src/version-local.ts:63-322 | with no release branch, the default rule (which reads `releaseBranches[0]`) and the other rule (which reads `releaseBranches[length - 1]`) fail |
| Rules.MajorIsFour | src/version-local.ts:32-175 | every resolved version has major 4 |
| HeadCache.CachedVersionForHead | src/version-base.ts:13-18 | a filled cache is returned unchanged; an empty one is filled with a successful result and stays empty after a failure |
| HeadCache.FirstCallComputes | src/version-base.ts:14-15 | the first call on an empty cache gives the freshly computed version |
| HeadCache.CachedIsStable | src/version-base.ts:13-18 | after one success, every later call returns the same text whatever the repository then looks like |
| Versioner.CachedTwice | src/version-base.ts:13-18 | two calls on one versioner: the first computes the version; after a success the second repeats it and `getVersionForHead` has run once, after a failure the second recomputes and it has run twice |
| Build.BuildNumber | src/version-local.ts:193-196 | the build identifier is all digits |
| Build.BuildNumberValue | src/version-local.ts:191-196 | within the padding widths the identifier is `major*10^8 + minor*10^6 + patch`, 8 digits longer than the major |
| Build.BuildNumberMonotone | src/version-local.ts:177-182 | within the padding widths (minor < 100, patch < 10^6), for one major a later minor or a later patch gives a strictly larger build number |
| Build.BuildNumberExamples | src/version-local.ts:191-192 | version 4.26.123 gives `426000123` |
| Build.OffReleaseIsZero | src/version-local.ts:188-199 | off a release branch the build identifier is `0` and the cache is untouched |
| Build.OnReleaseFresh | src/version-local.ts:187-196 | on a release branch with an empty cache, when the resolved version is in the safe range, the identifier is that of the resolved version and the cache then holds its text |
| Build.OnReleaseCached | src/version-local.ts:189-196 | with a cached version, the identifier comes from the cached text |

## Left out

- Process spawning, `path.resolve` and the constructor's `fs.existsSync` check are left out. Git is the `Repo` oracle record instead.
- The `trim`/`split("\n")`/`map(trim)` of git's output is left out: the oracles return the trimmed lines, and `rev-list --count` returns the parsed count. A `parseInt` that yields `NaN` is not modelled.
- `console.error` logging is left out: it does not affect any result.
- `src/version-github.ts`, the CLI, `index.ts` and the tests are not part of this model.
- Concurrency and the `async` interleaving of calls are left out: each call is one pure transition over a snapshot of the repository.
- JavaScript numbers are doubles. Minors and counts above 2^53 would lose precision in `+ 1`, `+` and `padStart`. Naturals here are exact, and `semver`'s `MAX_SAFE_INTEGER` bound is kept.
- SemVer.ParseVersion: models `semver.parse` only for plain `major.minor.patch` text, the only form the program builds. The `v` prefix, prerelease and build-metadata forms are not modelled.
- Catalog.BuildCatalog: when two lines have invalid minors, the model reports the first in git's order. The source crashes on the first null version that `compare` touches, or, in a one-entry catalog, only when that version is read. So the error identity and its timing may differ. Only "fails" versus "succeeds" is faithful.
- Catalog.CatalogOrderIndependent: does not cover a minor listed under two names, such as `release-4.3.x` and `origin/release-4.3.x`. The relative order of such entries then follows git's order, as Catalog.CatalogStable states.
- HeadBranch.ComparatorAgreesWithRank: excludes comparing the default branch with itself. There the source's comparator returns -1, not 0. Such an inconsistent comparator has no defined sort result, and the rank model puts the first listed copy first.
- The comment at `src/version-local.ts:164` names patch 65536, but the code and the model use 65535.
