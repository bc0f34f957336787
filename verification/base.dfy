/** The configuration shared by every versioner (src/version-base.ts): the
    default branch, the release-branch name pattern and the sentinel patch. */
module Base {
  import opened Wrappers
  import opened Text

  /** The default branch unless a configuration overrides it. */
  const DEFAULT_BRANCH: string := "master"

  /** Patch number reported for commits that are not on a release line: the
      largest value of a 16-bit build field. */
  const UNSAFE_BRANCH_PATCH: nat := 65535

  /** Every version this versioner produces has this major. */
  const MAJOR: nat := 4

  const ORIGIN: string := "origin/"
  const RELEASE_PREFIX: string := "release-4."
  const RELEASE_SUFFIX: string := ".x"

  /** The branch names a versioner instance treats as its mainline. */
  datatype Config = Config(defaultBranch: string)

  function DefaultConfig(): (c: Config)
    ensures c.defaultBranch == "master"
  {
    Config(DEFAULT_BRANCH)
  }

  /** `name.replace(/^origin\//, "")` */
  function StripOrigin(name: string): (r: string)
    ensures StartsWith(name, ORIGIN) ==> ORIGIN + r == name
    ensures !StartsWith(name, ORIGIN) ==> r == name
  {
    DropPrefix(name, ORIGIN)
  }

  /** `name` spells a release branch whose minor is the digit run `digits`:
      an optional `origin/`, then `release-4.`, the digits, then `.x`, and
      nothing else. */
  ghost predicate ReleaseName(name: string, digits: string) {
    && |digits| > 0
    && AllDigits(digits)
    && (name == RELEASE_PREFIX + digits + RELEASE_SUFFIX
        || name == ORIGIN + RELEASE_PREFIX + digits + RELEASE_SUFFIX)
  }

  /** The anchored pattern `^(?:origin\/)?release-4\.([0-9]+)\.x$`: `None` when
      it does not match, otherwise the text of capture group 1. */
  function MatchRelease(name: string): (r: Option<string>)
    ensures r.Some? ==> ReleaseName(name, r.value)
  {
    var rest := StripOrigin(name);
    if |rest| >= |RELEASE_PREFIX| + 1 + |RELEASE_SUFFIX|
       && StartsWith(rest, RELEASE_PREFIX)
       && rest[|rest| - |RELEASE_SUFFIX|..] == RELEASE_SUFFIX
       && AllDigits(rest[|RELEASE_PREFIX|..|rest| - |RELEASE_SUFFIX|])
    then
      var digits := rest[|RELEASE_PREFIX|..|rest| - |RELEASE_SUFFIX|];
      assert rest == RELEASE_PREFIX + digits + RELEASE_SUFFIX;
      Some(digits)
    else None
  }

  /** `releaseBranchMatcher.test(name)` */
  predicate IsReleaseBranch(name: string) {
    MatchRelease(name).Some?
  }

  /** The minor a release-branch name encodes, as `parseInt` reads it. */
  function ReleaseMinor(name: string): nat
    requires IsReleaseBranch(name)
  {
    DigitsValue(MatchRelease(name).value)
  }

  /** The pattern accepts every name of the release shape, and captures
      exactly its digit run. */
  lemma MatchReleaseComplete(name: string, digits: string)
    requires ReleaseName(name, digits)
    ensures MatchRelease(name) == Some(digits)
  {
    var core := RELEASE_PREFIX + digits + RELEASE_SUFFIX;
    if name == core {
      assert !StartsWith(name, ORIGIN) by {
        assert name[0] == 'r';
      }
    } else {
      assert name[..|ORIGIN|] == ORIGIN;
      assert StripOrigin(name) == core;
    }
    var rest := StripOrigin(name);
    assert rest == core;
    assert rest[|RELEASE_PREFIX|..|rest| - |RELEASE_SUFFIX|] == digits;
  }

  /** A name has at most one digit run it can be read as. */
  lemma ReleaseNameUnique(name: string, d1: string, d2: string)
    requires ReleaseName(name, d1) && ReleaseName(name, d2)
    ensures d1 == d2
  {
    MatchReleaseComplete(name, d1);
    MatchReleaseComplete(name, d2);
  }

  /** Concrete readings of the pattern. */
  lemma MatcherAccepts()
    ensures MatchRelease("release-4.26.x") == Some("26")
    ensures MatchRelease("origin/release-4.7.x") == Some("7")
  {
    MatchReleaseComplete("release-4.26.x", "26");
    MatchReleaseComplete("origin/release-4.7.x", "7");
  }

  /** A different major is not a release branch of this product. */
  lemma MatcherRejectsOtherMajor()
    ensures MatchRelease("release-5.2.x") == None
  {
    var name := "release-5.2.x";
    assert name[0] != ORIGIN[0];
    assert StripOrigin(name) == name;
    assert name[8] != RELEASE_PREFIX[8];
  }
}
