/** `getMASBuildVersion` (src/version-local.ts): the numeric build identifier
    `<major><minor, 2 digits><patch, 6 digits>` for release-branch commits,
    and `"0"` for every other commit. */
module Build {
  import opened Wrappers
  import opened Text
  import opened SemVer
  import opened Base
  import opened Git
  import opened HeadBranch
  import opened Resolve
  import opened HeadCache

  /** The build identifier of a parsed version: the major, then the minor and
      the patch zero-padded to 2 and 6 digits. */
  function BuildNumber(v: Version): (b: string)
    ensures AllDigits(b)
  {
    var major := NatToString(v.major);
    var minor := PadZeros(NatToString(v.minor), 2);
    var patch := PadZeros(NatToString(v.patch), 6);
    PadZerosValue(NatToString(v.minor), 2);
    PadZerosValue(NatToString(v.patch), 6);
    DigitsValueAppend(major, minor);
    DigitsValueAppend(major + minor, patch);
    major + minor + patch
  }

  /** `getMASBuildVersion` with the cache it reads and leaves behind. Off a
      release branch the answer is `"0"` and the cache is not consulted. */
  function MasBuildVersion(g: Repo, cfg: Config, cache: Option<string>): (out: (Result<string, Error>, Option<string>))
  {
    match HeadAndBranch(g, cfg)
    case Failure(e) => (Failure(e), cache)
    case Success((_, current)) =>
      if !IsReleaseBranch(current) then (Success("0"), cache)
      else
        var (text, after) := CachedVersionForHead(cache, g, cfg);
        match text
        case Failure(e) => (Failure(e), after)
        case Success(t) =>
          match ParseVersion(t)
          case None => (Failure(InvalidVersion(t)), after)
          case Some(v) => (Success(BuildNumber(v)), after)
  }

  // ---------------------------------------------------------------------
  // Lemmas
  // ---------------------------------------------------------------------

  /** Within the padding widths the identifier's decimal value is
      `major * 10^8 + minor * 10^6 + patch`. */
  lemma BuildNumberValue(v: Version)
    requires v.minor < 100 && v.patch < 1000000
    ensures |BuildNumber(v)| == |NatToString(v.major)| + 8
    ensures DigitsValue(BuildNumber(v)) == v.major * 100000000 + v.minor * 1000000 + v.patch
  {
    var major := NatToString(v.major);
    var minor := PadZeros(NatToString(v.minor), 2);
    var patch := PadZeros(NatToString(v.patch), 6);
    assert Pow10(2) == 100;
    assert Pow10(6) == 1000000 by {
      assert Pow10(3) == 1000;
    }
    NatToStringLength(v.minor, 2);
    NatToStringLength(v.patch, 6);
    PadZerosValue(NatToString(v.minor), 2);
    PadZerosValue(NatToString(v.patch), 6);
    DigitsValueAppend(major, minor);
    DigitsValueAppend(major + minor, patch);
    assert DigitsValue(major + minor) == v.major * 100 + v.minor;
    assert DigitsValue(major + minor + patch) == (v.major * 100 + v.minor) * 1000000 + v.patch;
  }

  /** Within the padding widths, a later version of the same major has a
      larger build identifier. */
  lemma BuildNumberMonotone(v: Version, w: Version)
    requires v.major == w.major
    requires v.minor < 100 && v.patch < 1000000 && w.minor < 100 && w.patch < 1000000
    requires v.minor < w.minor || (v.minor == w.minor && v.patch < w.patch)
    ensures DigitsValue(BuildNumber(v)) < DigitsValue(BuildNumber(w))
  {
    BuildNumberValue(v);
    BuildNumberValue(w);
    if v.minor < w.minor {
      assert v.minor * 1000000 + v.patch < (v.minor + 1) * 1000000 <= w.minor * 1000000;
    }
  }

  /** The worked example of the source's comment, 4.26.123, and a version
      whose minor and patch both need padding. */
  lemma BuildNumberExamples()
    ensures BuildNumber(Version(4, 26, 123)) == "426000123"
    ensures BuildNumber(Version(4, 1, 8)) == "401000008"
  {
    assert NatToString(4) == "4";
    assert NatToString(26) == "26";
    assert NatToString(123) == "123";
    assert NatToString(1) == "1";
    assert NatToString(8) == "8";
  }

  /** Off a release branch the build identifier is `"0"`, whatever the
      version, and the cache is untouched. */
  lemma OffReleaseIsZero(g: Repo, cfg: Config, cache: Option<string>, head: string, current: string)
    requires HeadAndBranch(g, cfg) == Success((head, current))
    requires !IsReleaseBranch(current)
    ensures MasBuildVersion(g, cfg, cache) == (Success("0"), cache)
  {
  }

  /** On a release branch with an empty cache, the build identifier is that
      of the resolved version, and the rendered version is now cached. */
  lemma OnReleaseFresh(g: Repo, cfg: Config, head: string, current: string, v: Version)
    requires HeadAndBranch(g, cfg) == Success((head, current))
    requires IsReleaseBranch(current)
    requires ResolveVersion(g, cfg) == Success(v) && InSafeRange(v)
    ensures MasBuildVersion(g, cfg, None) == (Success(BuildNumber(v)), Some(Render(v)))
  {
    ParseRender(v);
  }

  /** On a release branch with a cached version, that text is what is
      parsed: the repository's current state is not consulted for it. */
  lemma OnReleaseCached(g: Repo, cfg: Config, head: string, current: string, v: Version)
    requires HeadAndBranch(g, cfg) == Success((head, current))
    requires IsReleaseBranch(current)
    requires InSafeRange(v)
    ensures MasBuildVersion(g, cfg, Some(Render(v))) == (Success(BuildNumber(v)), Some(Render(v)))
  {
    ParseRender(v);
  }
}
