/** The three-part version numbers the versioner produces, with the subset of
    the `semver` package it uses: `parse` (strict, plain `major.minor.patch`),
    `format`, `compare` and `inc("minor")`. */
module SemVer {
  import opened Wrappers
  import opened Text

  datatype Version = Version(major: nat, minor: nat, patch: nat)

  /** `Number.MAX_SAFE_INTEGER`: `semver` rejects any larger component. */
  const MAX_SAFE_INTEGER: nat := 9007199254740991

  /** `semver` rejects version strings longer than this. */
  const MAX_LENGTH: nat := 256

  /** The textual form `major.minor.patch`. */
  function Render(v: Version): (s: string)
  {
    NatToString(v.major) + "." + NatToString(v.minor) + "." + NatToString(v.patch)
  }

  predicate InSafeRange(v: Version) {
    v.major <= MAX_SAFE_INTEGER && v.minor <= MAX_SAFE_INTEGER && v.patch <= MAX_SAFE_INTEGER
  }

  /** One numeric component: canonical digits (`0|[1-9][0-9]*`) whose value is
      at most `MAX_SAFE_INTEGER`. */
  function ParseComponent(s: string): (r: Option<nat>)
    ensures r.Some? ==> r.value <= MAX_SAFE_INTEGER && NatToString(r.value) == s
    ensures r.None? ==> !Canonical(s) || DigitsValue(s) > MAX_SAFE_INTEGER
  {
    if Canonical(s) && DigitsValue(s) <= MAX_SAFE_INTEGER then
      NatToStringOfValue(s);
      Some(DigitsValue(s))
    else None
  }

  /** `semver.parse(s)` on the strings this program builds: `null` (here
      `None`) unless `s` is exactly three valid components joined by dots. */
  function ParseVersion(s: string): (r: Option<Version>)
    ensures r.Some? ==> InSafeRange(r.value)
    ensures r.Some? ==>
              Split(s, '.') == [NatToString(r.value.major), NatToString(r.value.minor), NatToString(r.value.patch)]
  {
    if |s| > MAX_LENGTH then None
    else
      var parts := Split(s, '.');
      if |parts| != 3 then None
      else
        var ma, mi, pa := ParseComponent(parts[0]), ParseComponent(parts[1]), ParseComponent(parts[2]);
        if ma.Some? && mi.Some? && pa.Some? then Some(Version(ma.value, mi.value, pa.value))
        else None
  }

  /** `semver.compare`: -1, 0 or 1 by major, then minor, then patch. */
  function Compare(a: Version, b: Version): (c: int)
    ensures -1 <= c <= 1
  {
    if a.major != b.major then (if a.major < b.major then -1 else 1)
    else if a.minor != b.minor then (if a.minor < b.minor then -1 else 1)
    else if a.patch != b.patch then (if a.patch < b.patch then -1 else 1)
    else 0
  }

  /** `semver.inc("minor")`: next minor, patch reset to zero. */
  function IncMinor(v: Version): (r: Version)
    ensures r.major == v.major && r.minor == v.minor + 1 && r.patch == 0
    ensures Compare(v, r) == -1
  {
    Version(v.major, v.minor + 1, 0)
  }

  // ---------------------------------------------------------------------
  // Lemmas
  // ---------------------------------------------------------------------

  /** A component of at most `MAX_SAFE_INTEGER` renders in at most 16 digits. */
  lemma SafeComponentLength(n: nat)
    requires n <= MAX_SAFE_INTEGER
    ensures |NatToString(n)| <= 16
  {
    assert Pow10(4) == 10000 by {
      assert Pow10(1) == 10;
      assert Pow10(2) == 100;
      assert Pow10(3) == 1000;
    }
    Pow10Add(4, 4);
    Pow10Add(8, 8);
    NatToStringLength(n, 16);
  }

  lemma {:induction false} Pow10Add(a: nat, b: nat)
    ensures Pow10(a + b) == Pow10(a) * Pow10(b)
  {
    if a > 0 {
      Pow10Add(a - 1, b);
      assert Pow10(a + b) == 10 * Pow10(a - 1 + b);
    }
  }

  /** The rendering of a version splits at its two dots into the three
      component renderings. */
  lemma SplitRender(v: Version)
    ensures Split(Render(v), '.') == [NatToString(v.major), NatToString(v.minor), NatToString(v.patch)]
  {
    var a, b, c := NatToString(v.major), NatToString(v.minor), NatToString(v.patch);
    NoDotInDigits(a);
    NoDotInDigits(b);
    NoDotInDigits(c);
    assert Render(v) == a + ['.'] + (b + ['.'] + c);
    SplitCons(a, '.', b + ['.'] + c);
    SplitCons(b, '.', c);
  }

  /** Parsing the rendering of a version gives the version back. */
  lemma ParseRender(v: Version)
    requires InSafeRange(v)
    ensures ParseVersion(Render(v)) == Some(v)
  {
    SafeComponentLength(v.major);
    SafeComponentLength(v.minor);
    SafeComponentLength(v.patch);
    SplitRender(v);
    NatToStringOfValue(NatToString(v.major));
    NatToStringOfValue(NatToString(v.minor));
    NatToStringOfValue(NatToString(v.patch));
  }

  /** Conversely, whatever `ParseVersion` accepts is the rendering of the
      version it returns, so parsing accepts only canonical text. */
  lemma RenderParse(s: string)
    requires ParseVersion(s).Some?
    ensures Render(ParseVersion(s).value) == s
  {
    var v := ParseVersion(s).value;
    JoinSplit(s, '.');
    JoinThree(NatToString(v.major), NatToString(v.minor), NatToString(v.patch), '.');
  }

  lemma JoinThree(a: string, b: string, c: string, sep: char)
    ensures Join([a, b, c], sep) == a + [sep] + (b + [sep] + c)
  {
    assert [b, c][1..] == [c];
    assert Join([b, c], sep) == b + [sep] + c;
    assert [a, b, c][1..] == [b, c];
  }

  lemma NoDotInDigits(s: string)
    requires AllDigits(s)
    ensures '.' !in s
  {
  }

  /** A parsed version is the unique version with that rendering: two safe
      versions with the same text are equal. */
  lemma RenderInjective(v: Version, w: Version)
    requires InSafeRange(v) && InSafeRange(w)
    requires Render(v) == Render(w)
    ensures v == w
  {
    ParseRender(v);
    ParseRender(w);
  }

  /** For versions sharing major and patch, `compare` orders by minor alone. */
  lemma CompareByMinor(a: Version, b: Version)
    requires a.major == b.major && a.patch == b.patch
    ensures Compare(a, b) < 0 <==> a.minor < b.minor
    ensures Compare(a, b) == 0 <==> a.minor == b.minor
  {
  }
}
