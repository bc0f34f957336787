/** The release-branch catalog (`getReleaseBranches`, src/version-local.ts):
    every remote branch whose name, with one leading `origin/` removed, is a
    release branch, paired with the version `4.<minor>.0` it encodes and
    sorted by that version. */
module Catalog {
  import opened Wrappers
  import opened Text
  import opened SemVer
  import opened Base
  import opened ArrayOps
  import opened Git

  /** `{ branch, version }` of src/interfaces.ts */
  datatype ReleaseBranch = ReleaseBranch(branch: string, version: Version)

  function MinorOf(rb: ReleaseBranch): nat {
    rb.version.minor
  }

  /** A `git branch -r` line the catalog keeps. */
  predicate IsReleaseLine(line: string) {
    IsReleaseBranch(StripOrigin(line))
  }

  /** The digit run a kept line encodes. */
  function MinorDigits(line: string): (d: string)
    requires IsReleaseLine(line)
    ensures |d| > 0 && AllDigits(d)
  {
    MatchRelease(StripOrigin(line)).value
  }

  /** `semver.parse` accepts `4.<d>.0` exactly when `d` is a valid numeric
      identifier: no leading zero and at most `MAX_SAFE_INTEGER`. */
  predicate ValidMinor(d: string) {
    Canonical(d) && DigitsValue(d) <= MAX_SAFE_INTEGER
  }

  /** The catalog entry for one kept line. */
  function EntryFor(line: string): (r: Result<ReleaseBranch, Error>)
    requires IsReleaseLine(line)
    ensures r.Success? <==> ValidMinor(MinorDigits(line))
    ensures r.Success? ==> r.value == ReleaseBranch(line, Version(MAJOR, DigitsValue(MinorDigits(line)), 0))
    ensures r.Failure? ==> r.error == InvalidVersion("4." + MinorDigits(line) + ".0")
  {
    var d := MinorDigits(line);
    var text := "4." + d + ".0";
    EntryTextParses(d);
    match ParseVersion(text)
    case None => Failure(InvalidVersion(text))
    case Some(v) => Success(ReleaseBranch(line, v))
  }

  lemma EntryTextParses(d: string)
    requires |d| > 0 && AllDigits(d)
    ensures ParseVersion("4." + d + ".0").Some? <==> ValidMinor(d)
    ensures ValidMinor(d) ==> ParseVersion("4." + d + ".0") == Some(Version(MAJOR, DigitsValue(d), 0))
  {
    if ValidMinor(d) {
      ValidMinorParses(d);
    }
    if ParseVersion("4." + d + ".0").Some? {
      ParsedMinorValid(d);
    }
  }

  lemma SplitEntryText(d: string)
    requires AllDigits(d)
    ensures Split("4." + d + ".0", '.') == ["4", d, "0"]
  {
    NoDotInDigits(d);
    assert "4." + d + ".0" == "4" + ['.'] + (d + ['.'] + "0");
    SplitCons("4", '.', d + ['.'] + "0");
    SplitCons(d, '.', "0");
  }

  lemma ValidMinorParses(d: string)
    requires ValidMinor(d)
    ensures ParseVersion("4." + d + ".0") == Some(Version(MAJOR, DigitsValue(d), 0))
  {
    var v := Version(MAJOR, DigitsValue(d), 0);
    NatToStringOfValue(d);
    assert NatToString(4) == "4" && NatToString(0) == "0";
    assert Render(v) == "4." + d + ".0";
    ParseRender(v);
  }

  lemma ParsedMinorValid(d: string)
    requires |d| > 0 && AllDigits(d)
    requires ParseVersion("4." + d + ".0").Some?
    ensures ValidMinor(d)
  {
    var text := "4." + d + ".0";
    var v := ParseVersion(text).value;
    SplitEntryText(d);
    SplitRender(v);
    RenderParse(text);
    assert NatToString(v.minor) == d;
  }

  /** The kept lines, in their original order. */
  function ReleaseLines(lines: seq<string>): (r: seq<string>)
    ensures forall i :: 0 <= i < |r| ==> IsReleaseLine(r[i])
    ensures forall x :: IsReleaseLine(x) ==> multiset(r)[x] == multiset(lines)[x]
    ensures forall x :: !IsReleaseLine(x) ==> multiset(r)[x] == 0
  {
    if |lines| == 0 then []
    else
      var rest := ReleaseLines(lines[1..]);
      assert lines == [lines[0]] + lines[1..];
      if IsReleaseLine(lines[0]) then [lines[0]] + rest else rest
  }

  /** The filter keeps git's order: filtering a listing piece by piece and
      joining the results is filtering the whole listing. */
  lemma {:induction false} ReleaseLinesAppend(a: seq<string>, b: seq<string>)
    ensures ReleaseLines(a + b) == ReleaseLines(a) + ReleaseLines(b)
  {
    if |a| == 0 {
      assert a + b == b;
    } else {
      var ab := a + b;
      assert ab[1..] == a[1..] + b;
      assert ab[0] == a[0];
      ReleaseLinesAppend(a[1..], b);
      var rest := ReleaseLines(a[1..]);
      if IsReleaseLine(a[0]) {
        calc {
          ReleaseLines(ab);
          [a[0]] + ReleaseLines(a[1..] + b);
          [a[0]] + (rest + ReleaseLines(b));
          ([a[0]] + rest) + ReleaseLines(b);
        }
      }
    }
  }

  /** A single line is kept exactly when it is a release line. */
  lemma ReleaseLinesSingle(x: string)
    ensures ReleaseLines([x]) == if IsReleaseLine(x) then [x] else []
  {
    assert [x][1..] == [];
  }

  /** One entry per kept line, in order; fails on the first line whose
      minor `semver` rejects. */
  function Entries(names: seq<string>): (r: Result<seq<ReleaseBranch>, Error>)
    requires forall i :: 0 <= i < |names| ==> IsReleaseLine(names[i])
    ensures r.Success? <==> forall i :: 0 <= i < |names| ==> ValidMinor(MinorDigits(names[i]))
    ensures r.Success? ==> |r.value| == |names|
    ensures r.Success? ==> forall i :: 0 <= i < |names| ==>
      r.value[i] == ReleaseBranch(names[i], Version(MAJOR, DigitsValue(MinorDigits(names[i])), 0))
  {
    if |names| == 0 then Success([])
    else
      var first :- EntryFor(names[0]);
      var rest :- Entries(names[1..]);
      Success([first] + rest)
  }

  /** The entry a kept line contributes, stated directly. */
  function ExpectedEntry(line: string): ReleaseBranch
    requires IsReleaseLine(line)
  {
    ReleaseBranch(line, Version(MAJOR, DigitsValue(MinorDigits(line)), 0))
  }

  /** `getReleaseBranches` over the lines of `git branch -r`. */
  function BuildCatalog(lines: seq<string>): (r: Result<seq<ReleaseBranch>, Error>)
    ensures r.Success? <==> forall i :: 0 <= i < |lines| && IsReleaseLine(lines[i]) ==> ValidMinor(MinorDigits(lines[i]))
    ensures r.Success? ==> SortedBy(r.value, MinorOf)
    ensures r.Success? ==> forall i :: 0 <= i < |r.value| ==>
      IsReleaseLine(r.value[i].branch) && r.value[i] == ExpectedEntry(r.value[i].branch)
    ensures r.Success? ==> forall x :: IsReleaseLine(x) ==> multiset(r.value)[ExpectedEntry(x)] == multiset(lines)[x]
  {
    var names := ReleaseLines(lines);
    assert forall i :: 0 <= i < |lines| && IsReleaseLine(lines[i]) ==> lines[i] in names by {
      forall i | 0 <= i < |lines| && IsReleaseLine(lines[i]) ensures lines[i] in names {
        assert lines[i] in multiset(lines);
      }
    }
    var entries :- Entries(names);
    var sorted := SortBy(entries, MinorOf);
    CatalogContents(names, entries, sorted);
    Success(sorted)
  }

  lemma CatalogContents(names: seq<string>, entries: seq<ReleaseBranch>, sorted: seq<ReleaseBranch>)
    requires forall i :: 0 <= i < |names| ==> IsReleaseLine(names[i])
    requires |entries| == |names|
    requires forall i :: 0 <= i < |names| ==> entries[i] == ExpectedEntry(names[i])
    requires multiset(sorted) == multiset(entries)
    ensures forall i :: 0 <= i < |sorted| ==> IsReleaseLine(sorted[i].branch) && sorted[i] == ExpectedEntry(sorted[i].branch)
    ensures forall x :: IsReleaseLine(x) ==> multiset(sorted)[ExpectedEntry(x)] == multiset(names)[x]
  {
    forall i | 0 <= i < |sorted|
      ensures IsReleaseLine(sorted[i].branch) && sorted[i] == ExpectedEntry(sorted[i].branch)
    {
      assert sorted[i] in multiset(entries);
      var k :| 0 <= k < |entries| && entries[k] == sorted[i];
    }
    forall x | IsReleaseLine(x)
      ensures multiset(sorted)[ExpectedEntry(x)] == multiset(names)[x]
    {
      EntryCount(names, entries, x);
    }
  }

  /** Each kept line contributes its entry once, and entries of different
      lines differ, so entry counts equal line counts. */
  lemma {:induction false} EntryCount(names: seq<string>, entries: seq<ReleaseBranch>, x: string)
    requires forall i :: 0 <= i < |names| ==> IsReleaseLine(names[i])
    requires |entries| == |names|
    requires forall i :: 0 <= i < |names| ==> entries[i] == ExpectedEntry(names[i])
    requires IsReleaseLine(x)
    ensures multiset(entries)[ExpectedEntry(x)] == multiset(names)[x]
  {
    if |names| > 0 {
      EntryCount(names[1..], entries[1..], x);
      ConsCount(names, x);
      ConsCount(entries, ExpectedEntry(x));
      assert ExpectedEntry(x).branch == x && entries[0].branch == names[0];
    }
  }

  lemma ConsCount<T>(s: seq<T>, y: T)
    requires |s| > 0
    ensures multiset(s)[y] == (if s[0] == y then 1 else 0) + multiset(s[1..])[y]
  {
    assert s == [s[0]] + s[1..];
  }

  /** `getReleaseBranches`: the catalog of the repository's remote branches.
      It exists exactly when `git branch -r` succeeds and every listed release
      branch has a minor `semver` accepts; it is sorted by minor and holds each
      listed release branch's entry as often as git lists the branch. */
  function ReleaseBranches(g: Repo): (r: Result<seq<ReleaseBranch>, Error>)
    ensures g.remoteBranches.Failure? ==> r == Failure(GitFailed(g.remoteBranches.error))
    ensures r.Success? <==>
              && g.remoteBranches.Success?
              && forall i :: 0 <= i < |g.remoteBranches.value| && IsReleaseLine(g.remoteBranches.value[i]) ==>
                   ValidMinor(MinorDigits(g.remoteBranches.value[i]))
    ensures r.Success? ==> SortedBy(r.value, MinorOf)
    ensures r.Success? ==> forall i :: 0 <= i < |r.value| ==>
              IsReleaseLine(r.value[i].branch) && r.value[i] == ExpectedEntry(r.value[i].branch)
    ensures r.Success? ==> forall x :: IsReleaseLine(x) ==>
              multiset(r.value)[ExpectedEntry(x)] == multiset(g.remoteBranches.value)[x]
  {
    var lines :- Lift(g.remoteBranches);
    BuildCatalog(lines)
  }

  /** The catalog is ordered by the source's own comparator, `semver`'s
      `compare`: no entry compares greater than a later one. */
  lemma CatalogSortedBySemver(lines: seq<string>, i: int, j: int)
    requires BuildCatalog(lines).Success?
    requires 0 <= i < j < |BuildCatalog(lines).value|
    ensures Compare(BuildCatalog(lines).value[i].version, BuildCatalog(lines).value[j].version) <= 0
  {
    var cat := BuildCatalog(lines).value;
    assert MinorOf(cat[i]) <= MinorOf(cat[j]);
    CompareByMinor(cat[i].version, cat[j].version);
  }

  /** Entries of one minor keep git's order: when a minor is listed under
      several names, the catalog holds their entries in the order git listed
      the lines, which is the order `[0]`, both scans and `find` see. */
  lemma CatalogStable(lines: seq<string>, m: nat)
    requires BuildCatalog(lines).Success?
    ensures Entries(ReleaseLines(lines)).Success?
    ensures WithKey(BuildCatalog(lines).value, MinorOf, m) == WithKey(Entries(ReleaseLines(lines)).value, MinorOf, m)
  {
    SortByStable(Entries(ReleaseLines(lines)).value, MinorOf, m);
  }

  /** No two different release lines encode the same minor. */
  ghost predicate DistinctMinors(lines: seq<string>) {
    forall i, j ::
      (&& 0 <= i < |lines| && 0 <= j < |lines|
       && IsReleaseLine(lines[i]) && IsReleaseLine(lines[j])
       && DigitsValue(MinorDigits(lines[i])) == DigitsValue(MinorDigits(lines[j])))
      ==> lines[i] == lines[j]
  }

  /** The catalog depends only on which lines git lists, not on their order,
      as long as no minor is listed under two different names. (Which
      invalid line a failure reports does depend on the order.) */
  lemma CatalogOrderIndependent(lines1: seq<string>, lines2: seq<string>)
    requires multiset(lines1) == multiset(lines2)
    requires DistinctMinors(lines1)
    ensures BuildCatalog(lines1).Success? <==> BuildCatalog(lines2).Success?
    ensures BuildCatalog(lines1).Success? ==> BuildCatalog(lines1).value == BuildCatalog(lines2).value
  {
    if BuildCatalog(lines1).Success? {
      SameSuccess(lines1, lines2);
      var c1, c2 := BuildCatalog(lines1).value, BuildCatalog(lines2).value;
      SameEntries(lines1, lines2);
      CatalogKeyInjective(lines1);
      SortedPermutationsEqual(c1, c2, MinorOf);
    } else if BuildCatalog(lines2).Success? {
      SameSuccess(lines2, lines1);
    }
  }

  lemma SameSuccess(lines1: seq<string>, lines2: seq<string>)
    requires multiset(lines1) == multiset(lines2)
    requires BuildCatalog(lines1).Success?
    ensures BuildCatalog(lines2).Success?
  {
    forall i | 0 <= i < |lines2| && IsReleaseLine(lines2[i])
      ensures ValidMinor(MinorDigits(lines2[i]))
    {
      assert lines2[i] in multiset(lines1);
      var k :| 0 <= k < |lines1| && lines1[k] == lines2[i];
    }
  }

  lemma SameEntries(lines1: seq<string>, lines2: seq<string>)
    requires multiset(lines1) == multiset(lines2)
    requires BuildCatalog(lines1).Success? && BuildCatalog(lines2).Success?
    ensures multiset(BuildCatalog(lines1).value) == multiset(BuildCatalog(lines2).value)
  {
    var c1, c2 := BuildCatalog(lines1).value, BuildCatalog(lines2).value;
    forall e: ReleaseBranch
      ensures multiset(c1)[e] == multiset(c2)[e]
    {
      CatalogEntryCount(lines1, e);
      CatalogEntryCount(lines2, e);
    }
  }

  /** How often an entry occurs in the catalog: as often as its line, if it
      is the entry of a release line, and never otherwise. */
  lemma CatalogEntryCount(lines: seq<string>, e: ReleaseBranch)
    requires BuildCatalog(lines).Success?
    ensures multiset(BuildCatalog(lines).value)[e] ==
      if IsReleaseLine(e.branch) && e == ExpectedEntry(e.branch) then multiset(lines)[e.branch] else 0
  {
    var c := BuildCatalog(lines).value;
    if e in multiset(c) {
      var k :| 0 <= k < |c| && c[k] == e;
    }
  }

  lemma CatalogKeyInjective(lines: seq<string>)
    requires DistinctMinors(lines)
    requires BuildCatalog(lines).Success?
    ensures KeyInjective(BuildCatalog(lines).value, MinorOf)
  {
    var c := BuildCatalog(lines).value;
    forall p, q | 0 <= p < |c| && 0 <= q < |c| && MinorOf(c[p]) == MinorOf(c[q])
      ensures c[p] == c[q]
    {
      var x, y := c[p].branch, c[q].branch;
      assert multiset(c)[ExpectedEntry(x)] == multiset(lines)[x];
      assert multiset(c)[ExpectedEntry(y)] == multiset(lines)[y];
      assert c[p] in multiset(c) && c[q] in multiset(c);
      assert x in multiset(lines) && y in multiset(lines);
      var i :| 0 <= i < |lines| && lines[i] == x;
      var j :| 0 <= j < |lines| && lines[j] == y;
    }
  }
}
