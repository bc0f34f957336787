/** `getCurrentBranch` (src/version-local.ts): the branch HEAD is on, and for
    a detached HEAD the remote release or default branch that contains it. */
module HeadBranch {
  import opened Wrappers
  import opened Text
  import opened Base
  import opened ArrayOps
  import opened Git

  /** The literal git prints for `--abbrev-ref` when HEAD is detached. */
  const DETACHED: string := "HEAD"

  /** `git branch` prints a symbolic ref as `origin/HEAD -> origin/master`. */
  predicate IsAliasLine(line: string) {
    Contains(line, " -> ")
  }

  /** A stripped name the detached-HEAD scan may pick. */
  predicate IsCandidate(cfg: Config, name: string) {
    IsReleaseBranch(name) || name == cfg.defaultBranch
  }

  /** A line of `git branch --contains` the scan keeps. */
  predicate KeepsLine(cfg: Config, line: string) {
    !IsAliasLine(line) && IsCandidate(cfg, StripOrigin(line))
  }

  /** The non-alias lines, stripped of `origin/`, that name a release branch
      or the default branch, in their original order. */
  function Candidates(cfg: Config, lines: seq<string>): (r: seq<string>)
    ensures forall i :: 0 <= i < |r| ==> IsCandidate(cfg, r[i])
    ensures forall i :: 0 <= i < |lines| && KeepsLine(cfg, lines[i]) ==> StripOrigin(lines[i]) in r
    ensures forall x :: x in r ==> exists i :: 0 <= i < |lines| && KeepsLine(cfg, lines[i]) && StripOrigin(lines[i]) == x
    ensures |r| <= |lines|
    ensures (forall i :: 0 <= i < |lines| ==> !KeepsLine(cfg, lines[i])) ==> r == []
  {
    if |lines| == 0 then []
    else
      var rest := Candidates(cfg, lines[1..]);
      var name := StripOrigin(lines[0]);
      assert forall x :: x in rest ==> exists i :: 0 <= i < |lines| && KeepsLine(cfg, lines[i]) && StripOrigin(lines[i]) == x by {
        forall x | x in rest
          ensures exists i :: 0 <= i < |lines| && KeepsLine(cfg, lines[i]) && StripOrigin(lines[i]) == x
        {
          var k :| 0 <= k < |lines[1..]| && KeepsLine(cfg, lines[1..][k]) && StripOrigin(lines[1..][k]) == x;
          assert lines[k + 1] == lines[1..][k];
        }
      }
      if KeepsLine(cfg, lines[0]) then [name] + rest else rest
  }

  /** The positions, from `from` on, of the lines the scan keeps, in
      increasing order. */
  ghost function KeptIndices(cfg: Config, lines: seq<string>, from: nat): (ks: seq<nat>)
    requires from <= |lines|
    ensures forall k :: 0 <= k < |ks| ==> from <= ks[k] < |lines| && KeepsLine(cfg, lines[ks[k]])
    ensures forall k, l :: 0 <= k < l < |ks| ==> ks[k] < ks[l]
    ensures forall i :: from <= i < |lines| && KeepsLine(cfg, lines[i]) ==> i in ks
    decreases |lines| - from
  {
    if from == |lines| then []
    else if KeepsLine(cfg, lines[from]) then [from] + KeptIndices(cfg, lines, from + 1)
    else KeptIndices(cfg, lines, from + 1)
  }

  /** `c[k]` is the line at position `ks[k]`, stripped of `origin/`. */
  ghost predicate Follows(c: seq<string>, lines: seq<string>, ks: seq<nat>) {
    |c| == |ks| && forall k :: 0 <= k < |c| ==> ks[k] < |lines| && c[k] == StripOrigin(lines[ks[k]])
  }

  /** The candidates follow git's listing: the k-th candidate is the k-th
      kept line stripped of `origin/`, so the order and the repetitions of
      `git branch --contains` carry over to the sort's input. */
  lemma CandidatesFollowGit(cfg: Config, lines: seq<string>)
    ensures Follows(Candidates(cfg, lines), lines, KeptIndices(cfg, lines, 0))
  {
    CandidatesFrom(cfg, lines, 0);
    assert lines[0..] == lines;
  }

  lemma {:induction false} CandidatesFrom(cfg: Config, lines: seq<string>, from: nat)
    requires from <= |lines|
    ensures Follows(Candidates(cfg, lines[from..]), lines, KeptIndices(cfg, lines, from))
    decreases |lines| - from
  {
    if from < |lines| {
      CandidatesFrom(cfg, lines, from + 1);
      var t := lines[from..];
      assert t[1..] == lines[from + 1..];
      if KeepsLine(cfg, lines[from]) {
        FollowsCons(lines, from, Candidates(cfg, lines[from + 1..]), KeptIndices(cfg, lines, from + 1));
      }
    }
  }

  lemma FollowsCons(lines: seq<string>, from: nat, c: seq<string>, ks: seq<nat>)
    requires from < |lines| && Follows(c, lines, ks)
    ensures Follows([StripOrigin(lines[from])] + c, lines, [from] + ks)
  {
    var c', ks' := [StripOrigin(lines[from])] + c, [from] + ks;
    forall k | 0 <= k < |c'|
      ensures ks'[k] < |lines| && c'[k] == StripOrigin(lines[ks'[k]])
    {
      if k > 0 {
        assert c'[k] == c[k - 1] && ks'[k] == ks[k - 1];
      }
    }
  }

  /** The sort key the tie-break amounts to: the default branch first, then
      release branches by ascending minor. */
  function Rank(cfg: Config, name: string): nat {
    if name == cfg.defaultBranch then 0
    else match MatchRelease(name)
      case Some(d) => 1 + DigitsValue(d)
      case None => 0
  }

  function RankKey(cfg: Config): string -> nat {
    name => Rank(cfg, name)
  }

  /** The comparator the source passes to `sort`. */
  function Comparator(cfg: Config, a: string, b: string): int
    requires IsCandidate(cfg, a) && IsCandidate(cfg, b)
  {
    if a == cfg.defaultBranch then -1
    else if b == cfg.defaultBranch then 1
    else ReleaseMinor(a) - ReleaseMinor(b)
  }

  /** `Rank` orders candidates exactly as the comparator does (except for
      comparing the default branch with itself, where the comparator answers
      -1 both ways and the order of the two equal strings is immaterial). */
  lemma ComparatorAgreesWithRank(cfg: Config, a: string, b: string)
    requires IsCandidate(cfg, a) && IsCandidate(cfg, b)
    requires a != cfg.defaultBranch || b != cfg.defaultBranch
    ensures Comparator(cfg, a, b) < 0 <==> Rank(cfg, a) < Rank(cfg, b)
    ensures Comparator(cfg, a, b) == 0 <==> Rank(cfg, a) == Rank(cfg, b)
  {
  }

  /** `getCurrentBranch(backupSha)` */
  function CurrentBranch(g: Repo, cfg: Config, backupSha: string): (r: Result<string, Error>)
  {
    var current :- Lift(g.abbrevRefHead);
    if current != DETACHED then Success(current)
    else
      var lines :- Lift(g.remoteBranchesContaining(backupSha));
      var candidates := Candidates(cfg, lines);
      if |candidates| == 0 then Success(current)
      else Success(ORIGIN + SortBy(candidates, RankKey(cfg))[0])
  }

  /** On a branch, the branch name is returned as git printed it. */
  lemma AttachedHead(g: Repo, cfg: Config, backupSha: string)
    requires g.abbrevRefHead.Success? && g.abbrevRefHead.value != DETACHED
    ensures CurrentBranch(g, cfg, backupSha) == Success(g.abbrevRefHead.value)
  {
  }

  /** Detached, with no release or default branch containing the commit: the
      literal `HEAD` is returned. */
  lemma DetachedWithoutCandidates(g: Repo, cfg: Config, backupSha: string)
    requires g.abbrevRefHead == Success(DETACHED)
    requires g.remoteBranchesContaining(backupSha).Success?
    requires forall i :: 0 <= i < |g.remoteBranchesContaining(backupSha).value| ==>
      !KeepsLine(cfg, g.remoteBranchesContaining(backupSha).value[i])
    ensures CurrentBranch(g, cfg, backupSha) == Success(DETACHED)
  {
  }

  /** Detached, with candidates: `origin/` followed by the earliest candidate
      of least rank, i.e. the default branch when it contains the commit and
      otherwise the release branch with the smallest minor. */
  lemma DetachedPicksOldest(g: Repo, cfg: Config, backupSha: string)
    requires g.abbrevRefHead == Success(DETACHED)
    requires g.remoteBranchesContaining(backupSha).Success?
    requires |Candidates(cfg, g.remoteBranchesContaining(backupSha).value)| > 0
    ensures var c := Candidates(cfg, g.remoteBranchesContaining(backupSha).value);
      exists i :: IsFirstMin(c, RankKey(cfg), i) && CurrentBranch(g, cfg, backupSha) == Success(ORIGIN + c[i])
  {
    var c := Candidates(cfg, g.remoteBranchesContaining(backupSha).value);
    var key := RankKey(cfg);
    SortHeadIsFirstMin(c, key);
    var i := FirstMinIndex(c, key);
    assert IsFirstMin(c, key, i);
  }

  /** The default branch wins whenever it contains the commit. */
  lemma DetachedPrefersDefault(g: Repo, cfg: Config, backupSha: string)
    requires g.abbrevRefHead == Success(DETACHED)
    requires g.remoteBranchesContaining(backupSha).Success?
    requires cfg.defaultBranch in Candidates(cfg, g.remoteBranchesContaining(backupSha).value)
    ensures CurrentBranch(g, cfg, backupSha) == Success(ORIGIN + cfg.defaultBranch)
  {
    var c := Candidates(cfg, g.remoteBranchesContaining(backupSha).value);
    var key := RankKey(cfg);
    SortHeadIsFirstMin(c, key);
    var i := FirstMinIndex(c, key);
    var k :| 0 <= k < |c| && c[k] == cfg.defaultBranch;
    assert key(c[k]) == 0;
    assert key(c[i]) == 0;
  }

  /** Otherwise the release branch with the smallest minor wins, the first
      listed among equals. */
  lemma DetachedPicksSmallestMinor(g: Repo, cfg: Config, backupSha: string)
    requires g.abbrevRefHead == Success(DETACHED)
    requires g.remoteBranchesContaining(backupSha).Success?
    requires |Candidates(cfg, g.remoteBranchesContaining(backupSha).value)| > 0
    requires cfg.defaultBranch !in Candidates(cfg, g.remoteBranchesContaining(backupSha).value)
    ensures var c := Candidates(cfg, g.remoteBranchesContaining(backupSha).value);
      exists i :: 0 <= i < |c| && CurrentBranch(g, cfg, backupSha) == Success(ORIGIN + c[i])
        && SmallestMinorFirst(c, i)
  {
    var c := Candidates(cfg, g.remoteBranchesContaining(backupSha).value);
    SortHeadIsFirstMin(c, RankKey(cfg));
    var i := FirstMinIndex(c, RankKey(cfg));
    RankMinIsSmallestMinor(cfg, c, i);
  }

  /** `c[i]` is a release branch of least minor in `c`, and no earlier
      element has that minor. */
  ghost predicate SmallestMinorFirst(c: seq<string>, i: int) {
    && 0 <= i < |c|
    && IsReleaseBranch(c[i])
    && (forall j :: 0 <= j < |c| && IsReleaseBranch(c[j]) ==> ReleaseMinor(c[i]) <= ReleaseMinor(c[j]))
    && (forall j :: 0 <= j < i && IsReleaseBranch(c[j]) ==> ReleaseMinor(c[i]) < ReleaseMinor(c[j]))
  }

  lemma RankMinIsSmallestMinor(cfg: Config, c: seq<string>, i: int)
    requires forall j :: 0 <= j < |c| ==> IsCandidate(cfg, c[j]) && c[j] != cfg.defaultBranch
    requires IsFirstMin(c, RankKey(cfg), i)
    ensures SmallestMinorFirst(c, i)
  {
    forall j | 0 <= j < |c|
      ensures RankKey(cfg)(c[j]) == 1 + ReleaseMinor(c[j])
    {
    }
  }
}
