/** The git queries the local versioner makes, as oracles. Each field is the
    outcome of one git invocation on a fixed repository state; a `Failure`
    carries the message of a git process that exited unsuccessfully. Nothing
    is assumed about how the answers relate to one another, so every lemma
    stated over a `Repo` holds for every repository git could present. */
module Git {
  import opened Wrappers

  datatype Repo = Repo(
    /** `git rev-parse HEAD`, trimmed */
    revParseHead: Result<string, string>,
    /** `git rev-parse --abbrev-ref HEAD`, trimmed */
    abbrevRefHead: Result<string, string>,
    /** `git branch -r`, one trimmed line per entry */
    remoteBranches: Result<seq<string>, string>,
    /** `git branch --contains <sha> --remote`, one trimmed line per entry */
    remoteBranchesContaining: string -> Result<seq<string>, string>,
    /** `git merge-base <a> <b>`, trimmed */
    mergeBase: (string, string) -> Result<string, string>,
    /** `git rev-list --count <from>..<to>`, parsed */
    revListCount: (string, string) -> Result<nat, string>)

  /** Why resolving a version can fail. */
  datatype Error =
    /** a git process failed */
    | GitFailed(message: string)
    /** the current release branch has no remote-tracking counterpart */
    | ReleaseBranchNotPushed
    /** no release branch exists, and the source reads a property of
        `undefined` */
    | EmptyCatalog
    /** no release branch has the previous minor, and the source reads a
        property of `undefined` */
    | NoPreviousRelease(minor: nat)
    /** `semver.parse` rejected a version string, and the source reads a
        property of `null` */
    | InvalidVersion(text: string)

  /** An oracle answer with its failure turned into a resolution error. */
  function Lift<T>(r: Result<T, string>): (l: Result<T, Error>)
    ensures r.Success? ==> l == Success(r.value)
    ensures r.Failure? ==> l == Failure(GitFailed(r.error))
  {
    r.MapFailure(m => GitFailed(m))
  }
}
