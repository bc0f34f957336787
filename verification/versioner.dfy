/** The versioner object (`LocalVersioner` over `BaseVersioner`): a fixed
    configuration and the one mutable field, the cached head version. The
    git repository is passed to each call, as the process's view of it at
    that moment. */
module Versioner {
  import opened Wrappers
  import opened SemVer
  import opened Base
  import opened Git
  import opened Resolve
  import opened HeadCache
  import opened Build

  class LocalVersioner {
    const config: Config
    /** `cachedVersion`, `None` standing for `null` */
    var cachedVersion: Option<string>
    /** How many times `getVersionForHead` has run on this instance. */
    ghost var computations: nat

    constructor (config: Config)
      ensures this.config == config
      ensures cachedVersion == None && computations == 0
    {
      this.config := config;
      cachedVersion := None;
      computations := 0;
    }

    /** `getVersionForHead` */
    method GetVersionForHead(g: Repo) returns (r: Result<string, Error>)
      modifies this
      ensures r == VersionForHead(g, config)
      ensures cachedVersion == old(cachedVersion)
      ensures computations == old(computations) + 1
    {
      r := VersionForHead(g, config);
      computations := computations + 1;
    }

    /** `getVersionForHeadCached`: computes only while nothing is cached. */
    method GetVersionForHeadCached(g: Repo) returns (r: Result<string, Error>)
      modifies this
      ensures (r, cachedVersion) == CachedVersionForHead(old(cachedVersion), g, config)
      ensures old(cachedVersion).Some? ==> computations == old(computations)
      ensures old(cachedVersion).None? ==> computations == old(computations) + 1
    {
      if cachedVersion.None? {
        var computed := GetVersionForHead(g);
        if computed.Success? {
          cachedVersion := Some(computed.value);
        }
        r := computed;
      } else {
        r := Success(cachedVersion.value);
      }
    }

    /** `getMASBuildVersion` */
    method GetMASBuildVersion(g: Repo) returns (r: Result<string, Error>)
      modifies this
      ensures (r, cachedVersion) == MasBuildVersion(g, config, old(cachedVersion))
    {
      var branch := HeadAndBranch(g, config);
      if branch.Failure? {
        r := Failure(branch.error);
      } else if !IsReleaseBranch(branch.value.1) {
        r := Success("0");
      } else {
        var text := GetVersionForHeadCached(g);
        if text.Failure? {
          r := Failure(text.error);
        } else {
          var parsed := ParseVersion(text.value);
          if parsed.None? {
            r := Failure(InvalidVersion(text.value));
          } else {
            r := Success(BuildNumber(parsed.value));
          }
        }
      }
    }
  }

  /** Two successive cached calls on one instance return the same text once
      the first has succeeded, even if the repository changed in between.
      `computed` is how often `getVersionForHead` ran: once after a first
      success, twice after a first failure. */
  method CachedTwice(config: Config, g1: Repo, g2: Repo)
    returns (first: Result<string, Error>, second: Result<string, Error>, ghost computed: nat)
    ensures first == VersionForHead(g1, config)
    ensures first.Success? ==> second == first
    ensures first.Failure? ==> second == VersionForHead(g2, config)
    ensures computed == if first.Success? then 1 else 2
  {
    var v := new LocalVersioner(config);
    first := v.GetVersionForHeadCached(g1);
    second := v.GetVersionForHeadCached(g2);
    computed := v.computations;
  }
}
