/** `getVersionForHeadCached` (src/version-base.ts): the head version is
    computed on the first call and the stored text is returned from then on.
    The cache is the value of the `cachedVersion` field (`None` for `null`);
    this module gives the transition one call makes. */
module HeadCache {
  import opened Wrappers
  import opened Base
  import opened Git
  import opened Resolve

  /** One call: the answer, and the cache afterwards. A failed computation
      leaves the cache empty, because the assignment never happens. */
  function CachedVersionForHead(cache: Option<string>, g: Repo, cfg: Config): (out: (Result<string, Error>, Option<string>))
    ensures cache.Some? ==> out == (Success(cache.value), cache)
    ensures cache.None? && out.0.Success? ==> out.1 == Some(out.0.value)
    ensures cache.None? && out.0.Failure? ==> out.1 == None
  {
    match cache
    case Some(text) => (Success(text), cache)
    case None =>
      var computed := VersionForHead(g, cfg);
      (computed, if computed.Success? then Some(computed.value) else None)
  }

  /** The first call on an empty cache answers with a fresh computation. */
  lemma FirstCallComputes(g: Repo, cfg: Config)
    ensures CachedVersionForHead(None, g, cfg).0 == VersionForHead(g, cfg)
  {
  }

  /** Once a call has succeeded, every later call returns the same text and
      keeps the cache as it is, whatever the repository looks like then. */
  lemma CachedIsStable(cache: Option<string>, g1: Repo, g2: Repo, cfg: Config)
    requires CachedVersionForHead(cache, g1, cfg).0.Success?
    ensures var (first, after) := CachedVersionForHead(cache, g1, cfg);
      CachedVersionForHead(after, g2, cfg) == (first, after)
  {
  }
}
