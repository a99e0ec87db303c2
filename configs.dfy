/**
 * The configuration of the vanity server (the Config and PathConfig structs of
 * handler.go) and the per-route resolution that newHandler performs on each
 * entry of the `paths` map: path, inherited redirect paths, Cache-Control
 * header, display template and version-control system.
 */
module Configs {
  import opened Wrappers
  import opened GoStrings

  /** Go's uint64: the type of `cache_max_age`. */
  type uint64 = x: nat | x < 0x1_0000_0000_0000_0000

  /** One configured route. `path` and `cacheControl` are filled in by newHandler. */
  datatype PathConfig = PathConfig(
    path: string,
    cacheAge: Option<uint64>,
    redirPaths: seq<string>,
    repo: string,
    redir: string,
    display: string,
    vcs: string,
    cacheControl: string)

  /** An entry of the `links` list, shown on the index page. */
  datatype Link = Link(title: string, url: string)

  /** The parsed configuration file. */
  datatype Config = Config(
    title: string,
    host: string,
    links: seq<Link>,
    cacheAge: Option<uint64>,
    paths: map<string, PathConfig>,
    redirPaths: seq<string>,
    src: string)

  const GitHubPrefix: string := "https://github.com/"
  const BitbucketPrefix: string := "https://bitbucket.org"
  const CacheControlPrefix: string := "public, max-age="
  /** 24 hours, in seconds. */
  const DefaultCacheAge: uint64 := 86400

  /** The version-control systems a configuration may name. */
  predicate KnownVcs(vcs: string) {
    vcs == "bzr" || vcs == "git" || vcs == "hg" || vcs == "svn"
  }

  /** The Cache-Control header for a maximum age of `age` seconds. */
  function MaxAgeHeader(age: uint64): (h: string)
    ensures HasPrefix(h, CacheControlPrefix)
  {
    CacheControlPrefix + FormatUint(age)
  }

  /** Reads the maximum age back out of a Cache-Control header. */
  function MaxAgeOf(header: string): (age: Option<nat>) {
    if HasPrefix(header, CacheControlPrefix)
       && |header| > |CacheControlPrefix|
       && forall i :: |CacheControlPrefix| <= i < |header| ==> IsDigit(header[i])
    then Some(ParseDigits(header[|CacheControlPrefix|..]))
    else None
  }

  /** The header carries its age: MaxAgeOf inverts MaxAgeHeader. */
  lemma MaxAgeRoundTrip(age: uint64)
    ensures MaxAgeOf(MaxAgeHeader(age)) == Some(age)
  {
    var h := MaxAgeHeader(age);
    assert h[|CacheControlPrefix|..] == FormatUint(age);
    ParseFormatUint(age);
  }

  /** The header used by every route without its own `cache_max_age`. */
  function GlobalCacheControl(cfg: Config): (h: string)
    ensures MaxAgeOf(h) == Some(if cfg.cacheAge.Some? then cfg.cacheAge.value else DefaultCacheAge)
  {
    var age := if cfg.cacheAge.Some? then cfg.cacheAge.value else DefaultCacheAge;
    MaxAgeRoundTrip(age);
    MaxAgeHeader(age)
  }

  /** The go-source display template inferred for a repository host. */
  function InferDisplay(display: string, repo: string): (r: string)
    ensures display != "" ==> r == display
  {
    if display != "" then display
    else if HasPrefix(repo, GitHubPrefix) then
      repo + " " + repo + "/tree/master{/dir} " + repo + "/blob/master{/dir}/{file}#L{line}"
    else if HasPrefix(repo, BitbucketPrefix) then
      repo + " " + repo + "/src/default{/dir} " + repo + "/src/default{/dir}/{file}#{file}-{line}"
    else display
  }

  /** With no display given, only a GitHub or Bitbucket repository gets a template, and it starts with the repository. */
  lemma InferDisplayHosts(repo: string)
    ensures InferDisplay("", repo) != "" <==> HasPrefix(repo, GitHubPrefix) || HasPrefix(repo, BitbucketPrefix)
    ensures HasPrefix(InferDisplay("", repo), repo + " ")
         || (!HasPrefix(repo, GitHubPrefix) && !HasPrefix(repo, BitbucketPrefix))
  {
    if HasPrefix(repo, GitHubPrefix) || HasPrefix(repo, BitbucketPrefix) {
      var d := InferDisplay("", repo);
      assert d == (repo + " ") + d[|repo + " "|..];
    }
  }

  /** The version-control system is settled: known, or absent on a redirect-only route. */
  predicate VcsSettled(e: PathConfig) {
    KnownVcs(e.vcs) || (e.vcs == "" && e.repo == "" && e.redir != "")
  }

  /** The conditions under which newHandler rejects an entry. */
  predicate VcsError(e: PathConfig) {
    if e.vcs != "" then !KnownVcs(e.vcs)
    else !HasPrefix(e.repo, GitHubPrefix) && !(e.repo == "" && e.redir != "")
  }

  /**
   * The body of newHandler's loop for the entry `e` stored under `key`: the
   * resolved entry, or the error that aborts the whole build.
   */
  function ResolveEntry(cfg: Config, key: string, e: PathConfig): (r: Result<PathConfig, string>)
    ensures r.Failure? <==> VcsError(e)
    ensures r.Failure? ==> HasPrefix(r.error, "configuration for " + key + ": ")
    ensures r.Success? ==> r.value.path == key && VcsSettled(r.value)
  {
    var withPath := e.(path := key);
    var withRedir := if |withPath.redirPaths| < 1 then withPath.(redirPaths := cfg.redirPaths) else withPath;
    var withCache := withRedir.(cacheControl :=
      if e.cacheAge.Some? then MaxAgeHeader(e.cacheAge.value) else GlobalCacheControl(cfg));
    var withDisplay := withCache.(display := InferDisplay(e.display, e.repo));
    if e.vcs != "" then
      if !KnownVcs(e.vcs) then Failure("configuration for " + key + ": unknown VCS " + e.vcs)
      else Success(withDisplay)
    else if HasPrefix(e.repo, GitHubPrefix) then Success(withDisplay.(vcs := "git"))
    else if e.repo == "" && e.redir != "" then Success(withDisplay)
    else Failure("configuration for " + key + ": cannot infer VCS from " + e.repo)
  }

  /** Resolving an entry reads only the global cache age and redirect paths of the configuration. */
  lemma ResolveReadsGlobals(cfg: Config, other: Config, key: string, e: PathConfig)
    requires cfg.cacheAge == other.cacheAge && cfg.redirPaths == other.redirPaths
    ensures ResolveEntry(cfg, key, e) == ResolveEntry(other, key, e)
  {
    assert GlobalCacheControl(cfg) == GlobalCacheControl(other);
  }

  /**
   * What newHandler stores in a resolved entry: the key as its path, the
   * global redirect paths when it has none, the Cache-Control header of the
   * first age given (per route, then global, then 24 hours), the inferred
   * display template, and the given or inferred VCS; the remaining fields are
   * kept.
   */
  lemma ResolvedFields(cfg: Config, key: string, e: PathConfig)
    requires ResolveEntry(cfg, key, e).Success?
    ensures var v := ResolveEntry(cfg, key, e).value;
      && v.repo == e.repo && v.redir == e.redir && v.cacheAge == e.cacheAge
      && v.redirPaths == (if |e.redirPaths| < 1 then cfg.redirPaths else e.redirPaths)
      && v.cacheControl == MaxAgeHeader(
           if e.cacheAge.Some? then e.cacheAge.value
           else if cfg.cacheAge.Some? then cfg.cacheAge.value
           else DefaultCacheAge)
      && v.display == InferDisplay(e.display, e.repo)
      && (e.vcs != "" ==> v.vcs == e.vcs)
      && (e.vcs == "" && HasPrefix(e.repo, GitHubPrefix) ==> v.vcs == "git")
      && (e.vcs == "" && !HasPrefix(e.repo, GitHubPrefix) ==> v.vcs == "" && v.repo == "" && v.redir != "")
  {
  }

  /** A resolved entry's header names the age that took precedence, and it can be read back. */
  lemma CacheControlPrecedence(cfg: Config, key: string, e: PathConfig)
    requires ResolveEntry(cfg, key, e).Success?
    ensures MaxAgeOf(ResolveEntry(cfg, key, e).value.cacheControl) ==
      Some(if e.cacheAge.Some? then e.cacheAge.value
           else if cfg.cacheAge.Some? then cfg.cacheAge.value
           else 86400)
  {
    ResolvedFields(cfg, key, e);
    MaxAgeRoundTrip(if e.cacheAge.Some? then e.cacheAge.value
                    else if cfg.cacheAge.Some? then cfg.cacheAge.value
                    else DefaultCacheAge);
  }
}
