/**
 * The vanity handler of handler.go: newHandler builds the sorted route table
 * from the parsed configuration, and ServeHTTP answers a request path with the
 * index page, a 404, a redirect, or the vanity page of the matched route.
 */
module Vanity {
  import opened Wrappers
  import opened GoStrings
  import opened Configs
  import opened Table
  import opened Resolver
  import opened ResolverProperties

  /** Some element of `slice` is a substring of `str`. */
  predicate InSlices(str: string, slice: seq<string>) {
    exists k :: 0 <= k < |slice| && Contains(str, slice[k])
  }

  /** StringInSlices: does any of the redirect paths occur in the subpath? */
  method StringInSlices(str: string, slice: seq<string>) returns (found: bool)
    ensures found <==> exists k, at: nat :: 0 <= k < |slice| && OccursAt(str, slice[k], at)
    ensures found == InSlices(str, slice)
  {
    for i := 0 to |slice|
      invariant forall k :: 0 <= k < i ==> !Contains(str, slice[k])
    {
      if Contains(str, slice[i]) {
        ContainsIffOccurs(str, slice[i]);
        return true;
      }
    }
    forall k | 0 <= k < |slice| ensures forall at: nat :: !OccursAt(str, slice[k], at) {
      ContainsIffOccurs(str, slice[k]);
    }
    return false;
  }

  /** The response ServeHTTP writes, without the HTTP transport. */
  datatype Response =
    | Index                     // the index page (indexTmpl)
    | NotFound                  // http.NotFound
    | Redirect(target: string)  // http.Redirect with status 302
    | VanityPage(cacheControl: string, route: PathConfig, subpath: string)  // vanityTmpl, after the header is set

  /** Whether the matched route redirects this request (file downloads). */
  predicate Redirects(e: PathConfig, subpath: string) {
    e.redir != "" && InSlices(subpath, e.redirPaths)
  }

  /** The response ServeHTTP gives for `path` when the table holds `s`. */
  function Dispatch(s: seq<PathConfig>, path: string): (r: Response)
    ensures r.Index? <==> Lookup(s, path).entry.None? && path == "/"
    ensures r.NotFound? <==>
      (Lookup(s, path).entry.None? && path != "/")
      || (Lookup(s, path).entry.Some?
          && !Redirects(s[Lookup(s, path).entry.value], Lookup(s, path).subpath)
          && s[Lookup(s, path).entry.value].repo == "")
    ensures r.Redirect? <==>
      Lookup(s, path).entry.Some? && Redirects(s[Lookup(s, path).entry.value], Lookup(s, path).subpath)
    ensures r.Redirect? ==>
      var m := Lookup(s, path).entry.value;
      s[m].redir + path[|s[m].path|..] == r.target
    ensures r.VanityPage? ==>
      var m := Lookup(s, path).entry.value;
      && Lookup(s, path).entry.Some?
      && !Redirects(s[m], Lookup(s, path).subpath)
      && s[m].repo != ""
      && r.cacheControl == s[m].cacheControl
      && r.subpath == Lookup(s, path).subpath
      && r.route == s[m].(path := TrimSuffix(s[m].path, "/"))
  {
    var pc := Lookup(s, path);
    if pc.entry.None? then
      if path != "/" then NotFound else Index
    else
      var e := s[pc.entry.value];
      if Redirects(e, pc.subpath) then Redirect(e.redir + TrimPrefix(path, e.path))
      else if e.repo == "" then NotFound
      else VanityPage(e.cacheControl, e.(path := TrimSuffix(e.path, "/")), pc.subpath)
  }

  /**
   * The table after ServeHTTP answered `path`: the vanity branch writes the
   * matched route's path back with one trailing "/" removed.
   */
  function AfterRequest(s: seq<PathConfig>, path: string): (t: seq<PathConfig>)
    ensures |t| == |s|
    ensures !Dispatch(s, path).VanityPage? ==> t == s
    ensures Dispatch(s, path).VanityPage? ==>
      var m := Lookup(s, path).entry.value;
      && t[m] == s[m].(path := TrimSuffix(s[m].path, "/"))
      && forall j :: 0 <= j < |s| && j != m ==> t[j] == s[j]
  {
    var pc := Lookup(s, path);
    if Dispatch(s, path).VanityPage? then
      var m := pc.entry.value;
      s[m := s[m].(path := TrimSuffix(s[m].path, "/"))]
    else s
  }

  /**
   * The write of the vanity branch changes the table exactly when the matched
   * route's path ends in "/"; then that route loses its last character.
   */
  lemma WriteBackChangesTable(s: seq<PathConfig>, path: string)
    ensures AfterRequest(s, path) != s <==>
      Dispatch(s, path).VanityPage? && HasSuffix(s[Lookup(s, path).entry.value].path, "/")
    ensures AfterRequest(s, path) != s ==>
      var m := Lookup(s, path).entry.value;
      AfterRequest(s, path)[m].path == s[m].path[..|s[m].path| - 1]
  {
    var t := AfterRequest(s, path);
    if Dispatch(s, path).VanityPage? {
      var m := Lookup(s, path).entry.value;
      if HasSuffix(s[m].path, "/") {
        assert |t[m].path| < |s[m].path|;
      } else {
        assert t[m] == s[m];
        assert t == s;
      }
    }
  }

  /** The table newHandler builds from `cfg`: one resolved entry per key, strictly ascending. */
  predicate BuiltFrom(cfg: Config, s: seq<PathConfig>) {
    && StrictlySorted(s)
    && (forall i :: 0 <= i < |s| ==>
          s[i].path in cfg.paths && ResolveEntry(cfg, s[i].path, cfg.paths[s[i].path]) == Success(s[i]))
    && (forall k :: k in cfg.paths ==> exists i :: 0 <= i < |s| && s[i].path == k)
  }

  /** Handler: the configuration (with its title defaulted) and the route table. */
  class Handler {
    const config: Config
    const pathConfigs: array<PathConfig>

    /** The table is the one newHandler built from the configuration. */
    ghost predicate Valid()
      reads this, pathConfigs
    {
      BuiltFrom(config, pathConfigs[..])
    }

    constructor (config: Config, pathConfigs: array<PathConfig>)
      ensures this.config == config && this.pathConfigs == pathConfigs
    {
      this.config := config;
      this.pathConfigs := pathConfigs;
    }

    /** ServeHTTP, including its write of the trimmed path into the shared route entry. */
    method ServeHTTP(path: string) returns (resp: Response)
      modifies pathConfigs
      ensures resp == Dispatch(old(pathConfigs[..]), path)
      ensures pathConfigs[..] == AfterRequest(old(pathConfigs[..]), path)
    {
      var pc := Find(pathConfigs, path);
      if pc.entry.None? {
        if path != "/" {
          return NotFound;
        }
        return Index;
      }
      var m := pc.entry.value;
      var e := pathConfigs[m];
      var redirect := false;
      if e.redir != "" {
        redirect := StringInSlices(pc.subpath, e.redirPaths);
      }
      if redirect {
        return Redirect(e.redir + TrimPrefix(path, e.path));
      }
      if e.repo == "" {
        return NotFound;
      }
      pathConfigs[m] := e.(path := TrimSuffix(e.path, "/"));
      resp := VanityPage(e.cacheControl, pathConfigs[m], pc.subpath);
    }

    /**
     * ServeHTTP without the write-back: the vanity page gets a copy of the
     * route with the trailing "/" removed and the table stays as built.
     */
    method ServeHTTPReadOnly(path: string) returns (resp: Response)
      ensures resp == Dispatch(pathConfigs[..], path)
      ensures Valid() && resp.Redirect? ==>
        var m := Lookup(pathConfigs[..], path).entry.value;
        && LongestPrefixEntry(pathConfigs[..], path, m)
        && resp.target == config.paths[pathConfigs[m].path].redir + path[|pathConfigs[m].path|..]
    {
      if Valid() { DispatchOnBuiltTable(config, pathConfigs[..], path); }
      var pc := Find(pathConfigs, path);
      if pc.entry.None? {
        if path != "/" {
          return NotFound;
        }
        return Index;
      }
      var e := pathConfigs[pc.entry.value];
      var redirect := false;
      if e.redir != "" {
        redirect := StringInSlices(pc.subpath, e.redirPaths);
      }
      if redirect {
        return Redirect(e.redir + TrimPrefix(path, e.path));
      }
      if e.repo == "" {
        return NotFound;
      }
      resp := VanityPage(e.cacheControl, e.(path := TrimSuffix(e.path, "/")), pc.subpath);
    }
  }

  /** Entry `e` is what newHandler's loop makes of the map entry stored under e.path. */
  predicate ResolvedFrom(cfg: Config, e: PathConfig) {
    e.path in cfg.paths && ResolveEntry(cfg, e.path, cfg.paths[e.path]) == Success(e)
  }

  /** One step of newHandler's loop keeps what the loop has built so far in order. */
  lemma ExtendResolved(cfg: Config, entries: seq<PathConfig>, remaining: set<string>, e: PathConfig)
    requires e.path in remaining && ResolvedFrom(cfg, e)
    requires forall i :: 0 <= i < |entries| ==> ResolvedFrom(cfg, entries[i]) && entries[i].path !in remaining
    requires forall k :: k in cfg.paths && k !in remaining ==>
      exists i :: 0 <= i < |entries| && entries[i].path == k
    requires DistinctPaths(entries)
    ensures var entries', remaining' := entries + [e], remaining - {e.path};
      && (forall i :: 0 <= i < |entries'| ==> ResolvedFrom(cfg, entries'[i]) && entries'[i].path !in remaining')
      && (forall k :: k in cfg.paths && k !in remaining' ==>
            exists i :: 0 <= i < |entries'| && entries'[i].path == k)
      && DistinctPaths(entries')
  {
    ExtendCovered(cfg.paths.Keys, entries, remaining, e);
    ExtendDistinct(entries, remaining, e);
    var entries', remaining' := entries + [e], remaining - {e.path};
    forall i | 0 <= i < |entries'| ensures ResolvedFrom(cfg, entries'[i]) && entries'[i].path !in remaining' {
      if i < |entries| { assert entries'[i] == entries[i]; }
    }
  }

  lemma ExtendCovered(keys: set<string>, entries: seq<PathConfig>, remaining: set<string>, e: PathConfig)
    requires forall k :: k in keys && k !in remaining ==> exists i :: 0 <= i < |entries| && entries[i].path == k
    ensures var entries', remaining' := entries + [e], remaining - {e.path};
      forall k :: k in keys && k !in remaining' ==> exists i :: 0 <= i < |entries'| && entries'[i].path == k
  {
    var entries', remaining' := entries + [e], remaining - {e.path};
    forall k | k in keys && k !in remaining' ensures exists i :: 0 <= i < |entries'| && entries'[i].path == k {
      if k == e.path {
        assert entries'[|entries|].path == k;
      } else {
        var i :| 0 <= i < |entries| && entries[i].path == k;
        assert entries'[i] == entries[i];
      }
    }
  }

  lemma ExtendDistinct(entries: seq<PathConfig>, remaining: set<string>, e: PathConfig)
    requires e.path in remaining && DistinctPaths(entries)
    requires forall i :: 0 <= i < |entries| ==> entries[i].path !in remaining
    ensures DistinctPaths(entries + [e])
  {
  }

  /**
   * The loop of newHandler over the paths map, in whatever order the map is
   * visited: every entry resolved, one per key, or the first error met.
   */
  method ResolveAll(cfg: Config) returns (r: Result<seq<PathConfig>, string>)
    ensures r.Failure? <==> exists k :: k in cfg.paths && VcsError(cfg.paths[k])
    ensures r.Failure? ==>
      exists k :: k in cfg.paths && VcsError(cfg.paths[k]) && HasPrefix(r.error, "configuration for " + k + ": ")
    ensures r.Success? ==>
      && (forall i :: 0 <= i < |r.value| ==> ResolvedFrom(cfg, r.value[i]))
      && (forall k :: k in cfg.paths ==> exists i :: 0 <= i < |r.value| && r.value[i].path == k)
      && DistinctPaths(r.value)
  {
    var remaining := cfg.paths.Keys;
    var entries: seq<PathConfig> := [];
    while remaining != {}
      invariant remaining <= cfg.paths.Keys
      invariant forall i :: 0 <= i < |entries| ==> ResolvedFrom(cfg, entries[i]) && entries[i].path !in remaining
      invariant forall k :: k in cfg.paths && k !in remaining ==>
        exists i :: 0 <= i < |entries| && entries[i].path == k
      invariant DistinctPaths(entries)
      decreases remaining
    {
      var p :| p in remaining;
      var e := ResolveEntry(cfg, p, cfg.paths[p]);
      if e.Failure? {
        assert VcsError(cfg.paths[p]) && HasPrefix(e.error, "configuration for " + p + ": ");
        return Failure(e.error);
      }
      assert e.value.path == p && ResolvedFrom(cfg, e.value);
      ExtendResolved(cfg, entries, remaining, e.value);
      entries := entries + [e.value];
      remaining := remaining - {p};
    }
    forall k | k in cfg.paths ensures !VcsError(cfg.paths[k]) {
      var i :| 0 <= i < |entries| && entries[i].path == k;
      assert ResolvedFrom(cfg, entries[i]);
    }
    return Success(entries);
  }

  /**
   * newHandler, after the YAML step: defaults the title to the host, resolves
   * every entry of the paths map, fails if any entry's VCS is unknown or cannot
   * be inferred, and sorts the table by path.
   */
  method NewHandler(cfg: Config) returns (r: Result<Handler, string>)
    ensures r.Failure? <==> exists k :: k in cfg.paths && VcsError(cfg.paths[k])
    ensures r.Failure? ==>
      exists k :: k in cfg.paths && VcsError(cfg.paths[k]) && HasPrefix(r.error, "configuration for " + k + ": ")
    ensures r.Success? ==>
      && fresh(r.value) && fresh(r.value.pathConfigs)
      && r.value.config == cfg.(title := if cfg.title == "" then cfg.host else cfg.title)
      && BuiltFrom(cfg, r.value.pathConfigs[..])
      && r.value.Valid()
  {
    var config := cfg;
    if config.title == "" {
      config := config.(title := config.host);
    }
    var resolved := ResolveAll(cfg);
    if resolved.Failure? {
      return Failure(resolved.error);
    }
    var entries := resolved.value;
    var pset := new PathConfig[|entries|](i requires 0 <= i < |entries| => entries[i]);
    assert pset[..] == entries;
    Sort(pset);
    BuiltTable(cfg, entries, pset[..]);
    TitleDoesNotMatter(cfg, config, pset[..]);
    var h := new Handler(config, pset);
    return Success(h);
  }

  /** Resolution reads only the global cache age and redirect paths of the configuration. */
  lemma TitleDoesNotMatter(cfg: Config, config: Config, s: seq<PathConfig>)
    requires config == cfg.(title := config.title)
    requires BuiltFrom(cfg, s)
    ensures BuiltFrom(config, s)
  {
    forall i | 0 <= i < |s| ensures ResolveEntry(config, s[i].path, config.paths[s[i].path]) == Success(s[i]) {
      ResolveReadsGlobals(config, cfg, s[i].path, cfg.paths[s[i].path]);
    }
  }

  /** The sorted permutation of the resolved entries is the table newHandler promises. */
  lemma BuiltTable(cfg: Config, entries: seq<PathConfig>, s: seq<PathConfig>)
    requires forall i :: 0 <= i < |entries| ==> ResolvedFrom(cfg, entries[i])
    requires forall k :: k in cfg.paths ==> exists i :: 0 <= i < |entries| && entries[i].path == k
    requires DistinctPaths(entries)
    requires Sorted(s) && multiset(s) == multiset(entries)
    ensures BuiltFrom(cfg, s)
  {
    forall i | 0 <= i < |s|
      ensures s[i].path in cfg.paths && ResolveEntry(cfg, s[i].path, cfg.paths[s[i].path]) == Success(s[i])
    {
      assert s[i] in multiset(entries);
      var j :| 0 <= j < |entries| && entries[j] == s[i];
      assert ResolvedFrom(cfg, entries[j]);
    }
    forall k | k in cfg.paths ensures exists i :: 0 <= i < |s| && s[i].path == k {
      var j :| 0 <= j < |entries| && entries[j].path == k;
      assert entries[j] in multiset(s);
      var i :| 0 <= i < |s| && s[i] == entries[j];
    }
    PermutationKeepsDistinct(entries, s);
    SortedDistinctIsStrict(s);
  }

  /**
   * The table newHandler builds does not depend on the order in which the
   * configuration map is walked or on the sorting algorithm: any two tables
   * built from one configuration are equal.
   */
  lemma BuiltTableUnique(cfg: Config, s: seq<PathConfig>, t: seq<PathConfig>)
    requires BuiltFrom(cfg, s) && BuiltFrom(cfg, t)
    ensures s == t
  {
    forall x ensures x in s <==> x in t {
      if x in s { BuiltEntryIn(cfg, s, t, x); }
      if x in t { BuiltEntryIn(cfg, t, s, x); }
    }
    StrictlySortedUnique(s, t);
  }

  lemma BuiltEntryIn(cfg: Config, s: seq<PathConfig>, t: seq<PathConfig>, x: PathConfig)
    requires BuiltFrom(cfg, s) && BuiltFrom(cfg, t) && x in s
    ensures x in t
  {
    var i :| 0 <= i < |s| && s[i] == x;
    var j :| 0 <= j < |t| && t[j].path == x.path;
    assert ResolveEntry(cfg, t[j].path, cfg.paths[t[j].path]) == Success(t[j]);
  }

  /**
   * On a table newHandler built, a redirect goes to the configured target
   * followed by what the request adds to the longest matching route, and a
   * vanity page carries a known VCS and the Cache-Control age that took
   * precedence for that route.
   */
  lemma DispatchOnBuiltTable(cfg: Config, s: seq<PathConfig>, path: string)
    requires BuiltFrom(cfg, s)
    ensures Dispatch(s, path).Redirect? ==>
      var m := Lookup(s, path).entry.value;
      && LongestPrefixEntry(s, path, m)
      && Dispatch(s, path).target == cfg.paths[s[m].path].redir + path[|s[m].path|..]
    ensures Dispatch(s, path).VanityPage? ==>
      var m := Lookup(s, path).entry.value;
      var raw := cfg.paths[s[m].path];
      && LongestPrefixEntry(s, path, m)
      && KnownVcs(Dispatch(s, path).route.vcs)
      && Dispatch(s, path).route.repo == raw.repo
      && MaxAgeOf(Dispatch(s, path).cacheControl) ==
           Some(if raw.cacheAge.Some? then raw.cacheAge.value
                else if cfg.cacheAge.Some? then cfg.cacheAge.value
                else 86400)
  {
    LookupLongestPrefix(s, path);
    var pc := Lookup(s, path);
    if pc.entry.Some? {
      var m := pc.entry.value;
      assert ResolveEntry(cfg, s[m].path, cfg.paths[s[m].path]) == Success(s[m]);
      ResolvedFields(cfg, s[m].path, cfg.paths[s[m].path]);
      CacheControlPrecedence(cfg, s[m].path, cfg.paths[s[m].path]);
    }
  }
}
