/**
 * Concrete cases from the handler's test table: lookups, display templates,
 * Cache-Control headers and configurations that must be rejected.
 */
module PinnedCases {
  import opened Wrappers
  import opened GoStrings
  import opened Configs
  import opened Resolver
  import Table
  import ResolverProperties

  /** A route that only has a path (the test table builds such entries). */
  function Bare(path: string): (e: PathConfig) {
    PathConfig(path, None, [], "", "", "", "", "")
  }

  /** A request for the route's path with a trailing "/" takes the fast path with an empty Subpath. */
  lemma TrailingSlash(route: string, p: string)
    requires p == route + "/"
    ensures Lookup([Bare(route)], p) == PathReq(Some(0), "")
  {
    var s := [Bare(route)];
    assert HasPrefix(p, route);
    ProperPrefixBelowSearch(s, p, 0);
    assert s[0].path + "/" == p;
    assert p[|route| + 1..] == "";
  }

  lemma LookupTrailingSlash()
    ensures Lookup([Bare("/portmidi")], "/portmidi/") == PathReq(Some(0), "")
  {
    TrailingSlash("/portmidi", "/portmidi/");
  }

  /** The table of the subpath test. */
  const SubpathTable: seq<PathConfig> := [Bare("/abc"), Bare("/portmidi"), Bare("/xyz")]

  /** Such a path sorts after "/portmidi" and before "/xyz". */
  lemma SubpathOrder(p: string)
    requires |p| > 10 && p[..10] == "/portmidi/"
    ensures Less("/portmidi", p) && !Less("/xyz", p)
  {
    assert HasPrefix(p, "/portmidi");
    ProperPrefixLess("/portmidi", p);
    assert p[..1] == "/xyz"[..1] && p[1] == 'p' && "/xyz"[1] == 'x';
    LessAtDifference(p, "/xyz", 1);
    LessAsymmetric(p, "/xyz");
  }

  /** The search for "/portmidi/" followed by anything stops just after "/portmidi". */
  lemma SubpathSearch(p: string)
    requires |p| > 10 && p[..10] == "/portmidi/"
    ensures SearchIndex(SubpathTable, p) == 2
  {
    var s := SubpathTable;
    SubpathOrder(p);
    assert !AtOrAfter(s, p, 1) && AtOrAfter(s, p, 2);
    assert Bisect(s, p, 2, 2) == 2;
    assert Bisect(s, p, 2, 3) == 2;
    assert Bisect(s, p, 0, 3) == 2;
  }

  /** A request below a route, after a "/", takes the fast path and keeps what follows the "/". */
  lemma SubpathOf(p: string)
    requires |p| > 10 && p[..10] == "/portmidi/"
    ensures Lookup(SubpathTable, p) == PathReq(Some(1), p[10..])
  {
    SubpathSearch(p);
    assert |SubpathTable[2].path| < |p|;
    assert p[..10] == SubpathTable[1].path + "/";
  }

  lemma LookupSubpath()
    ensures Lookup(SubpathTable, "/portmidi/foo") == PathReq(Some(1), "foo")
  {
    var p := "/portmidi/foo";
    assert p[..10] == "/portmidi/";
    SubpathOf(p);
    assert p[10..] == "foo";
  }

  /** The table of the root-fallback tests. */
  const RootTable: seq<PathConfig> := [Bare("/"), Bare("/example/helloworld"), Bare("/foo"), Bare("/y")]

  lemma RootTableSorted()
    ensures Table.StrictlySorted(RootTable)
  {
    var s := RootTable;
    forall i, j | 0 <= i < j < |s| ensures Less(s[i].path, s[j].path) {
      if i == 0 {
        assert HasPrefix(s[j].path, "/");
        ProperPrefixLess("/", s[j].path);
      } else {
        assert s[i].path[..1] == s[j].path[..1] && s[i].path[1] < s[j].path[1];
        LessAtDifference(s[i].path, s[j].path, 1);
      }
    }
  }

  /** A path that no longer route prefixes falls back to the root route "/". */
  lemma RootFallback(p: string)
    requires |p| >= 2 && p[0] == '/' && p[1] != '/'
    requires !HasPrefix(p, "/example/helloworld") && !HasPrefix(p, "/foo") && !HasPrefix(p, "/y")
    ensures Lookup(RootTable, p) == PathReq(Some(0), p[1..])
  {
    RootTableSorted();
    assert HasPrefix(p, RootTable[0].path);
    assert ResolverProperties.LongestPrefixEntry(RootTable, p, 0);
    ResolverProperties.LongestPrefixIsFound(RootTable, p, 0);
    LookupSplitsPath(RootTable, p);
    var sub := Lookup(RootTable, p).subpath;
    assert ("/" + "/" + sub)[1] == '/';
    assert p == "/" + sub;
    assert p[1..] == sub;
  }

  lemma LookupRootFallback()
    ensures Lookup(RootTable, "/x") == PathReq(Some(0), "x")
  {
    var p := "/x";
    assert p[1] != "/y"[1];
    assert !HasPrefix(p, "/example/helloworld") && !HasPrefix(p, "/foo") && !HasPrefix(p, "/y");
    RootFallback(p);
    assert p[1..] == "x";
  }

  lemma LookupRootFallbackDeep()
    ensures Lookup(RootTable, "/example/foo") == PathReq(Some(0), "example/foo")
  {
    var p := "/example/foo";
    assert p[9] != "/example/helloworld"[9];
    assert p[2] != 'f' && p[2] != 'y';
    assert !HasPrefix(p, "/example/helloworld") && !HasPrefix(p, "/foo") && !HasPrefix(p, "/y");
    RootFallback(p);
    assert p[1..] == "example/foo";
  }

  /**
   * The slow path strips only the route's path, not a separating "/": here
   * "/a/b" is the route just below the search index and "/a" is found by the
   * scan, leaving "/c".
   */
  lemma LookupSlowPathKeepsSlash()
    ensures Lookup([Bare("/a"), Bare("/a/b")], "/a/c") == PathReq(Some(0), "/c")
  {
    var s := [Bare("/a"), Bare("/a/b")];
    var p := "/a/c";
    assert Less("/a", p) && Less("/a/b", p);
    assert Bisect(s, p, 2, 2) == 2;
    assert Bisect(s, p, 0, 2) == 2;
    assert !HasPrefix(p, "/a/b" + "/");
    assert TrimPrefix(p, "/a") == "/c";
    assert Scan(s, p, 1) == PathReq(Some(0), "/c");
    assert Scan(s, p, 2) == PathReq(Some(0), "/c");
  }

  lemma LookupNoRoot()
    ensures Lookup([Bare("/example/helloworld"), Bare("/foo"), Bare("/y")], "/x") == PathReq(None, "")
  {
  }

  lemma LookupNoMatch()
    ensures Lookup([Bare("/portmidi")], "/zzz") == PathReq(None, "")
  {
  }

  const Empty: Config := Config("", "example.com", [], None, map[], [], "")

  const Portmidi: string := "https://github.com/rakyll/portmidi"

  lemma DisplayGitHub()
    ensures InferDisplay("", Portmidi) ==
      Portmidi + " " + Portmidi + "/tree/master{/dir} " + Portmidi + "/blob/master{/dir}/{file}#L{line}"
  {
    assert Portmidi[..|GitHubPrefix|] == GitHubPrefix;
  }

  const Gopdf: string := "https://bitbucket.org/zombiezen/gopdf"

  lemma DisplayBitbucket()
    ensures InferDisplay("", Gopdf) ==
      Gopdf + " " + Gopdf + "/src/default{/dir} " + Gopdf + "/src/default{/dir}/{file}#{file}-{line}"
  {
    assert Gopdf[..|GitHubPrefix|][8] == 'b';
    assert !HasPrefix(Gopdf, GitHubPrefix);
    assert Gopdf[..|BitbucketPrefix|] == BitbucketPrefix;
  }

  lemma CacheHeaders()
    ensures MaxAgeHeader(DefaultCacheAge) == "public, max-age=86400"
    ensures MaxAgeHeader(60) == "public, max-age=60"
    ensures MaxAgeHeader(0) == "public, max-age=0"
  {
    assert FormatUint(8) == "8";
    assert FormatUint(86) == "86";
    assert FormatUint(864) == "864";
    assert FormatUint(8640) == "8640";
    assert FormatUint(86400) == "86400";
    assert FormatUint(6) == "6";
    assert FormatUint(60) == "60";
  }

  /** A repository on an unknown host with no VCS, and an unsupported VCS name, are both rejected. */
  lemma BadConfigs()
    ensures VcsError(PathConfig("", None, [], "https://unknownbucket.org/zombiezen/gopdf", "", "", "", ""))
    ensures VcsError(PathConfig("", None, [], "https://unknownbucket.org/zombiezen/gopdf", "", "", "xyzzy", ""))
  {
    assert "https://unknownbucket.org/zombiezen/gopdf"[8] != GitHubPrefix[8];
  }
}
