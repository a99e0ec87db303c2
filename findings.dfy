/**
 * Two consequences of ServeHTTP writing the trimmed path back into the shared
 * route entry (the vanity branch of handler.go).
 */
module Findings {
  import opened Wrappers
  import opened GoStrings
  import opened Configs
  import opened Table
  import opened Resolver
  import opened Vanity

  /** A route with a repository, a download target and redirect paths. */
  function DownloadRoute(path: string): (e: PathConfig) {
    PathConfig(path, None, ["file"], "https://github.com/acme/dl", "https://dl.example.com/",
               "", "git", "public, max-age=86400")
  }

  /** Before the write, the slow path matches "/dl/" and leaves "file.zip". */
  lemma DownloadBeforeWrite()
    ensures Lookup([DownloadRoute("/dl/")], "/dl/file.zip") == PathReq(Some(0), "file.zip")
  {
    var s := [DownloadRoute("/dl/")];
    var dl := "/dl/file.zip";
    ProperPrefixLess("/dl/", dl);
    assert Bisect(s, dl, 1, 1) == 1;
    assert SearchIndex(s, dl) == 1;
    assert !HasPrefix(dl, "/dl/" + "/");
    assert TrimPrefix(dl, "/dl/") == "file.zip";
    assert Scan(s, dl, 0) == PathReq(None, "");
    assert Scan(s, dl, 1) == PathReq(Some(0), "file.zip");
  }

  /** After the write, the fast path matches "/dl" + "/" and leaves the same "file.zip". */
  lemma DownloadAfterWrite()
    ensures Lookup([DownloadRoute("/dl")], "/dl/file.zip") == PathReq(Some(0), "file.zip")
  {
    var s := [DownloadRoute("/dl")];
    var dl := "/dl/file.zip";
    ProperPrefixLess("/dl", dl);
    assert Bisect(s, dl, 1, 1) == 1;
    assert SearchIndex(s, dl) == 1;
    assert HasPrefix(dl, "/dl" + "/");
    assert dl[|"/dl"| + 1..] == "file.zip";
  }

  /** The vanity request for "/dl/" is an exact match and rewrites the route to "/dl". */
  lemma VanityRequestRewrites()
    ensures Dispatch([DownloadRoute("/dl/")], "/dl/").VanityPage?
    ensures AfterRequest([DownloadRoute("/dl/")], "/dl/") == [DownloadRoute("/dl")]
  {
    var s := [DownloadRoute("/dl/")];
    LessIrreflexive("/dl/");
    assert Bisect(s, "/dl/", 0, 0) == 0;
    assert SearchIndex(s, "/dl/") == 0;
    assert Lookup(s, "/dl/") == PathReq(Some(0), "");
    assert !Contains("", "file");
    assert !Redirects(s[0], "");
    assert TrimSuffix("/dl/", "/") == "/dl";
  }

  /** A download route whose filter matches the Subpath answers with a redirect. */
  lemma DownloadRedirect(route: string, path: string)
    requires Lookup([DownloadRoute(route)], path) == PathReq(Some(0), "file.zip")
    ensures Dispatch([DownloadRoute(route)], path) ==
      Redirect("https://dl.example.com/" + TrimPrefix(path, route))
  {
    var e := DownloadRoute(route);
    assert HasPrefix("file.zip", "file");
    assert Contains("file.zip", e.redirPaths[0]);
    assert Redirects(e, "file.zip");
  }

  /** Before the write, "/dl/file.zip" is redirected to the target plus "file.zip". */
  lemma RedirectBeforeWrite()
    ensures Dispatch([DownloadRoute("/dl/")], "/dl/file.zip") == Redirect("https://dl.example.com/" + "file.zip")
  {
    DownloadBeforeWrite();
    DownloadRedirect("/dl/", "/dl/file.zip");
    assert TrimPrefix("/dl/file.zip", "/dl/") == "file.zip";
  }

  /** After the write, the same request is redirected to the target plus "/file.zip". */
  lemma RedirectAfterWrite()
    ensures Dispatch([DownloadRoute("/dl")], "/dl/file.zip") == Redirect("https://dl.example.com/" + "/file.zip")
  {
    DownloadAfterWrite();
    DownloadRedirect("/dl", "/dl/file.zip");
    assert TrimPrefix("/dl/file.zip", "/dl") == "/file.zip";
  }

  /**
   * Serving the vanity page of "/dl/" rewrites the route to "/dl", and the
   * next download redirect for "/dl/file.zip" gains an extra "/".
   */
  lemma TrimChangesLaterRedirect()
    ensures Dispatch([DownloadRoute("/dl/")], "/dl/file.zip") == Redirect("https://dl.example.com/" + "file.zip")
    ensures AfterRequest([DownloadRoute("/dl/")], "/dl/") == [DownloadRoute("/dl")]
    ensures Dispatch([DownloadRoute("/dl")], "/dl/file.zip") == Redirect("https://dl.example.com/" + "/file.zip")
  {
    RedirectBeforeWrite();
    VanityRequestRewrites();
    RedirectAfterWrite();
  }

  /** A route with a repository and no redirect. */
  function PlainRoute(path: string): (e: PathConfig) {
    PathConfig(path, None, [], "https://github.com/acme/a", "", "", "git", "public, max-age=86400")
  }

  /** After the vanity page of "/a/" is served, the table "/a", "/a!", "/a/" is no longer sorted. */
  lemma TrimBreaksSorting()
    ensures StrictlySorted([PlainRoute("/a"), PlainRoute("/a!"), PlainRoute("/a/")])
    ensures AfterRequest([PlainRoute("/a"), PlainRoute("/a!"), PlainRoute("/a/")], "/a/")
         == [PlainRoute("/a"), PlainRoute("/a!"), PlainRoute("/a")]
    ensures !Sorted([PlainRoute("/a"), PlainRoute("/a!"), PlainRoute("/a")])
  {
    var s := [PlainRoute("/a"), PlainRoute("/a!"), PlainRoute("/a/")];
    assert Less("/a", "/a!") && Less("/a!", "/a/") && Less("/a", "/a/");
    LessIrreflexive("/a/");
    assert AtOrAfter(s, "/a/", 2) && !AtOrAfter(s, "/a/", 1);
    assert Bisect(s, "/a/", 2, 2) == 2;
    assert Bisect(s, "/a/", 2, 3) == 2;
    assert SearchIndex(s, "/a/") == 2;
    assert Lookup(s, "/a/") == PathReq(Some(2), "");
    assert Dispatch(s, "/a/").VanityPage?;
    assert TrimSuffix("/a/", "/") == "/a";
  }
}
