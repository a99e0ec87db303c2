# Go vanity URL handler, modelled in Dafny

This project models the request handler of the `code.golift.io` vanity URL
server (`handler.go`). The handler has two parts:

- **Building the table.** `newHandler` takes a parsed configuration. It
  resolves every entry of the `paths` map:
  - it stores the map key as the entry's path;
  - the entry inherits the global `redir_paths` when it has none;
  - it computes the `Cache-Control` header (per-route age first, then the
    global age, then 24 hours);
  - it infers a `go-source` display template from the repository host;
  - it settles the VCS. A VCS given in the configuration must be one of bzr,
    git, hg or svn. A missing VCS becomes git for a GitHub repository. A
    redirect-only route may have none. Every other entry fails the build.

  The routes are then sorted by path with `sort.Sort`, using the
  `PathConfigs` methods `Len`, `Less` and `Swap`.
- **Answering a request.** `ServeHTTP` finds the route for the request path
  with `PathConfigs.find`:
  - `sort.Search` finds the first route not below the path;
  - an exact match, or a "route + `/`" prefix just before that index, is taken
    at once;
  - otherwise the routes before the index are scanned for the string prefix
    that leaves the shortest remainder.

  With the match in hand, the handler answers with the index page, a 404, a
  302 redirect for file downloads, or the vanity page. Before rendering the
  vanity page it writes the route's path, less one trailing `/`, back into the
  shared table.

Files:

| file | module | contents |
|---|---|---|
| `wrappers.dfy` | `Wrappers` | `Option`, `Result` |
| `gostrings.dfy` | `GoStrings` | the `strings` functions the handler uses, Go's string `<`, `%d` formatting |
| `configs.dfy` | `Configs` | `Config` and `PathConfig`, and how one map entry is resolved |
| `table.dfy` | `Table` | `Len`, `Less`, `Swap`, `sort.Sort`, sortedness and uniqueness of the table |
| `find.dfy` | `Resolver`, `ResolverProperties` | `sort.Search`, `find`, and what `find` finds on a sorted table |
| `handler.dfy` | `Vanity` | `StringInSlices`, the branches of `ServeHTTP`, the `Handler` class, `newHandler` |
| `findings.dfy` | `Findings` | the effect of the in-place path trim |
| `examples_pinned.dfy` | `PinnedCases` | cases from the handler's tests |

Modelling choices:

- Go strings are modelled as Dafny strings, sequences of Unicode scalar
  values. Go orders strings byte by byte; on valid UTF-8 that is the order of
  code points. So `GoStrings.Less`, which compares characters one by one, is
  Go's `<` on such strings (see "## Left out" for other byte strings).
- `Table.Len` is `PathConfigs.Len`. `sort.Sort` calls it, and so does
  `Table.Sort`. find passes `len(pset)`, the same number, to `sort.Search`, and
  `Resolver.Search` reads the array's length directly.
- `cache_max_age` is a `*uint64`. It is modelled as `Option<uint64>`, where
  `uint64` is the subset type of naturals below 2^64.
- The route table is an `array<PathConfig>`, because `ServeHTTP` updates its
  elements in place. `find` is modelled on the array's contents, and
  `Resolver.Find` is the method that reads the array.
- A returned `*PathConfig` is modelled as the entry's position in the table.
- The order in which Go walks a map is unspecified. `Vanity.ResolveAll` picks
  keys with `:|`, so what is proved about it holds for every order.
  `Vanity.BuiltTableUnique` shows that the sorted table does not depend on
  that order.

## Model

| member | source | states |
|---|---|---|
| GoStrings.TrimPrefix | handler.go:140 | without the prefix the string is unchanged; with it, exactly the prefix's length is removed |
| GoStrings.TrimPrefixRestores | handler.go:230 | putting the prefix back in front of what `strings.TrimPrefix` left gives the original string |
| GoStrings.TrimSuffix | handler.go:153 | with the suffix, result + suffix is the original string; otherwise the string is unchanged |
| GoStrings.ContainsIffOccurs | handler.go:175 | `strings.Contains(str, s)` holds exactly when `s` occurs at some position of `str` |
| GoStrings.Less | handler.go:189 | Go's `<` on strings: lexicographic, a proper prefix first; its properties are the five lemmas below |
| GoStrings.LessIrreflexive | handler.go:189 | no path is less than itself under Go's string `<` |
| GoStrings.LessAsymmetric | handler.go:189 | two paths are never less than each other both ways |
| GoStrings.LessTransitive | handler.go:189 | Go's string `<` is transitive |
| GoStrings.LessTotal | handler.go:189 | any two different paths are ordered one way or the other |
| GoStrings.ProperPrefixLess | handler.go:220-221 | a proper prefix sorts before the string, so no route at or after the search index is a proper prefix of the path |
| GoStrings.LessAtDifference | handler.go:189 | strings that agree up to index k and differ at k are ordered by their k-th characters |
| GoStrings.FormatUint | handler.go:82 | `%d` prints a non-empty string of decimal digits with no leading zero |
| GoStrings.ParseFormatUint | handler.go:82 | reading back the digits `%d` printed gives the number |
| GoStrings.FormatUintInjective | handler.go:95 | different ages print differently |
| Configs.MaxAgeHeader | handler.go:80-83 | the header starts with `public, max-age=` |
| Configs.MaxAgeRoundTrip | handler.go:82 | the age can be read back out of the header it produced |
| Configs.GlobalCacheControl | handler.go:80-83 | the global header holds the global age, or 86400 when none is configured |
| Configs.InferDisplay | handler.go:98-105 | a display given in the configuration is kept |
| Configs.InferDisplayHosts | handler.go:98-105 | with no display given, exactly GitHub and Bitbucket repositories get a template, and it starts with the repository URL; the templates themselves are pinned by `PinnedCases.DisplayGitHub` and `PinnedCases.DisplayBitbucket` |
| Configs.VcsError | handler.go:107-119 | the entries newHandler rejects: a VCS outside bzr, git, hg, svn, or none given for a repository not on GitHub unless the route is redirect-only; `Configs.ResolveEntry` fails exactly for these |
| Configs.ResolveEntry | handler.go:86-119 | the entry fails exactly when its VCS is unknown or cannot be inferred; the error names the key; on success the path is the key and the VCS is known, or the route is redirect-only |
| Configs.ResolveReadsGlobals | handler.go:88-96 | resolving an entry reads only the global cache age and redirect paths, so the defaulted title has no effect |
| Configs.ResolvedFields | handler.go:86-119 | the fields of a resolved entry: key path, inherited or own redirect paths, the header of the first age given (route, then global, then 86400), the inferred display, the given VCS or git for GitHub, and everything else kept |
| Configs.CacheControlPrecedence | handler.go:80-96 | the header of a resolved entry holds the route's age if given, else the global age, else 86400 |
| Table.LessAt | handler.go:188-190 | `PathConfigs.Less`: Go's `<` on the paths at positions i and j; `Table.Sort` orders the table by it |
| Table.Swap | handler.go:193-195 | elements i and j are exchanged, nothing else changes, and the table is a permutation of the old one |
| Table.Sort | handler.go:123 | afterwards the table is ascending by path and a permutation of what it held |
| Table.NeighboursSortedIsSorted | handler.go:123 | a table whose neighbours are in order is sorted |
| Table.SortedDistinctIsStrict | handler.go:123 | a sorted table with distinct paths is strictly ascending |
| Table.StrictlySortedIsSorted | handler.go:123 | a strictly ascending table is sorted |
| Table.StrictlySortedPositions | handler.go:188-190 | in a strictly ascending table, the order of paths is the order of positions |
| Table.SamePathSameEntry | handler.go:43 | in a table with distinct paths, as the keys of the paths map give, an entry is determined by its path |
| Table.PermutationKeepsDistinct | handler.go:123 | sorting keeps the paths distinct |
| Table.StrictlySortedUnique | handler.go:123 | two strictly ascending tables with the same entries are equal, so every correct sort gives the same table |
| Resolver.AtOrAfter | handler.go:200-202 | the predicate of `sort.Search`: the route's path is `>=` the request path |
| Resolver.Bisect | handler.go:200-202 | the bisection stays between its bounds |
| Resolver.SearchIndex | handler.go:200-202 | the search index is at most the table length |
| Resolver.BisectBoundary | handler.go:200-202 | on a sorted table the bisection keeps the routes below `lo` less than the path and those from `hi` on not less |
| Resolver.SearchFindsBoundary | handler.go:200-202 | on a sorted table, every route before the index is less than the path and none from the index on is |
| Resolver.ProperPrefixBelowSearch | handler.go:220-222 | any route that is a proper prefix of the path lies before the search index |
| Resolver.Search | handler.go:200-202 | Go's `sort.Search` loop returns the bisection's index, which on a sorted table is the boundary |
| Resolver.Scan | handler.go:217-237 | the slow path with no match leaves an empty Subpath, and any match lies among the routes scanned |
| Resolver.ScanOne | handler.go:224-235 | the body of the slow-path loop for route j; it has no contract of its own, and `Resolver.ScanStep` proves that one round keeps the shortest-remainder invariant |
| Resolver.TrimLength | handler.go:225-231 | for a route shorter than the path, TrimPrefix leaves strictly less exactly when the route is a non-empty prefix |
| Resolver.ScanShortest | handler.go:217-237 | the slow path matches nothing exactly when no scanned route is a non-empty proper prefix; otherwise its match leaves the shortest remainder, and the first of equally short ones wins |
| Resolver.ScanIsMinimal | handler.go:223-236 | the loop invariant of the slow path: the best match is a candidate, its Subpath is what TrimPrefix left, and no scanned route leaves less |
| Resolver.ScanStep | handler.go:224-235 | one round of the slow-path loop keeps that invariant |
| Resolver.Lookup | handler.go:197-238 | a match lies in the table and its path is a prefix of the request path; no match means an empty Subpath |
| Resolver.LookupSplitsPath | handler.go:203-237 | the request path is the matched route's path, then the Subpath, with or without a `/` between them |
| Resolver.Find | handler.go:197-238 | the method over the array returns what Lookup defines |
| Resolver.ShortestPrefix | handler.go:217-237 | the slow-path loop over the array returns what Scan defines |
| ResolverProperties.PrefixOfPrefix | handler.go:206 | of two prefixes of one path, the shorter is a prefix of the longer |
| ResolverProperties.ExactAtSearchIndex | handler.go:203 | on a strictly sorted table, a route equal to the path sits at the search index |
| ResolverProperties.LookupExact | handler.go:203-205 | a route equal to the request path is returned with an empty Subpath |
| ResolverProperties.NoLongerPrefixAbove | handler.go:206-211 | when the route just before the search index prefixes the path, no longer route does |
| ResolverProperties.LookupLongestPrefix | handler.go:197-238 | on a strictly sorted table, find returns the route with the longest path prefixing the request, an exact match with an empty Subpath; it returns nothing only when no non-empty route path prefixes the request |
| ResolverProperties.LongestPrefixIsFound | handler.go:197-238 | conversely, the longest non-empty prefix route is the one find returns |
| Vanity.StringInSlices | handler.go:173-180 | true exactly when some redirect path occurs somewhere in the subpath |
| Vanity.Dispatch | handler.go:128-156 | see below |
| Vanity.AfterRequest | handler.go:150-153 | only a vanity request changes the table; then the matched entry's path becomes TrimSuffix(path, "/") and every other entry is unchanged |
| Vanity.WriteBackChangesTable | handler.go:153 | the write changes the table exactly when the request is answered with a vanity page and the matched route's path ends in `/`; the path then loses its last character |
| Vanity.Handler.ServeHTTP | handler.go:127-157 | the response is Dispatch on the table before the call, and the table afterwards is AfterRequest of it |
| Vanity.Handler.ServeHTTPReadOnly | handler.go:127-157 | the response is Dispatch on the table, which stays as built; on a valid handler a redirect goes to the configured target plus what the request adds to the longest matching route |
| Vanity.ExtendResolved | handler.go:85-122 | one round of newHandler's loop keeps its invariants: every entry resolved from its key, one entry per visited key, distinct paths |
| Vanity.ResolveAll | handler.go:85-122 | the loop fails exactly when some entry has a VCS error, with an error naming that key; otherwise it yields one resolved entry per key with distinct paths |
| Vanity.NewHandler | handler.go:72-125 | the build fails exactly when some entry has a VCS error; otherwise it gives a fresh handler whose title defaults to the host and whose table is the strictly sorted table of the resolved entries |
| Vanity.TitleDoesNotMatter | handler.go:77-79 | defaulting the title keeps the table valid for the stored configuration |
| Vanity.BuiltTable | handler.go:121-123 | a sorted permutation of the resolved entries is the table newHandler promises |
| Vanity.BuiltTableUnique | handler.go:85-123 | the built table is the same whatever order the map is walked in and whichever correct sort is used |
| Vanity.DispatchOnBuiltTable | handler.go:127-157 | on a built table, a redirect goes to the configured target plus the rest of the path after the longest matching route; a vanity page carries a known VCS, the configured repository and the Cache-Control age that took precedence |
| Findings.DownloadBeforeWrite | handler.go:217-237 | with route `/dl/`, the slow path matches `/dl/file.zip` with Subpath `file.zip` |
| Findings.DownloadAfterWrite | handler.go:206-211 | with route `/dl`, the fast path matches `/dl/file.zip` with the same Subpath |
| Findings.VanityRequestRewrites | handler.go:150-153 | the vanity request for `/dl/` rewrites the route to `/dl` |
| Findings.DownloadRedirect | handler.go:138-143 | a download route whose filter occurs in the Subpath redirects to its target plus the path after the route |
| Findings.RedirectBeforeWrite | handler.go:138-143 | before the write the redirect target ends in `file.zip` |
| Findings.RedirectAfterWrite | handler.go:138-143 | after the write it ends in `/file.zip` |
| Findings.TrimChangesLaterRedirect | handler.go:140-153 | serving one vanity page changes where a later download request is redirected |
| Findings.TrimBreaksSorting | handler.go:153 | the trim can leave the shared table unsorted: `/a`, `/a!`, `/a/` becomes `/a`, `/a!`, `/a` |
| PinnedCases.TrailingSlash | pkg/handler/handler_test.go:328-331 | a request for a route plus `/` matches the route with an empty Subpath |
| PinnedCases.LookupTrailingSlash | pkg/handler/handler_test.go:328-331 | `/portmidi/` matches `/portmidi` |
| PinnedCases.SubpathOrder | pkg/handler/handler_test.go:348-352 | paths under `/portmidi/` sort after `/portmidi` and before `/xyz` |
| PinnedCases.SubpathSearch | pkg/handler/handler_test.go:348-352 | the search for such a path stops just after `/portmidi` |
| PinnedCases.SubpathOf | pkg/handler/handler_test.go:348-352 | such a path matches `/portmidi` with what follows the `/` |
| PinnedCases.LookupSubpath | pkg/handler/handler_test.go:348-352 | `/portmidi/foo` matches `/portmidi` with Subpath `foo` |
| PinnedCases.RootTableSorted | pkg/handler/handler_test.go:354-358 | the sorted root-fallback table is strictly ascending |
| PinnedCases.RootFallback | pkg/handler/handler_test.go:354-376 | a path that no longer route prefixes falls back to `/`, with the rest of the path as Subpath |
| PinnedCases.LookupRootFallback | pkg/handler/handler_test.go:354-358 | `/x` falls back to `/` with Subpath `x` |
| PinnedCases.LookupRootFallbackDeep | pkg/handler/handler_test.go:372-376 | `/example/foo` falls back to `/` with Subpath `example/foo` |
| PinnedCases.LookupSlowPathKeepsSlash | handler.go:217-237 | with routes `/a` and `/a/b`, `/a/c` matches `/a` through the slow path, with Subpath `/c` |
| PinnedCases.LookupNoRoot | pkg/handler/handler_test.go:389-392 | without a root route, `/x` matches nothing |
| PinnedCases.LookupNoMatch | pkg/handler/handler_test.go:338-341 | `/zzz` matches nothing in a table holding only `/portmidi` |
| PinnedCases.DisplayGitHub | pkg/handler/handler_test.go:53-63 | the display template inferred for a GitHub repository |
| PinnedCases.DisplayBitbucket | pkg/handler/handler_test.go:65-76 | the display template inferred for a Bitbucket repository |
| PinnedCases.CacheHeaders | pkg/handler/handler_test.go:424-446 | the headers for ages 86400, 60 and 0 |
| PinnedCases.BadConfigs | pkg/handler/handler_test.go:254-265 | an unknown repository host with no VCS, and the VCS `xyzzy`, are both rejected |

`Vanity.Dispatch` states each branch of `ServeHTTP` in terms of what find
returns:

- **Index page:** find matched nothing and the path is `/`.
- **404:** find matched nothing and the path is something else. Or the matched
  route has no repository and does not redirect this Subpath.
- **Redirect:** exactly when find matched, the route's `redir` is set and one
  of its redirect paths occurs in the Subpath, whether or not the route has a
  repository. The target is `redir` followed by the request path after the
  route's path.
- **Vanity page:** the route has a repository and does not redirect this
  Subpath. The page carries the route's Cache-Control header, the Subpath, and
  the route with its path replaced by TrimSuffix(path, "/").

## Left out

- The YAML step (handler.go:74) is left out. The model starts from the parsed
  `Config`.
- The HTTP layer is left out: the response writer, `http.NotFound`,
  `http.Redirect`, the header write and the templates (handler.go:131-155).
  Each response becomes a `Response` value. A failing template execution is
  not modelled either.
- `Handler.Hostname` (handler.go:160-169) and the `Host` field that ServeHTTP
  sets on the match are left out. They depend on the request and on App
  Engine. templates.go is not part of this model.
- Concurrency is not modelled. Go's server runs ServeHTTP on many goroutines,
  and the write at handler.go:153 races with the other requests' reads of the
  table.
- Sharing is flattened. Go stores pointers, so the table and
  `Config.Paths` share their `*PathConfig` values and the write at
  handler.go:153 reaches both. The model keeps the configuration as a value
  and writes only the table. So it does not capture that the index page,
  which lists the paths of `Config.Paths`, afterwards shows the trimmed path.
  newHandler's own writes at handler.go:86-114 go through the same pointers,
  so in Go `h.Config.Paths` ends up holding the resolved entries. The model's
  `Handler.config` keeps the raw entries as they were parsed.
- `Links` and `Src` are carried in `Config` but nothing reads them here,
  because only the index template uses them.
- A `nil` value in the paths map (a Go panic at handler.go:86) is not
  represented: every map value is a `PathConfig`.
- Table.Sort: Go's `sort.Sort` is pattern-defeating quicksort. The model sorts
  by insertion sort with the same `Less` and `Swap`. `sort.Sort` promises only
  a sorted permutation, and `Table.StrictlySortedUnique` shows that with
  distinct paths there is exactly one. So the resulting table is the same.
- Configs.GlobalCacheControl: the global header (handler.go:80-83) is computed
  per entry instead of once, which gives the same value.
- Configs.InferDisplay: its own contract says only that a given display is
  kept. The inferred templates are stated by `Configs.InferDisplayHosts` and
  pinned for one GitHub and one Bitbucket repository, not for every URL.
- handler.go has none of the following, so none is modelled:
  - normalizing a `vcs` name such as `gitlab` to git;
  - a VCS prefix table beyond GitHub;
  - wildcard routes;
  - tag tables;
  - derived import and source paths;
  - rejecting a configuration without a host.

  pkg/handler/handler_test.go:124-210 and 265-268 test such behaviour, but of
  the `pkg/handler` package, which is not part of this model.
- Request paths that are not valid UTF-8 are not modelled.
  - Go strings are bytes, and `r.URL.Path` is percent-decoded, so a request for
    `/%FF` has the one-byte path `"\xff"`. A Dafny string cannot hold it.
  - Go's `len` counts bytes, where `|s|` counts code points. On valid UTF-8
    this changes no decision of `find`:
    - a route that is not a string prefix of the path leaves it unchanged, so
      it never becomes the match;
    - for a prefix, "shorter than the path" holds in bytes exactly when it holds
      in code points;
    - the remainders that are compared are suffixes of the one path, and of two
      suffixes the longer in bytes is the longer in code points.

## Findings

| source | as written | input that shows it | evidently intended | confidence | as-written member | corrected member |
|---|---|---|---|---|---|---|
| handler.go:153 | `pc.Path = strings.TrimSuffix(pc.Path, "/")` writes into the shared route entry, so a vanity request changes the table that later requests are served from | route `/dl/` with repo, `redir: https://dl.example.com/`, `redir_paths: [file]`. Request `/dl/` first, then `/dl/file.zip`. Before the first request the second redirects to `https://dl.example.com/file.zip`; after it, to `https://dl.example.com//file.zip` | the trailing `/` is dropped only for the page being rendered, and the table stays as newHandler built it | medium, not executed | Findings.TrimChangesLaterRedirect | Vanity.Handler.ServeHTTPReadOnly |

`Findings.TrimBreaksSorting` shows a second consequence of the same write. The
table `/a`, `/a!`, `/a/` is strictly ascending. After the vanity page of `/a/`
is served it becomes `/a`, `/a!`, `/a`, which is no longer sorted, so
`sort.Search` is then run on an unsorted table.

`PinnedCases.LookupSlowPathKeepsSlash` records a behaviour that is not listed
as a finding. The slow path strips only the route's path, not a separating
`/`, so the Subpath it returns can start with `/`. Nothing in the source says
whether this is intended.
