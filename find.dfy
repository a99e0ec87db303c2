/**
 * PathConfigs.find: the route lookup behind every request. A binary search
 * (Go's sort.Search) finds the first route not below the request path; an
 * exact match or a "route + /" prefix just before it is taken at once;
 * otherwise the routes before it are scanned for the string prefix that leaves
 * the shortest remainder.
 */
module Resolver {
  import opened Wrappers
  import opened GoStrings
  import opened Configs
  import opened Table

  /**
   * What find returns: the matched route, as its position in the table (the
   * *PathConfig pointer), and the Subpath. The Host field is filled in later
   * by ServeHTTP and is not part of this model.
   */
  datatype PathReq = PathReq(entry: Option<nat>, subpath: string)

  /** The predicate handed to sort.Search: pset[h].Path >= path. */
  predicate AtOrAfter(s: seq<PathConfig>, path: string, h: nat)
    requires h < |s|
  {
    !Less(s[h].path, path)
  }

  /** The bisection of sort.Search between lo and hi, with h = (lo + hi) / 2. */
  function Bisect(s: seq<PathConfig>, path: string, lo: nat, hi: nat): (r: nat)
    requires lo <= hi <= |s|
    ensures lo <= r <= hi
    decreases hi - lo
  {
    if lo < hi then
      var h := (lo + hi) / 2;
      if !AtOrAfter(s, path, h) then Bisect(s, path, h + 1, hi) else Bisect(s, path, lo, h)
    else lo
  }

  /** sort.Search(len(pset), func(i int) bool { return pset[i].Path >= path }) */
  function SearchIndex(s: seq<PathConfig>, path: string): (r: nat)
    ensures r <= |s|
  {
    Bisect(s, path, 0, |s|)
  }

  /** On a sorted table the bisection keeps every route below `lo` less than the path and none from `hi` on. */
  lemma {:induction false} BisectBoundary(s: seq<PathConfig>, path: string, lo: nat, hi: nat)
    requires lo <= hi <= |s| && Sorted(s)
    requires forall j :: 0 <= j < lo ==> Less(s[j].path, path)
    requires forall j :: hi <= j < |s| ==> !Less(s[j].path, path)
    ensures forall j :: 0 <= j < Bisect(s, path, lo, hi) ==> Less(s[j].path, path)
    ensures forall j :: Bisect(s, path, lo, hi) <= j < |s| ==> !Less(s[j].path, path)
    decreases hi - lo
  {
    if lo < hi {
      var h := (lo + hi) / 2;
      if !AtOrAfter(s, path, h) {
        forall j | 0 <= j < h + 1 ensures Less(s[j].path, path) {
          if j < h {
            LessTotal(s[j].path, s[h].path);
            LessTransitive(s[j].path, s[h].path, path);
          }
        }
        BisectBoundary(s, path, h + 1, hi);
      } else {
        forall j | h <= j < |s| ensures !Less(s[j].path, path) {
          if h < j { NotLessTransitive(path, s[h].path, s[j].path); }
        }
        BisectBoundary(s, path, lo, h);
      }
    }
  }

  /** On a sorted table, sort.Search finds the first route whose path is >= the request path. */
  lemma SearchFindsBoundary(s: seq<PathConfig>, path: string)
    requires Sorted(s)
    ensures forall j :: 0 <= j < SearchIndex(s, path) ==> Less(s[j].path, path)
    ensures forall j :: SearchIndex(s, path) <= j < |s| ==> !Less(s[j].path, path)
  {
    BisectBoundary(s, path, 0, |s|);
  }

  /** No route at or after the search index is a proper prefix of the path. */
  lemma ProperPrefixBelowSearch(s: seq<PathConfig>, path: string, j: nat)
    requires Sorted(s) && j < |s|
    requires HasPrefix(path, s[j].path) && |s[j].path| < |path|
    ensures j < SearchIndex(s, path)
  {
    SearchFindsBoundary(s, path);
    ProperPrefixLess(s[j].path, path);
  }

  /** Go's sort.Search loop, specialised to find's predicate. */
  method Search(pset: array<PathConfig>, path: string) returns (i: nat)
    ensures i == SearchIndex(pset[..], path)
    ensures Sorted(pset[..]) ==>
      && (forall k :: 0 <= k < i ==> Less(pset[k].path, path))
      && (forall k :: i <= k < pset.Length ==> !Less(pset[k].path, path))
  {
    i := 0;
    var j := pset.Length;
    while i < j
      invariant i <= j <= pset.Length
      invariant Bisect(pset[..], path, i, j) == SearchIndex(pset[..], path)
      decreases j - i
    {
      var h := (i + j) / 2;
      if Less(pset[h].path, path) {
        i := h + 1;
      } else {
        j := h;
      }
    }
    if Sorted(pset[..]) { SearchFindsBoundary(pset[..], path); }
  }

  /** A route the slow path accepts: a non-empty, proper string prefix of the path. */
  predicate Candidate(s: seq<PathConfig>, path: string, j: nat)
    requires j < |s|
  {
    s[j].path != "" && |s[j].path| < |path| && HasPrefix(path, s[j].path)
  }

  /** find's lenShortestSubpath for the current best match `p`. */
  function Shortest(p: PathReq, path: string): (len: nat) {
    if p.entry.None? then |path| else |p.subpath|
  }

  /** The slow-path loop of find after it has looked at the first n routes. */
  function Scan(s: seq<PathConfig>, path: string, n: nat): (p: PathReq)
    requires n <= |s|
    ensures p.entry.None? ==> p.subpath == ""
    ensures p.entry.Some? ==> p.entry.value < n
    decreases n
  {
    if n == 0 then PathReq(None, "") else ScanOne(s, path, n - 1, Scan(s, path, n - 1))
  }

  /** One round of the slow-path loop: route j replaces the match `prev` if it leaves a shorter remainder. */
  function ScanOne(s: seq<PathConfig>, path: string, j: nat, prev: PathReq): (p: PathReq)
    requires j < |s|
  {
    var ps := s[j];
    if |ps.path| >= |path| then prev
    else
      var sub := TrimPrefix(path, ps.path);
      if |sub| < Shortest(prev, path) then PathReq(Some(j), sub) else prev
  }

  /** What TrimPrefix leaves of the path is shorter than the path exactly for a candidate route. */
  lemma TrimLength(path: string, q: string)
    requires |q| < |path|
    ensures |TrimPrefix(path, q)| <= |path|
    ensures |TrimPrefix(path, q)| < |path| <==> q != "" && HasPrefix(path, q)
  {
  }

  /** No route before index n is a candidate. */
  predicate NoCandidate(s: seq<PathConfig>, path: string, n: nat)
    requires n <= |s|
  {
    forall j :: 0 <= j < n ==> !Candidate(s, path, j)
  }

  /** Every route before index n that is shorter than the path leaves at least `len` characters. */
  predicate LeavesAtLeast(s: seq<PathConfig>, path: string, n: nat, len: nat)
    requires n <= |s|
  {
    forall j :: 0 <= j < n && |s[j].path| < |path| ==> |TrimPrefix(path, s[j].path)| >= len
  }

  /** Every route before index n that is shorter than the path leaves more than `len` characters. */
  predicate LeavesMoreThan(s: seq<PathConfig>, path: string, n: nat, len: nat)
    requires n <= |s|
  {
    forall j :: 0 <= j < n && |s[j].path| < |path| ==> |TrimPrefix(path, s[j].path)| > len
  }

  /**
   * The slow path finds a candidate exactly when there is one, and the one it
   * finds leaves the shortest remainder; of equally short ones, the first.
   */
  lemma ScanShortest(s: seq<PathConfig>, path: string, n: nat)
    requires n <= |s|
    ensures Scan(s, path, n).entry.None? <==> NoCandidate(s, path, n)
    ensures Scan(s, path, n).entry.Some? ==>
      && LeavesAtLeast(s, path, n, |Scan(s, path, n).subpath|)
      && LeavesMoreThan(s, path, Scan(s, path, n).entry.value, |Scan(s, path, n).subpath|)
  {
    ScanIsMinimal(s, path, n);
    var p := Scan(s, path, n);
    if p.entry.Some? {
      assert Candidate(s, path, p.entry.value);
    }
  }

  /** The loop invariant behind ScanShortest, by induction on the routes looked at. */
  lemma {:induction false} ScanIsMinimal(s: seq<PathConfig>, path: string, n: nat)
    requires n <= |s|
    ensures MinimalAt(s, path, n, Scan(s, path, n))
    decreases n
  {
    if n > 0 {
      ScanIsMinimal(s, path, n - 1);
      ScanStep(s, path, n);
    }
  }

  /** What ScanShortest states about a match `p` after the first n routes. */
  predicate MinimalAt(s: seq<PathConfig>, path: string, n: nat, p: PathReq)
    requires n <= |s|
  {
    && (p.entry.None? ==> NoCandidate(s, path, n))
    && (p.entry.Some? ==>
          && p.entry.value < n
          && Candidate(s, path, p.entry.value)
          && p.subpath == TrimPrefix(path, s[p.entry.value].path)
          && LeavesAtLeast(s, path, n, |p.subpath|)
          && LeavesMoreThan(s, path, p.entry.value, |p.subpath|))
  }

  /** One round of the slow-path loop keeps what ScanShortest states. */
  lemma ScanStep(s: seq<PathConfig>, path: string, n: nat)
    requires 0 < n <= |s| && MinimalAt(s, path, n - 1, Scan(s, path, n - 1))
    ensures MinimalAt(s, path, n, Scan(s, path, n))
  {
    var j, prev := n - 1, Scan(s, path, n - 1);
    if |s[j].path| >= |path| {
      ScanSkip(s, path, j, prev);
    } else if |TrimPrefix(path, s[j].path)| < Shortest(prev, path) {
      ScanTake(s, path, j, prev);
    } else {
      ScanKeep(s, path, j, prev);
    }
  }

  /** A route at least as long as the path changes nothing. */
  lemma ScanSkip(s: seq<PathConfig>, path: string, j: nat, prev: PathReq)
    requires j < |s| && MinimalAt(s, path, j, prev)
    requires |s[j].path| >= |path|
    ensures MinimalAt(s, path, j + 1, ScanOne(s, path, j, prev))
  {
    assert ScanOne(s, path, j, prev) == prev;
    if prev.entry.None? {
      assert !Candidate(s, path, j);
      assert NoCandidate(s, path, j + 1);
    } else {
      assert LeavesAtLeast(s, path, j + 1, |prev.subpath|);
    }
  }

  /** A route leaving a strictly shorter remainder becomes the match. */
  lemma ScanTake(s: seq<PathConfig>, path: string, j: nat, prev: PathReq)
    requires j < |s| && MinimalAt(s, path, j, prev)
    requires |s[j].path| < |path| && |TrimPrefix(path, s[j].path)| < Shortest(prev, path)
    ensures MinimalAt(s, path, j + 1, ScanOne(s, path, j, prev))
  {
    var sub := TrimPrefix(path, s[j].path);
    assert ScanOne(s, path, j, prev) == PathReq(Some(j), sub);
    TrimLength(path, s[j].path);
    assert Candidate(s, path, j);
    forall k | 0 <= k < j && |s[k].path| < |path| ensures |TrimPrefix(path, s[k].path)| > |sub| {
      TrimLength(path, s[k].path);
      if Candidate(s, path, k) {
        assert prev.entry.Some?;
      }
    }
    assert LeavesMoreThan(s, path, j, |sub|);
    assert LeavesAtLeast(s, path, j + 1, |sub|);
  }

  /** A route leaving no shorter remainder keeps the earlier match. */
  lemma ScanKeep(s: seq<PathConfig>, path: string, j: nat, prev: PathReq)
    requires j < |s| && MinimalAt(s, path, j, prev)
    requires |s[j].path| < |path| && |TrimPrefix(path, s[j].path)| >= Shortest(prev, path)
    ensures MinimalAt(s, path, j + 1, ScanOne(s, path, j, prev))
  {
    assert ScanOne(s, path, j, prev) == prev;
    TrimLength(path, s[j].path);
    if prev.entry.None? {
      assert !Candidate(s, path, j);
      assert NoCandidate(s, path, j + 1);
    } else {
      assert LeavesAtLeast(s, path, j + 1, |prev.subpath|);
    }
  }

  /** What find returns for the table `s` and request path `path`. */
  function Lookup(s: seq<PathConfig>, path: string): (p: PathReq)
    ensures p.entry.None? ==> p.subpath == ""
    ensures p.entry.Some? ==>
      && p.entry.value < |s|
      && HasPrefix(path, s[p.entry.value].path)
  {
    var i := SearchIndex(s, path);
    if i < |s| && s[i].path == path then PathReq(Some(i), "")
    else if i > 0 && HasPrefix(path, s[i - 1].path + "/") then
      PathReq(Some(i - 1), path[|s[i - 1].path| + 1..])
    else ScanIsMinimal(s, path, i); Scan(s, path, i)
  }

  /** The Subpath find returns is what follows the matched route's path, with or without a separating "/". */
  lemma LookupSplitsPath(s: seq<PathConfig>, path: string)
    ensures var p := Lookup(s, path);
      p.entry.Some? ==>
        var q := s[p.entry.value].path;
        path == q + p.subpath || path == q + "/" + p.subpath
  {
    var p := Lookup(s, path);
    var i := SearchIndex(s, path);
    if p.entry.Some? {
      var q := s[p.entry.value].path;
      if i < |s| && s[i].path == path {
        assert path == q + "";
      } else if i > 0 && HasPrefix(path, s[i - 1].path + "/") {
        assert path == q + "/" + path[|q| + 1..];
      } else {
        ScanIsMinimal(s, path, i);
        TrimPrefixRestores(path, q);
      }
    }
  }

  /** PathConfigs.find */
  method Find(pset: array<PathConfig>, path: string) returns (p: PathReq)
    ensures p == Lookup(pset[..], path)
  {
    var i := Search(pset, path);
    if i < pset.Length && pset[i].path == path {
      return PathReq(Some(i), "");
    }
    if i > 0 && HasPrefix(path, pset[i - 1].path + "/") {
      return PathReq(Some(i - 1), path[|pset[i - 1].path| + 1..]);
    }
    p := ShortestPrefix(pset, path, i);
  }

  /** find's slow path: the routes before index `max` scanned for the shortest remainder. */
  method ShortestPrefix(pset: array<PathConfig>, path: string, max: nat) returns (p: PathReq)
    requires max <= pset.Length
    ensures p == Scan(pset[..], path, max)
  {
    var lenShortestSubpath := |path|;
    p := PathReq(None, "");
    var k := 0;
    while k < max
      invariant k <= max
      invariant p == Scan(pset[..], path, k)
      invariant lenShortestSubpath == Shortest(p, path)
    {
      var ps := pset[k];
      if |ps.path| < |path| {
        var sSubpath := TrimPrefix(path, ps.path);
        if |sSubpath| < lenShortestSubpath {
          p := PathReq(Some(k), sSubpath);
          lenShortestSubpath := |sSubpath|;
        }
      }
      k := k + 1;
    }
  }
}

module ResolverProperties {
  import opened Wrappers
  import opened GoStrings
  import opened Configs
  import opened Table
  import opened Resolver

  /** Route m's path is the longest route path that is a string prefix of `path`. */
  predicate LongestPrefixEntry(s: seq<PathConfig>, path: string, m: nat) {
    && m < |s|
    && HasPrefix(path, s[m].path)
    && forall j :: 0 <= j < |s| && HasPrefix(path, s[j].path) ==> |s[j].path| <= |s[m].path|
  }

  /** Two prefixes of one string, the shorter is a prefix of the longer. */
  lemma PrefixOfPrefix(path: string, p: string, q: string)
    requires HasPrefix(path, p) && HasPrefix(path, q) && |p| <= |q|
    ensures HasPrefix(q, p)
  {
    assert q[..|p|] == path[..|q|][..|p|];
  }

  /** On a strictly sorted table, a route equal to the path sits at the search index. */
  lemma ExactAtSearchIndex(s: seq<PathConfig>, path: string, j: nat)
    requires StrictlySorted(s) && j < |s| && s[j].path == path
    ensures SearchIndex(s, path) == j
  {
    StrictlySortedIsSorted(s);
    SearchFindsBoundary(s, path);
    LessIrreflexive(path);
    var i := SearchIndex(s, path);
    if i < j { LessAsymmetric(s[i].path, path); }
  }

  /** A route equal to the request path is returned, with an empty Subpath. */
  lemma LookupExact(s: seq<PathConfig>, path: string, j: nat)
    requires StrictlySorted(s) && j < |s| && s[j].path == path
    ensures Lookup(s, path) == PathReq(Some(j), "")
  {
    ExactAtSearchIndex(s, path, j);
  }

  /** A prefix route that is longer than the route sitting just before the search index cannot exist. */
  lemma NoLongerPrefixAbove(s: seq<PathConfig>, path: string, j: nat)
    requires StrictlySorted(s) && j < |s|
    requires var i := SearchIndex(s, path); 0 < i && HasPrefix(path, s[i - 1].path)
    requires HasPrefix(path, s[j].path) && |s[j].path| < |path|
    ensures |s[j].path| <= |s[SearchIndex(s, path) - 1].path|
  {
    var i := SearchIndex(s, path);
    var p := s[i - 1].path;
    StrictlySortedIsSorted(s);
    ProperPrefixBelowSearch(s, path, j);
    if |s[j].path| > |p| {
      PrefixOfPrefix(path, p, s[j].path);
      ProperPrefixLess(p, s[j].path);
      StrictlySortedPositions(s, i - 1, j);
    }
  }

  /**
   * On a strictly sorted table (what newHandler builds), find returns the route
   * with the longest path that prefixes the request, with the rest of the path
   * (less a separating "/" on the fast path) as Subpath; and it finds nothing
   * only when no non-empty route path prefixes the request.
   */
  lemma LookupLongestPrefix(s: seq<PathConfig>, path: string)
    requires StrictlySorted(s)
    ensures var r := Lookup(s, path);
      r.entry.Some? ==>
        && LongestPrefixEntry(s, path, r.entry.value)
        && (path == s[r.entry.value].path ==> r.subpath == "")
    ensures var r := Lookup(s, path);
      r.entry.None? ==> forall j :: 0 <= j < |s| && HasPrefix(path, s[j].path) ==> s[j].path == ""
  {
    var i := SearchIndex(s, path);
    var r := Lookup(s, path);
    StrictlySortedIsSorted(s);
    SearchFindsBoundary(s, path);
    if i < |s| && s[i].path == path {
      // exact match: nothing longer than the path itself prefixes it
    } else {
      // no route equals the path
      forall j | 0 <= j < |s| ensures s[j].path != path {
        if s[j].path == path { ExactAtSearchIndex(s, path, j); }
      }
      if i > 0 && HasPrefix(path, s[i - 1].path + "/") {
        var p := s[i - 1].path;
        assert path[..|p|] == (p + "/")[..|p|];
        forall j | 0 <= j < |s| && HasPrefix(path, s[j].path) ensures |s[j].path| <= |p| {
          NoLongerPrefixAbove(s, path, j);
        }
      } else {
        ScanShortest(s, path, i);
        ScanIsMinimal(s, path, i);
        forall j | 0 <= j < |s| && HasPrefix(path, s[j].path) && s[j].path != ""
          ensures r.entry.Some? && |s[j].path| <= |s[r.entry.value].path|
        {
          ProperPrefixBelowSearch(s, path, j);
          assert Candidate(s, path, j);
          assert |TrimPrefix(path, s[j].path)| == |path| - |s[j].path|;
        }
      }
    }
  }

  /** Conversely, the longest non-empty prefix route is the one find returns. */
  lemma LongestPrefixIsFound(s: seq<PathConfig>, path: string, m: nat)
    requires StrictlySorted(s)
    requires LongestPrefixEntry(s, path, m) && s[m].path != ""
    ensures Lookup(s, path).entry == Some(m)
  {
    LookupLongestPrefix(s, path);
    var r := Lookup(s, path);
    var k := r.entry.value;
    assert |s[k].path| == |s[m].path|;
    assert s[k].path == path[..|s[k].path|] == s[m].path;
    if k < m { assert Less(s[k].path, s[m].path); LessIrreflexive(s[k].path); }
    if m < k { assert Less(s[m].path, s[k].path); LessIrreflexive(s[m].path); }
  }
}
