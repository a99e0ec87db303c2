/**
 * The route table (the PathConfigs slice of handler.go) and its sort.Interface
 * methods Len, Less and Swap, which newHandler hands to sort.Sort.
 */
module Table {
  import opened GoStrings
  import opened Configs

  /** PathConfigs.Len: the number of routes, as sort.Sort and find ask for it. */
  function Len(pset: array<PathConfig>): (n: nat) {
    pset.Length
  }

  /** PathConfigs.Less: Go's string order on the routes' paths. */
  predicate LessAt(pset: array<PathConfig>, i: nat, j: nat)
    requires i < pset.Length && j < pset.Length
    reads pset
  {
    Less(pset[i].path, pset[j].path)
  }

  /** PathConfigs.Swap */
  method Swap(pset: array<PathConfig>, i: nat, j: nat)
    requires i < pset.Length && j < pset.Length
    modifies pset
    ensures pset[..] == old(pset[..])[i := old(pset[j])][j := old(pset[i])]
    ensures multiset(pset[..]) == multiset(old(pset[..]))
  {
    pset[i], pset[j] := pset[j], pset[i];
  }

  /** Ascending by path, equal paths allowed: what sort.Sort promises. */
  predicate Sorted(s: seq<PathConfig>) {
    forall i, j :: 0 <= i < j < |s| ==> !Less(s[j].path, s[i].path)
  }

  /** Every neighbour in order. */
  predicate NeighboursSorted(s: seq<PathConfig>) {
    forall k :: 0 < k < |s| ==> !Less(s[k].path, s[k - 1].path)
  }

  /** Ascending by path with no path twice. */
  predicate StrictlySorted(s: seq<PathConfig>) {
    forall i, j :: 0 <= i < j < |s| ==> Less(s[i].path, s[j].path)
  }

  /** No two entries share a path. */
  predicate DistinctPaths(s: seq<PathConfig>) {
    forall i, j :: 0 <= i < j < |s| ==> s[i].path != s[j].path
  }

  /** "Not less than" is transitive, since Less is a strict total order. */
  lemma NotLessTransitive(a: string, b: string, c: string)
    requires !Less(b, a) && !Less(c, b)
    ensures !Less(c, a)
  {
    LessTotal(a, b);
    LessTransitive(c, a, b);
  }

  lemma {:induction false} NeighboursSortedIsSorted(s: seq<PathConfig>)
    requires NeighboursSorted(s)
    ensures Sorted(s)
    decreases |s|
  {
    if |s| > 1 {
      var t := s[..|s| - 1];
      assert NeighboursSorted(t) by {
        forall k | 0 < k < |t| ensures !Less(t[k].path, t[k - 1].path) {
          assert t[k] == s[k] && t[k - 1] == s[k - 1];
        }
      }
      NeighboursSortedIsSorted(t);
      forall i, j | 0 <= i < j < |s| ensures !Less(s[j].path, s[i].path) {
        if j < |s| - 1 {
          assert s[i] == t[i] && s[j] == t[j];
        } else if i < j - 1 {
          assert s[i] == t[i] && s[j - 1] == t[j - 1];
          NotLessTransitive(s[i].path, s[j - 1].path, s[j].path);
        }
      }
    }
  }

  /** A sorted table whose paths are distinct is strictly ascending. */
  lemma SortedDistinctIsStrict(s: seq<PathConfig>)
    requires Sorted(s) && DistinctPaths(s)
    ensures StrictlySorted(s)
  {
    forall i, j | 0 <= i < j < |s| ensures Less(s[i].path, s[j].path) {
      LessTotal(s[i].path, s[j].path);
    }
  }

  lemma StrictlySortedIsSorted(s: seq<PathConfig>)
    requires StrictlySorted(s)
    ensures Sorted(s)
  {
    forall i, j | 0 <= i < j < |s| ensures !Less(s[j].path, s[i].path) {
      LessAsymmetric(s[i].path, s[j].path);
    }
  }

  /** In a strictly sorted table, the order of paths is the order of positions. */
  lemma StrictlySortedPositions(s: seq<PathConfig>, i: nat, j: nat)
    requires StrictlySorted(s) && i < |s| && j < |s|
    requires Less(s[i].path, s[j].path)
    ensures i < j
  {
    if j < i { LessAsymmetric(s[j].path, s[i].path); }
    if j == i { LessIrreflexive(s[i].path); }
  }

  /** sort.Sort(pset), as an insertion sort built from Less and Swap. */
  method Sort(pset: array<PathConfig>)
    modifies pset
    ensures Sorted(pset[..])
    ensures multiset(pset[..]) == multiset(old(pset[..]))
  {
    var n, i := Len(pset), 1;
    while i < n
      invariant pset.Length == 0 || 1 <= i <= pset.Length
      invariant forall k :: 0 < k < i && k < pset.Length ==> !Less(pset[k].path, pset[k - 1].path)
      invariant multiset(pset[..]) == multiset(old(pset[..]))
    {
      var j := i;
      while j > 0 && LessAt(pset, j, j - 1)
        invariant 0 <= j <= i < pset.Length
        invariant forall k :: 0 < k <= i && k != j ==> !Less(pset[k].path, pset[k - 1].path)
        invariant 0 < j < i ==> !Less(pset[j + 1].path, pset[j - 1].path)
        invariant multiset(pset[..]) == multiset(old(pset[..]))
      {
        LessAsymmetric(pset[j].path, pset[j - 1].path);
        Swap(pset, j, j - 1);
        j := j - 1;
      }
      i := i + 1;
    }
    NeighboursSortedIsSorted(pset[..]);
  }

  lemma {:induction false} DistinctPathsCount(s: seq<PathConfig>, x: PathConfig)
    requires DistinctPaths(s)
    ensures multiset(s)[x] <= 1
    decreases |s|
  {
    if |s| > 0 {
      var t := s[..|s| - 1];
      assert s == t + [s[|s| - 1]];
      assert DistinctPaths(t) by {
        forall i, j | 0 <= i < j < |t| ensures t[i].path != t[j].path {
          assert t[i] == s[i] && t[j] == s[j];
        }
      }
      DistinctPathsCount(t, x);
      if x == s[|s| - 1] {
        forall i | 0 <= i < |t| ensures t[i] != x { assert t[i] == s[i]; }
        assert x !in t;
      }
    }
  }

  lemma RepeatedCount(s: seq<PathConfig>, i: nat, j: nat)
    requires i < j < |s| && s[i] == s[j]
    ensures multiset(s)[s[i]] >= 2
  {
    assert s == s[..j] + [s[j]] + s[j + 1..];
    assert s[i] in s[..j];
  }

  /** In a table with distinct paths, the path of an entry determines it. */
  lemma SamePathSameEntry(s: seq<PathConfig>, x: PathConfig, y: PathConfig)
    requires DistinctPaths(s) && x in multiset(s) && y in multiset(s) && x.path == y.path
    ensures x == y
  {
    var p :| 0 <= p < |s| && s[p] == x;
    var q :| 0 <= q < |s| && s[q] == y;
    if p < q || q < p { assert false; }
  }

  /**
   * A permutation of a table with distinct paths has distinct paths.
   */
  lemma PermutationKeepsDistinct(s: seq<PathConfig>, t: seq<PathConfig>)
    requires multiset(s) == multiset(t) && DistinctPaths(s)
    ensures DistinctPaths(t)
  {
    forall i, j | 0 <= i < j < |t| ensures t[i].path != t[j].path {
      if t[i].path == t[j].path {
        SamePathSameEntry(s, t[i], t[j]);
        RepeatedCount(t, i, j);
        DistinctPathsCount(s, t[i]);
      }
    }
  }

  /**
   * A strictly sorted arrangement of a set of entries is unique, so every
   * correct sort of a table with distinct paths yields the same table.
   */
  lemma {:induction false} StrictlySortedUnique(s: seq<PathConfig>, t: seq<PathConfig>)
    requires StrictlySorted(s) && StrictlySorted(t)
    requires forall x :: x in s <==> x in t
    ensures s == t
    decreases |s|
  {
    if |s| == 0 {
      if |t| > 0 {
        FirstIsIn(t);
        assert false;
      }
    } else {
      assert s[0] in s;
      var k :| 0 <= k < |t| && t[k] == s[0];
      assert t[0] in t;
      var m :| 0 <= m < |s| && s[m] == t[0];
      if k > 0 {
        if m > 0 {
          LessAsymmetric(s[0].path, t[0].path);
        } else {
          LessIrreflexive(t[0].path);
        }
        assert false;
      }
      forall x ensures x in s[1..] <==> x in t[1..] {
        SameRest(s, x);
        SameRest(t, x);
      }
      StrictlySortedUnique(s[1..], t[1..]);
    }
  }

  lemma FirstIsIn(t: seq<PathConfig>)
    requires |t| > 0
    ensures t[0] in t
  {
  }

  /** In a strictly sorted table, an entry is after the first one exactly when it is in the table and is not the first one. */
  lemma SameRest(s: seq<PathConfig>, x: PathConfig)
    requires StrictlySorted(s) && |s| > 0
    ensures x in s[1..] <==> x in s && x != s[0]
  {
    if x in s[1..] {
      var j :| 0 <= j < |s[1..]| && s[1..][j] == x;
      assert s[j + 1] == x;
      if x == s[0] { LessIrreflexive(x.path); }
    }
    if x in s && x != s[0] {
      var j :| 0 <= j < |s| && s[j] == x;
      assert s[1..][j - 1] == x;
    }
  }
}
