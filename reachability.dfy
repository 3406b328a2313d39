/** Paths and reachability in a finite directed graph given as successor sets. */
module Reachability {

  /** p is a non-empty walk along edges of g. */
  ghost predicate IsPath<T>(g: map<T, set<T>>, p: seq<T>) {
    |p| > 0 && forall i | 0 <= i < |p| - 1 :: p[i] in g && p[i + 1] in g[p[i]]
  }

  /** b can be reached from a by following zero or more edges. */
  ghost predicate Reachable<T(!new)>(g: map<T, set<T>>, a: T, b: T) {
    exists p :: IsPath(g, p) && p[0] == a && p[|p| - 1] == b
  }

  /** Every successor of a member of s is in s. */
  ghost predicate ClosedIn<T>(g: map<T, set<T>>, s: set<T>) {
    forall x | x in s :: x in g && g[x] <= s
  }

  lemma ReachableFromItself<T(!new)>(g: map<T, set<T>>, a: T)
    ensures Reachable(g, a, a)
  {
    assert IsPath(g, [a]);
  }

  /** Stepping to a successor first keeps everything reachable from it reachable. */
  lemma {:induction false} ReachableViaSuccessor<T(!new)>(g: map<T, set<T>>, a: T, c: T, b: T)
    requires a in g && c in g[a] && Reachable(g, c, b)
    ensures Reachable(g, a, b)
  {
    var p :| IsPath(g, p) && p[0] == c && p[|p| - 1] == b;
    var q := [a] + p;
    forall i | 0 <= i < |q| - 1
      ensures q[i] in g && q[i + 1] in g[q[i]]
    {
      if i > 0 {
        assert q[i] == p[i - 1] && q[i + 1] == p[i];
      }
    }
    assert IsPath(g, q) && q[0] == a && q[|q| - 1] == b;
  }

  /** Every node of a path that starts inside a closed set lies inside it. */
  lemma {:induction false} PathStaysInside<T>(g: map<T, set<T>>, s: set<T>, p: seq<T>, k: nat)
    requires IsPath(g, p) && p[0] in s && ClosedIn(g, s) && k < |p|
    ensures p[k] in s
  {
    if k > 0 {
      PathStaysInside(g, s, p, k - 1);
      assert p[k - 1] in g && p[k] in g[p[k - 1]];
    }
  }

  /** A closed set that contains a contains everything reachable from a. */
  lemma {:induction false} ClosedContainsReachable<T(!new)>(g: map<T, set<T>>, s: set<T>, a: T, b: T)
    requires a in s && ClosedIn(g, s) && Reachable(g, a, b)
    ensures b in s
  {
    var p :| IsPath(g, p) && p[0] == a && p[|p| - 1] == b;
    PathStaysInside(g, s, p, |p| - 1);
  }
}
