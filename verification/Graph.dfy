/** Directed graphs as the walkers see them: one list of link targets per node. */
module Graphs {
  /** Every link leads to a node of the graph. */
  predicate Closed(g: seq<seq<nat>>) {
    forall v, i :: 0 <= v < |g| && 0 <= i < |g[v]| ==> g[v][i] < |g|
  }

  /** `g[v]` lists the targets of the links of node `v`, in order. */
  type Graph = g: seq<seq<nat>> | Closed(g)

  /** The first `n` node ids. */
  function Ids(n: nat): (s: set<nat>)
    ensures forall v: nat :: v in s <==> v < n
    ensures |s| == n
  {
    if n == 0 then {} else Ids(n - 1) + {n - 1}
  }

  function Nodes(g: Graph): (s: set<nat>)
    ensures forall v: nat :: v in s <==> v < |g|
  {
    Ids(|g|)
  }

  predicate Edge(g: Graph, u: nat, v: nat) {
    u < |g| && v in g[u]
  }

  /** `bwd` lists, for each node, the nodes that `fwd` links to it. */
  ghost predicate Mirrored(fwd: Graph, bwd: Graph) {
    |fwd| == |bwd| && forall u: nat, v: nat :: Edge(fwd, u, v) <==> Edge(bwd, v, u)
  }

  ghost predicate IsPath(g: Graph, p: seq<nat>) {
    && p != []
    && p[0] < |g|
    && forall i :: 0 <= i < |p| - 1 ==> Edge(g, p[i], p[i + 1])
  }

  ghost predicate Connects(g: Graph, p: seq<nat>, u: nat, v: nat) {
    IsPath(g, p) && p[0] == u && p[|p| - 1] == v
  }

  ghost predicate Reaches(g: Graph, u: nat, v: nat) {
    exists p :: Connects(g, p, u, v)
  }

  /** A set that no link leaves. */
  ghost predicate ClosedUnder(g: Graph, s: set<nat>) {
    forall u, v | u in s && Edge(g, u, v) :: v in s
  }

  lemma ReachesSelf(g: Graph, u: nat)
    requires u < |g|
    ensures Reaches(g, u, u)
  {
    assert Connects(g, [u], u, u);
  }

  lemma EdgeReaches(g: Graph, u: nat, v: nat)
    requires Edge(g, u, v)
    ensures Reaches(g, u, v)
  {
    assert Connects(g, [u, v], u, v);
  }

  lemma ReachesTransitive(g: Graph, u: nat, v: nat, w: nat)
    requires Reaches(g, u, v) && Reaches(g, v, w)
    ensures Reaches(g, u, w)
  {
    var p :| Connects(g, p, u, v);
    var q :| Connects(g, q, v, w);
    assert Connects(g, p + q[1..], u, w);
  }

  /** A path never leaves a set that is closed under links. */
  lemma {:induction false} PathStaysInside(g: Graph, s: set<nat>, p: seq<nat>, k: nat)
    requires ClosedUnder(g, s) && IsPath(g, p) && p[0] in s && k < |p|
    ensures p[k] in s
  {
    if k > 0 {
      PathStaysInside(g, s, p, k - 1);
      assert Edge(g, p[k - 1], p[k]);
    }
  }

  lemma ReachesStaysInside(g: Graph, s: set<nat>, u: nat, v: nat)
    requires ClosedUnder(g, s) && u in s && Reaches(g, u, v)
    ensures v in s
  {
    var p :| Connects(g, p, u, v);
    PathStaysInside(g, s, p, |p| - 1);
  }

  ghost function Elements<T>(s: seq<T>): set<T> {
    set x | x in s
  }

  predicate Distinct<T(==)>(s: seq<T>) {
    forall i, j :: 0 <= i < j < |s| ==> s[i] != s[j]
  }

  function Reverse<T>(s: seq<T>): (r: seq<T>)
    ensures |r| == |s|
    ensures forall i :: 0 <= i < |s| ==> r[i] == s[|s| - 1 - i]
  {
    seq(|s|, i requires 0 <= i < |s| => s[|s| - 1 - i])
  }

  lemma DistinctByCount<T>(s: seq<T>)
    requires forall x :: multiset(s)[x] <= 1
    ensures Distinct(s)
  {
    forall i, j | 0 <= i < j < |s| ensures s[i] != s[j] {
      assert s == s[..i] + [s[i]] + s[i + 1..j] + [s[j]] + s[j + 1..];
      assert multiset(s)[s[i]] >= multiset([s[i]])[s[i]] + multiset([s[j]])[s[i]];
    }
  }

  lemma {:induction false} DistinctCounts<T>(s: seq<T>, x: T)
    requires Distinct(s)
    ensures multiset(s)[x] <= 1
  {
    if s != [] {
      DistinctCounts(s[1..], x);
      assert s == [s[0]] + s[1..];
      assert x == s[0] ==> x !in s[1..];
    }
  }

  /** Reordering keeps elements and distinctness. */
  lemma SameElements<T>(a: seq<T>, b: seq<T>)
    requires multiset(a) == multiset(b)
    ensures |a| == |b|
    ensures forall x :: x in a <==> x in b
    ensures Distinct(a) ==> Distinct(b)
  {
    assert |a| == |multiset(a)| == |multiset(b)| == |b|;
    forall x ensures x in a <==> x in b {
      assert x in a <==> x in multiset(a);
    }
    if Distinct(a) {
      forall x ensures multiset(b)[x] <= 1 { DistinctCounts(a, x); }
      DistinctByCount(b);
    }
  }

  lemma ReverseElements<T>(s: seq<T>)
    ensures forall x :: x in Reverse(s) <==> x in s
    ensures Distinct(s) ==> Distinct(Reverse(s))
  {
    forall x | x in s ensures x in Reverse(s) {
      var i :| 0 <= i < |s| && s[i] == x;
      assert Reverse(s)[|s| - 1 - i] == x;
    }
  }

  /** The lists after appending `ids` to list number `k`. */
  function Grown(lists: seq<seq<nat>>, k: nat, ids: seq<nat>): seq<seq<nat>>
    requires k < |lists|
  {
    lists[k := lists[k] + ids]
  }

  lemma GrownTwice(lists: seq<seq<nat>>, k: nat, a: seq<nat>, b: seq<nat>)
    requires k < |lists|
    ensures Grown(Grown(lists, k, a), k, b) == Grown(lists, k, a + b)
    ensures Grown(lists, k, []) == lists
  {
    assert lists[k] + a + b == lists[k] + (a + b);
    assert lists[k] + [] == lists[k];
  }
}
