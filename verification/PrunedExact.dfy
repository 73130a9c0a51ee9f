/** When the pruned search of src/analysis/walker.h finds all that it should, in terms of the graph alone. */
module PrunedExact {
  import opened Graphs
  import opened Dfs
  import opened NodeOrder
  import opened PrunedReach

  /** What `IsReachablePruned` answers. */
  ghost predicate Finds(g: Graph, src: nat, dest: nat, prune: nat -> bool)
    requires src < |g|
  {
    EntersUnpruned([], Visit(g, src, {}).log, dest, prune)
  }

  ghost predicate HasUnprunedPath(g: Graph, src: nat, dest: nat, prune: nat -> bool) {
    exists p :: UnprunedPath(g, p, src, dest, prune)
  }

  ghost predicate SimplePath(g: Graph, p: seq<nat>, src: nat, dest: nat) {
    Connects(g, p, src, dest) && Distinct(p)
  }

  /** No pruned node is before `dest` on any simple path. */
  ghost predicate Unhidden(g: Graph, src: nat, dest: nat, prune: nat -> bool) {
    forall p :: SimplePath(g, p, src, dest) ==> Unpruned(p[..|p| - 1], prune)
  }

  // ---- Unhidden nodes are found ----

  lemma {:induction false} CollectedIsEntered(log: seq<Event>, d: nat) returns (k: nat)
    requires d in Collected(Preorder, log)
    ensures k < |log| && log[k] == Pre(d)
    decreases |log|
  {
    if log[0] == Pre(d) {
      k := 0;
    } else {
      k := CollectedIsEntered(log[1..], d);
      k := k + 1;
    }
  }

  lemma ReachedIsEntered(g: Graph, src: nat, dest: nat) returns (k: nat)
    requires src < |g| && Reaches(g, src, dest)
    ensures k < |Visit(g, src, {}).log| && Visit(g, src, {}).log[k] == Pre(dest)
  {
    OrderListsReachable(Preorder, g, src);
    k := CollectedIsEntered(Visit(g, src, {}).log, dest);
  }

  /** If no simple path has a pruned node before `dest`, the search is as good as one without pruning. */
  lemma UnhiddenIsFound(g: Graph, src: nat, dest: nat, prune: nat -> bool)
    requires src < |g| && Unhidden(g, src, dest, prune)
    ensures Finds(g, src, dest, prune) <==> Reaches(g, src, dest)
    ensures HasUnprunedPath(g, src, dest, prune) <==> Reaches(g, src, dest)
  {
    if Reaches(g, src, dest) {
      var k := ReachedIsEntered(g, src, dest);
      var q := CallsFormPath(g, src, {}, [], k);
      assert [] + q == q && (q + [dest])[..|q|] == q;
      assert SimplePath(g, q + [dest], src, dest);
    }
    if Finds(g, src, dest, prune) {
      FoundByUnprunedPath(g, src, dest, prune);
    }
  }

  // ---- Other nodes are missed, with the links in some order ----

  /** The same links, in another order. */
  ghost predicate Reordered(g: Graph, h: Graph) {
    |h| == |g| && forall v :: 0 <= v < |g| ==> multiset(h[v]) == multiset(g[v])
  }

  lemma SameEdges(g: Graph, h: Graph, u: nat, v: nat)
    requires Reordered(g, h)
    ensures Edge(g, u, v) <==> Edge(h, u, v)
  {
    if u < |g| {
      assert v in multiset(g[u]) <==> v in multiset(h[u]);
    }
  }

  lemma SamePaths(g: Graph, h: Graph, p: seq<nat>, src: nat, dest: nat)
    requires Reordered(g, h)
    ensures Connects(g, p, src, dest) <==> Connects(h, p, src, dest)
  {
    forall u: nat, v: nat ensures Edge(g, u, v) <==> Edge(h, u, v) {
      SameEdges(g, h, u, v);
    }
  }

  /** `list` with its first `x` moved to the front. */
  ghost function Front(list: seq<nat>, x: nat): (r: seq<nat>)
    requires x in list
    ensures multiset(r) == multiset(list) && r != [] && r[0] == x
  {
    var k :| 0 <= k < |list| && list[k] == x;
    assert list == list[..k] + [x] + list[k + 1..];
    [x] + list[..k] + list[k + 1..]
  }

  /** Every node of `p` but the last links first to the next one. */
  ghost predicate Leads(g: Graph, p: seq<nat>) {
    forall k: nat :: k + 1 < |p| ==> LeadsAt(g, p, k)
  }

  ghost predicate LeadsAt(g: Graph, p: seq<nat>, k: nat) {
    k + 1 < |p| && p[k] < |g| && g[p[k]] != [] && g[p[k]][0] == p[k + 1]
  }

  lemma PathTail(g: Graph, p: seq<nat>)
    requires IsPath(g, p) && |p| > 1
    ensures Edge(g, p[0], p[1]) && IsPath(g, p[1..])
  {
    assert Edge(g, p[0], p[0 + 1]);
    forall i | 0 <= i < |p[1..]| - 1 ensures Edge(g, p[1..][i], p[1..][i + 1]) {
      assert Edge(g, p[i + 1], p[i + 1 + 1]);
    }
  }

  /** The links can be put in an order in which a walk follows a given simple path. */
  lemma {:induction false} LeadAlong(g: Graph, p: seq<nat>) returns (h: Graph)
    requires IsPath(g, p) && Distinct(p)
    ensures Reordered(g, h) && Leads(h, p)
    ensures forall v: nat :: v < |g| && v !in p ==> h[v] == g[v]
    decreases |p|
  {
    if |p| == 1 {
      h := g;
    } else {
      PathTail(g, p);
      var tail := p[1..];
      var h1 := LeadAlong(g, tail);
      assert p[0] !in tail;
      SameEdges(g, h1, p[0], p[1]);
      h := Redirect(h1, p[0], p[1]);
      forall k: nat | k + 1 < |p| ensures LeadsAt(h, p, k) {
        assert k > 0 ==> LeadsAt(h1, tail, k - 1);
      }
    }
  }

  lemma Redirect(g: Graph, v: nat, x: nat) returns (h: Graph)
    requires Edge(g, v, x)
    ensures Reordered(g, h) && h == g[v := Front(g[v], x)]
  {
    var list := Front(g[v], x);
    var r := g[v := list];
    forall u, i | 0 <= u < |r| && 0 <= i < |r[u]| ensures r[u][i] < |r| {
      if u == v {
        assert list[i] in multiset(list);
        assert list[i] in g[v];
      }
    }
    h := r;
  }

  /** The callback numbered `k` enters `p[k]`, while those before it in `p` are in progress. */
  ghost predicate EntersInside(log: seq<Event>, p: seq<nat>, open: seq<nat>, k: nat)
    requires k < |p|
  {
    k < |log| && log[k] == Pre(p[k]) && InProgress(open, log[..k]) == open + p[..k]
  }

  /** Such a walk enters the nodes of the path one inside the other. */
  lemma {:induction false} WalkFollows(g: Graph, p: seq<nat>, seen: set<nat>, open: seq<nat>, k: nat)
    requires p != [] && p[0] < |g| && Fresh(p, seen) && Leads(g, p) && seen <= Nodes(g) && k < |p|
    ensures EntersInside(Visit(g, p[0], seen).log, p, open, k)
    decreases |p|
  {
    var v := p[0];
    if k == 0 {
      assert Visit(g, v, seen).log[..0] == [] && open + p[..0] == open;
    } else {
      var tail := p[1..];
      LeadsTail(g, p, seen);
      WalkFollows(g, tail, seen + {v}, open + [v], k - 1);
      FirstChild(g, v, tail[0], seen, open, k);
      PrefixOfTail(open, p, k);
    }
  }

  lemma PrefixOfTail(open: seq<nat>, p: seq<nat>, k: nat)
    requires 0 < k <= |p|
    ensures open + [p[0]] + p[1..][..k - 1] == open + p[..k]
  {
    assert p[..k] == [p[0]] + p[1..][..k - 1];
  }

  lemma LeadsTail(g: Graph, p: seq<nat>, seen: set<nat>)
    requires |p| > 1 && Leads(g, p) && Fresh(p, seen)
    ensures p[0] < |g| && g[p[0]] != [] && g[p[0]][0] == p[1] && Leads(g, p[1..]) && Fresh(p[1..], seen + {p[0]})
  {
    assert LeadsAt(g, p, 0);
    forall i: nat | i + 1 < |p[1..]| ensures LeadsAt(g, p[1..], i) {
      assert LeadsAt(g, p, i + 1);
    }
  }

  /** The walk of the first link is the first thing inside that of `v`. */
  lemma FirstChild(g: Graph, v: nat, t: nat, seen: set<nat>, open: seq<nat>, k: nat)
    requires v < |g| && v !in seen && seen <= Nodes(g) && g[v] != [] && g[v][0] == t && t !in seen + {v}
    requires 0 < k <= |Visit(g, t, seen + {v}).log|
    ensures var log, child := Visit(g, v, seen).log, Visit(g, t, seen + {v}).log;
            && k < |log| && InProgress(open, log[..k]) == InProgress(open + [v], child[..k - 1])
            && log[k] == child[k - 1]
  {
    var inner, child := VisitLinks(g, v, 0, seen + {v}).log, Visit(g, t, seen + {v}).log;
    assert child <= inner && inner[..k - 1] == child[..k - 1];
    InProgressInside(open, v, inner, k);
  }

  /** No node is entered twice. */
  lemma EnteredOnce(g: Graph, src: nat, j: nat, k: nat)
    requires src < |g| && j < k < |Visit(g, src, {}).log|
    requires Visit(g, src, {}).log[j].Pre?
    ensures Visit(g, src, {}).log[j] != Visit(g, src, {}).log[k]
  {
    var log := Visit(g, src, {}).log;
    var d := log[j].node;
    if log[k] == Pre(d) {
      EnteredIsCollected(log[..k], j);
      EnteredIsCollected(log[k..], 0);
      CollectedConcat(Preorder, log[..k], log[k..]);
      assert log == log[..k] + log[k..];
      var a, b: seq<nat> := Collected(Preorder, log[..k]), Collected(Preorder, log[k..]);
      assert d in multiset(a) && d in multiset(b);
      assert multiset(a + b) == multiset(a) + multiset(b);
      CollectsVisited(Preorder, g, src, {}, d);
    }
  }

  /** A walk along a simple path with a pruned node before `dest` misses `dest`. */
  lemma LedIsMissed(g: Graph, p: seq<nat>, src: nat, dest: nat, prune: nat -> bool)
    requires src < |g| && SimplePath(g, p, src, dest) && Leads(g, p) && !Unpruned(p[..|p| - 1], prune)
    ensures !Finds(g, src, dest, prune)
  {
    var log, n := Visit(g, src, {}).log, |p| - 1;
    WalkFollows(g, p, {}, [], n);
    assert [] + p[..n] == p[..n];
    forall k | 0 <= k < |log| && log[k] == Pre(dest) ensures k == n {
      if k < n {
        EnteredOnce(g, src, k, n);
      } else if n < k {
        EnteredOnce(g, src, n, k);
      }
    }
  }

  /** Whatever the order of links, the search finds `dest` exactly when an unpruned path leads there,
      if and only if there is no such path or no simple path has a pruned node before `dest`. */
  lemma CompleteExactly(g: Graph, src: nat, dest: nat, prune: nat -> bool)
    requires src < |g|
    ensures (forall h: Graph :: Reordered(g, h) ==>
               (Finds(h, src, dest, prune) <==> HasUnprunedPath(g, src, dest, prune)))
       <==> !HasUnprunedPath(g, src, dest, prune) || Unhidden(g, src, dest, prune)
  {
    if !HasUnprunedPath(g, src, dest, prune) || Unhidden(g, src, dest, prune) {
      forall h: Graph | Reordered(g, h) ensures Finds(h, src, dest, prune) <==> HasUnprunedPath(g, src, dest, prune) {
        CompleteOn(g, h, src, dest, prune);
      }
    } else {
      var p :| SimplePath(g, p, src, dest) && !Unpruned(p[..|p| - 1], prune);
      var h := LeadAlong(g, p);
      SamePaths(g, h, p, src, dest);
      LedIsMissed(h, p, src, dest, prune);
    }
  }

  lemma CompleteOn(g: Graph, h: Graph, src: nat, dest: nat, prune: nat -> bool)
    requires src < |g| && Reordered(g, h)
    requires !HasUnprunedPath(g, src, dest, prune) || Unhidden(g, src, dest, prune)
    ensures Finds(h, src, dest, prune) <==> HasUnprunedPath(g, src, dest, prune)
  {
    forall p ensures Connects(g, p, src, dest) <==> Connects(h, p, src, dest) {
      SamePaths(g, h, p, src, dest);
    }
    if Finds(h, src, dest, prune) {
      FoundByUnprunedPath(h, src, dest, prune);
      var p :| UnprunedPath(h, p, src, dest, prune);
      assert UnprunedPath(g, p, src, dest, prune);
    }
    if HasUnprunedPath(g, src, dest, prune) {
      var p :| UnprunedPath(g, p, src, dest, prune);
      assert Connects(h, p, src, dest);
      assert Unhidden(h, src, dest, prune);
      UnhiddenIsFound(h, src, dest, prune);
    }
  }
}
