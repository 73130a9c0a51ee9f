/** Dominance over all paths from node 0, and how the partial trees approximate it. */
module Dominators {
  import opened Graphs
  import opened DomTree
  import opened DomPass

  /** Every path from node 0 to `v` goes through `d`. */
  ghost predicate Dominates(g: Graph, d: nat, v: nat) {
    forall p :: Connects(g, p, 0, v) ==> d in p
  }

  ghost predicate StrictlyDominates(g: Graph, d: nat, v: nat) {
    d != v && Dominates(g, d, v)
  }

  /** The strict dominator that all other strict dominators dominate. */
  ghost predicate ImmediateDominator(g: Graph, d: nat, v: nat) {
    StrictlyDominates(g, d, v) && forall e :: StrictlyDominates(g, e, v) ==> Dominates(g, e, d)
  }

  lemma RootOnlyItself(g: Graph, d: nat)
    requires |g| > 0 && Dominates(g, d, 0)
    ensures d == 0
  {
    assert Connects(g, [0], 0, 0);
  }

  lemma DominatesPred(g: Graph, d: nat, u: nat, v: nat)
    requires StrictlyDominates(g, d, v) && Edge(g, u, v)
    ensures Dominates(g, d, u)
  {
    forall p | Connects(g, p, 0, u) ensures d in p {
      assert Connects(g, p + [v], 0, v);
    }
  }

  /** No dominator is lost: a strict dominator of a node dominates its parent. */
  ghost predicate Optimistic(g: Graph, rank: seq<int>, par: seq<int>)
    requires Tree(rank, par)
  {
    forall d: nat, v: nat :: StrictlyDominates(g, d, v) ==> OptimisticAt(g, rank, par, d, v)
  }

  ghost predicate OptimisticAt(g: Graph, rank: seq<int>, par: seq<int>, d: nat, v: nat)
    requires Tree(rank, par)
  {
    assert ParentBelow(rank, par, v);
    v != 0 && IsSet(par, v) ==> Dominates(g, d, par[v])
  }

  /** So dominators are ancestors. */
  lemma {:induction false} DominatorIsAncestor(g: Graph, rank: seq<int>, par: seq<int>, d: nat, v: nat)
    requires |g| > 0 && Tree(rank, par) && Optimistic(g, rank, par) && IsSet(par, v) && Dominates(g, d, v)
    ensures InChain(rank, par, d, v)
    decreases rank[v]
  {
    if v == 0 {
      RootOnlyItself(g, d);
    } else if d != v {
      assert ParentBelow(rank, par, v) && OptimisticAt(g, rank, par, d, v);
      DominatorIsAncestor(g, rank, par, d, par[v]);
    }
  }

  /** A dominator of `v` dominates the ancestors of `v` that are not numbered below it. */
  lemma {:induction false} DominatesAncestor(g: Graph, rank: seq<int>, par: seq<int>, d: nat, v: nat, b: nat)
    requires |g| > 0 && Tree(rank, par) && Optimistic(g, rank, par) && IsSet(par, v) && Dominates(g, d, v)
    requires IsSet(par, d) && IsSet(par, b) && InChain(rank, par, b, v) && rank[d] <= rank[b]
    ensures Dominates(g, d, b)
    decreases rank[v]
  {
    if b != v {
      ChainRank(rank, par, b, par[v]);
      assert OptimisticAt(g, rank, par, d, v);
      DominatesAncestor(g, rank, par, d, par[v], b);
    }
  }

  /** The graph, its links backwards, and the numbering of the nodes reachable from node 0. */
  ghost predicate Numbered(g: Graph, preds: Graph, rank: seq<int>) {
    && |g| == |preds| > 0 && Preds(rank, preds)
    && (forall u: nat, v: nat :: Edge(g, u, v) <==> Edge(preds, v, u))
    && (forall v: nat :: v < |g| ==> (rank[v] >= 0 <==> Reaches(g, 0, v)))
  }

  /** Giving `v` the nearest common ancestor of its predecessors loses no dominator. */
  lemma StepIsOptimistic(g: Graph, preds: Graph, rank: seq<int>, par: seq<int>, v: nat, b: nat, par': seq<int>)
    requires Numbered(g, preds, rank) && Optimistic'(g, rank, par) && Reparented(rank, par, v, b, par')
    requires rank[v] > 0 && SetBelow(rank, par, rank[v]) && Meet(rank, par, preds[v], b)
    ensures Optimistic(g, rank, par')
  {
    forall d: nat | StrictlyDominates(g, d, v) ensures Dominates(g, d, b) {
      forall i | 0 <= i < |preds[v]| && IsSet(par, preds[v][i]) ensures InChain(rank, par, d, preds[v][i]) {
        StrictDominatorIsCommon(g, preds, rank, par, d, v, i);
      }
      assert Common(rank, par, preds[v], d);
      ChainRank(rank, par, d, b);
      var i :| LowPred(rank, preds[v], v, i);
      assert Edge(preds, v, preds[v][i]);
      DominatesPred(g, d, preds[v][i], v);
      DominatesAncestor(g, rank, par, d, preds[v][i], b);
    }
  }

  ghost predicate Optimistic'(g: Graph, rank: seq<int>, par: seq<int>) {
    Tree(rank, par) && Optimistic(g, rank, par)
  }

  lemma StrictDominatorIsCommon(g: Graph, preds: Graph, rank: seq<int>, par: seq<int>, d: nat, v: nat, i: nat)
    requires Numbered(g, preds, rank) && Optimistic'(g, rank, par)
    requires v < |g| && StrictlyDominates(g, d, v) && i < |preds[v]| && IsSet(par, preds[v][i])
    ensures InChain(rank, par, d, preds[v][i])
  {
    assert Edge(preds, v, preds[v][i]);
    DominatesPred(g, d, preds[v][i], v);
    DominatorIsAncestor(g, rank, par, d, preds[v][i]);
  }

  // ---- At the fixpoint ----

  /** Every ordered node is in the tree, below the nearest common ancestor of its predecessors. */
  ghost predicate Fixpoint(rank: seq<int>, par: seq<int>, preds: seq<seq<nat>>) {
    && Tree(rank, par) && Preds(rank, preds) && IsSet(par, 0)
    && forall v :: 0 < v < |par| && rank[v] > 0 ==> IsSet(par, v) && Meet(rank, par, preds[v], par[v])
  }

  /** Ancestors are dominators: they lie on every path. */
  lemma {:induction false} AncestorOnPath(g: Graph, preds: Graph, rank: seq<int>, par: seq<int>, d: nat, v: nat,
                                          p: seq<nat>)
    requires Numbered(g, preds, rank) && Fixpoint(rank, par, preds)
    requires Connects(g, p, 0, v) && v < |g| && IsSet(par, v) && InChain(rank, par, d, v)
    ensures d in p
    decreases |p|
  {
    if d != v {
      var q, u := p[..|p| - 1], p[|p| - 2];
      assert Edge(g, p[|p| - 2], p[|p| - 1]);
      assert Connects(g, q, 0, u);
      assert Edge(preds, v, u) && Reaches(g, 0, u);
      assert u == 0 || rank[u] > 0;
      var i :| 0 <= i < |preds[v]| && preds[v][i] == u;
      assert InChain(rank, par, par[v], u);
      ChainTransitive(rank, par, d, par[v], u);
      AncestorOnPath(g, preds, rank, par, d, u, q);
    }
  }

  /** At an optimistic fixpoint, ancestors are exactly dominators. */
  lemma AncestorsAreDominators(g: Graph, preds: Graph, rank: seq<int>, par: seq<int>, d: nat, v: nat)
    requires Numbered(g, preds, rank) && Fixpoint(rank, par, preds) && Optimistic(g, rank, par)
    requires v < |g| && Reaches(g, 0, v)
    ensures IsSet(par, v) && (InChain(rank, par, d, v) <==> Dominates(g, d, v))
  {
    assert v == 0 || rank[v] > 0;
    if InChain(rank, par, d, v) {
      forall p | Connects(g, p, 0, v) ensures d in p {
        AncestorOnPath(g, preds, rank, par, d, v, p);
      }
    }
    if Dominates(g, d, v) {
      DominatorIsAncestor(g, rank, par, d, v);
    }
  }

  /** And parents are immediate dominators. */
  lemma ParentIsImmediate(g: Graph, preds: Graph, rank: seq<int>, par: seq<int>, v: nat)
    requires Numbered(g, preds, rank) && Fixpoint(rank, par, preds) && Optimistic(g, rank, par)
    requires 0 < v < |g| && Reaches(g, 0, v)
    ensures par[v] >= 0 && ImmediateDominator(g, par[v], v)
  {
    assert rank[v] > 0;
    AncestorsAreDominators(g, preds, rank, par, par[v], v);
  }
}
