/** Partial dominator trees as `Dominance` keeps them: a parent per node, -1 where unset, whose
    numbers decrease from child to parent. */
module DomTree {
  /** `rank` numbers the ordered nodes from 0, node 0 first, and is -1 elsewhere. */
  ghost predicate Ranks(rank: seq<int>) {
    && |rank| > 0 && rank[0] == 0
    && (forall v :: 0 <= v < |rank| ==> rank[v] >= -1)
    && (forall u, v :: 0 <= u < |rank| && 0 <= v < |rank| && rank[u] == rank[v] != -1 ==> u == v)
  }

  predicate IsSet(par: seq<int>, v: int) {
    0 <= v < |par| && par[v] != -1
  }

  ghost predicate Tree(rank: seq<int>, par: seq<int>) {
    && Ranks(rank) && |par| == |rank|
    && forall v :: ParentBelow(rank, par, v)
  }

  /** The parent of `v` is in the tree and numbered below `v`, and node 0 is its own parent. */
  ghost predicate ParentBelow(rank: seq<int>, par: seq<int>, v: int) {
    IsSet(par, v) && |par| == |rank| ==>
      if v == 0 then par[v] == 0
      else rank[v] > 0 && IsSet(par, par[v]) && rank[par[v]] < rank[v]
  }

  /** `x` is `v` or one of its ancestors. (The postcondition brings the fact about the parent
      along wherever an ancestor is mentioned.) */
  ghost predicate InChain(rank: seq<int>, par: seq<int>, x: int, v: int)
    requires Tree(rank, par) && IsSet(par, v)
    ensures ParentBelow(rank, par, v)
    decreases rank[v]
  {
    assert ParentBelow(rank, par, v);
    x == v || (v != 0 && InChain(rank, par, x, par[v]))
  }

  lemma {:induction false} ChainRank(rank: seq<int>, par: seq<int>, x: int, v: int)
    requires Tree(rank, par) && IsSet(par, v) && InChain(rank, par, x, v)
    ensures IsSet(par, x) && 0 <= rank[x] <= rank[v] && (rank[x] == rank[v] ==> x == v)
    decreases rank[v]
  {
    if x != v {
      ChainRank(rank, par, x, par[v]);
    }
  }

  lemma {:induction false} ChainTransitive(rank: seq<int>, par: seq<int>, x: int, y: int, z: int)
    requires Tree(rank, par) && IsSet(par, z) && InChain(rank, par, y, z)
    requires IsSet(par, y) && InChain(rank, par, x, y)
    ensures InChain(rank, par, x, z)
    decreases rank[z]
  {
    if y != z {
      ChainTransitive(rank, par, x, y, par[z]);
    }
  }

  /** Two ancestors of the same node are comparable. */
  lemma {:induction false} ChainLinear(rank: seq<int>, par: seq<int>, x: int, y: int, v: int)
    requires Tree(rank, par) && IsSet(par, v) && InChain(rank, par, x, v) && InChain(rank, par, y, v)
    requires IsSet(par, x) && IsSet(par, y) && rank[x] <= rank[y]
    ensures InChain(rank, par, x, y)
    decreases rank[v]
  {
    if y != v {
      ChainRank(rank, par, y, par[v]);
      ChainLinear(rank, par, x, y, par[v]);
    }
  }

  // ---- Nearest common ancestor ----

  /** `intersect`, one finger step at a time. */
  function Nearest(rank: seq<int>, par: seq<int>, a: int, b: int): (r: int)
    requires Tree(rank, par) && IsSet(par, a) && IsSet(par, b)
    decreases rank[a] + rank[b]
  {
    assert ParentBelow(rank, par, a) && ParentBelow(rank, par, b);
    if a == b then a
    else if rank[a] > rank[b] then Nearest(rank, par, par[a], b)
    else Nearest(rank, par, a, par[b])
  }

  lemma {:induction false} NearestIsCommon(rank: seq<int>, par: seq<int>, a: int, b: int)
    requires Tree(rank, par) && IsSet(par, a) && IsSet(par, b)
    ensures var r := Nearest(rank, par, a, b);
            InChain(rank, par, r, a) && InChain(rank, par, r, b)
    decreases rank[a] + rank[b]
  {
    assert ParentBelow(rank, par, a) && ParentBelow(rank, par, b);
    if a != b {
      if rank[a] > rank[b] {
        NearestIsCommon(rank, par, par[a], b);
      } else {
        NearestIsCommon(rank, par, a, par[b]);
      }
    }
  }

  lemma {:induction false} NearestIsLowest(rank: seq<int>, par: seq<int>, a: int, b: int, x: int)
    requires Tree(rank, par) && IsSet(par, a) && IsSet(par, b)
    requires InChain(rank, par, x, a) && InChain(rank, par, x, b)
    ensures var r := Nearest(rank, par, a, b);
            IsSet(par, r) && InChain(rank, par, x, r)
    decreases rank[a] + rank[b]
  {
    if a != b {
      if rank[a] > rank[b] {
        ChainRank(rank, par, x, b);
        NearestIsLowest(rank, par, par[a], b, x);
      } else {
        ChainRank(rank, par, x, a);
        NearestIsLowest(rank, par, a, par[b], x);
      }
    }
  }

  // ---- Changing parents ----

  /** Ancestors numbered at least `r` depend only on the parents of nodes numbered above `r`. */
  lemma {:induction false} AgreeAbove(rank: seq<int>, par: seq<int>, par': seq<int>, r: int, x: int, v: int)
    requires Tree(rank, par) && Tree(rank, par') && IsSet(par, v) && IsSet(par', v)
    requires forall y :: IsSet(par, y) && rank[y] > r ==> par'[y] == par[y]
    requires InChain(rank, par, x, v) && 0 <= x < |rank| && rank[x] >= r
    ensures InChain(rank, par', x, v)
    decreases rank[v]
  {
    assert ParentBelow(rank, par', v);
    if x != v {
      ChainRank(rank, par, x, par[v]);
      AgreeAbove(rank, par, par', r, x, par[v]);
    }
  }

  /** Ancestors of a node numbered below `r` depend only on the parents of nodes numbered below `r`. */
  lemma {:induction false} AgreeBelow(rank: seq<int>, par: seq<int>, par': seq<int>, r: int, x: int, v: int)
    requires Tree(rank, par) && Tree(rank, par') && IsSet(par, v) && rank[v] < r
    requires forall y :: IsSet(par, y) && rank[y] < r ==> par'[y] == par[y]
    ensures IsSet(par', v) && (InChain(rank, par', x, v) <==> InChain(rank, par, x, v))
    decreases rank[v]
  {
    assert ParentBelow(rank, par, v);
    if v != 0 {
      AgreeBelow(rank, par, par', r, x, par[v]);
    }
  }

  /** `par` with the parent of `v` changed to `b`. */
  ghost predicate Reparented(rank: seq<int>, par: seq<int>, v: int, b: int, par': seq<int>) {
    && Tree(rank, par) && Tree(rank, par')
    && 0 < v < |par| && IsSet(par, b) && rank[b] < rank[v] && par' == par[v := b]
  }

  lemma ReparentedTree(rank: seq<int>, par: seq<int>, v: int, b: int)
    requires Tree(rank, par) && 0 < v < |par| && IsSet(par, b) && rank[b] < rank[v]
    ensures Reparented(rank, par, v, b, par[v := b])
  {
    ChainRank(rank, par, b, b);
    var par' := par[v := b];
    forall u ensures ParentBelow(rank, par', u) {
      assert ParentBelow(rank, par, u);
    }
  }

  /** `b` is a proper ancestor of `v`. */
  ghost predicate HasAncestor(rank: seq<int>, par: seq<int>, b: int, v: int)
    requires Tree(rank, par)
  {
    assert ParentBelow(rank, par, v);
    IsSet(par, v) && v != 0 && InChain(rank, par, b, par[v])
  }

  /** Raising a node to one of its ancestors only removes ancestors. */
  lemma {:induction false} RaiseShrinks(rank: seq<int>, par: seq<int>, v: int, b: int, par': seq<int>, x: int, y: int)
    requires Reparented(rank, par, v, b, par') && HasAncestor(rank, par, b, v)
    requires IsSet(par, y) && InChain(rank, par', x, y)
    ensures InChain(rank, par, x, y)
    decreases rank[y]
  {
    assert ParentBelow(rank, par, y) && ParentBelow(rank, par', y);
    if x != y {
      if y == v {
        RaiseShrinks(rank, par, v, b, par', x, b);
        ChainTransitive(rank, par, x, b, par[v]);
      } else {
        RaiseShrinks(rank, par, v, b, par', x, par[y]);
      }
    }
  }

  /** Nodes that do not hang below `v` keep their ancestors. */
  lemma {:induction false} Unaffected(rank: seq<int>, par: seq<int>, v: int, b: int, par': seq<int>, x: int, y: int)
    requires Reparented(rank, par, v, b, par')
    requires IsSet(par, y) && !InChain(rank, par, v, y)
    ensures InChain(rank, par', x, y) <==> InChain(rank, par, x, y)
    decreases rank[y]
  {
    if y != 0 {
      Unaffected(rank, par, v, b, par', x, par[y]);
    }
  }
}
