/** One pass of the loop in the `Dominance` constructor: every node in reverse postorder is given
    the nearest common ancestor of its predecessors as parent. */
module DomPass {
  import opened DomTree

  /** `x` is an ancestor of every predecessor in `preds` that is in the tree. */
  ghost predicate Common(rank: seq<int>, par: seq<int>, preds: seq<nat>, x: int)
    requires Tree(rank, par)
  {
    forall i :: 0 <= i < |preds| && IsSet(par, preds[i]) ==> InChain(rank, par, x, preds[i])
  }

  /** `b` is the nearest common ancestor of the predecessors in the tree. */
  ghost predicate Meet(rank: seq<int>, par: seq<int>, preds: seq<nat>, b: int)
    requires Tree(rank, par)
  {
    && IsSet(par, b)
    && Common(rank, par, preds, b)
    && forall x :: Common(rank, par, preds, x) ==> InChain(rank, par, x, b)
  }

  lemma MeetExtends(rank: seq<int>, par: seq<int>, preds: seq<nat>, b: int, p: nat)
    requires Tree(rank, par) && Meet(rank, par, preds, b) && IsSet(par, p)
    ensures Meet(rank, par, preds + [p], Nearest(rank, par, p, b))
  {
    var more, r := preds + [p], Nearest(rank, par, p, b);
    NearestIsCommon(rank, par, p, b);
    ChainRank(rank, par, r, p);
    forall i | 0 <= i < |more| && IsSet(par, more[i]) ensures InChain(rank, par, r, more[i]) {
      if i < |preds| {
        ChainTransitive(rank, par, r, b, preds[i]);
      }
    }
    forall x | Common(rank, par, more, x) ensures InChain(rank, par, x, r) {
      assert more[|preds|] == p;
      assert Common(rank, par, preds, x) by {
        assert forall i :: 0 <= i < |preds| ==> more[i] == preds[i];
      }
      NearestIsLowest(rank, par, p, b, x);
    }
  }

  lemma MeetSingle(rank: seq<int>, par: seq<int>, preds: seq<nat>, p: nat)
    requires Tree(rank, par) && IsSet(par, p)
    requires forall i :: 0 <= i < |preds| ==> !IsSet(par, preds[i])
    ensures Meet(rank, par, preds + [p], p)
  {
    var more := preds + [p];
    assert Common(rank, par, more, p);
    forall x | Common(rank, par, more, x) ensures InChain(rank, par, x, p) {
      assert more[|preds|] == p;
    }
  }

  lemma MeetSkips(rank: seq<int>, par: seq<int>, preds: seq<nat>, b: int, p: nat)
    requires Tree(rank, par) && Meet(rank, par, preds, b) && !IsSet(par, p)
    ensures Meet(rank, par, preds + [p], b)
  {
    var more := preds + [p];
    forall x ensures Common(rank, par, more, x) <==> Common(rank, par, preds, x) {
      assert forall i :: 0 <= i < |preds| ==> more[i] == preds[i];
    }
  }

  // ---- What a processed node satisfies ----

  /** The predecessor lists, and that each ordered node but 0 has a lower-numbered predecessor. */
  ghost predicate Preds(rank: seq<int>, preds: seq<seq<nat>>) {
    && Ranks(rank) && |preds| == |rank|
    && (forall v, i :: 0 <= v < |preds| && 0 <= i < |preds[v]| ==> preds[v][i] < |rank|)
    && (forall v :: 0 < v < |preds| && rank[v] > 0 ==> exists i :: LowPred(rank, preds[v], v, i))
  }

  ghost predicate LowPred(rank: seq<int>, ps: seq<nat>, v: int, i: int) {
    0 <= i < |ps| && 0 <= v < |rank| && ps[i] < |rank| && 0 <= rank[ps[i]] < rank[v]
  }

  /** The parent of `v` is above every lower-numbered predecessor, and below every common ancestor. */
  ghost predicate Settled(rank: seq<int>, par: seq<int>, preds: seq<seq<nat>>, v: int)
    requires Tree(rank, par) && Preds(rank, preds)
  {
    && IsSet(par, v) && v != 0
    && (forall i :: LowPred(rank, preds[v], v, i) && IsSet(par, preds[v][i]) ==>
         InChain(rank, par, par[v], preds[v][i]))
    && (forall x :: Common(rank, par, preds[v], x) ==> HasAncestor(rank, par, x, v))
  }

  /** All nodes numbered below `n` are settled. */
  ghost predicate SettledBelow(rank: seq<int>, par: seq<int>, preds: seq<seq<nat>>, n: int)
    requires Tree(rank, par) && Preds(rank, preds)
  {
    forall v :: 0 < v < |par| && 0 < rank[v] < n ==> Settled(rank, par, preds, v)
  }

  /** Every node numbered below `n` is in the tree. */
  ghost predicate SetBelow(rank: seq<int>, par: seq<int>, n: int) {
    |par| == |rank| && forall v :: 0 <= v < |par| && 0 <= rank[v] < n ==> IsSet(par, v)
  }

  /** The new parent is numbered below the node. */
  lemma MeetIsBelow(rank: seq<int>, par: seq<int>, preds: seq<seq<nat>>, v: int, b: int)
    requires Tree(rank, par) && Preds(rank, preds) && 0 < v < |par| && rank[v] > 0 && SetBelow(rank, par, rank[v])
    requires Meet(rank, par, preds[v], b)
    ensures rank[b] < rank[v]
  {
    var i :| LowPred(rank, preds[v], v, i);
    ChainRank(rank, par, b, preds[v][i]);
  }

  /** No node of the tree `par` has an ancestor in `par'` that it did not have before. */
  ghost predicate Shrunk(rank: seq<int>, par: seq<int>, par': seq<int>)
    requires Tree(rank, par) && Tree(rank, par')
  {
    forall x, y :: ShrinkHolds(rank, par, par', x, y)
  }

  ghost predicate ShrinkHolds(rank: seq<int>, par: seq<int>, par': seq<int>, x: int, y: int)
    requires Tree(rank, par) && Tree(rank, par')
  {
    IsSet(par, y) && IsSet(par', y) && InChain(rank, par', x, y) ==> InChain(rank, par, x, y)
  }

  lemma CommonShrinks(rank: seq<int>, par: seq<int>, par': seq<int>, preds: seq<nat>, x: int)
    requires Tree(rank, par) && Tree(rank, par') && Shrunk(rank, par, par') && Common(rank, par', preds, x)
    requires forall v :: IsSet(par, v) ==> IsSet(par', v)
    ensures Common(rank, par, preds, x)
  {
    forall i | 0 <= i < |preds| && IsSet(par, preds[i]) ensures InChain(rank, par, x, preds[i]) {
      assert ShrinkHolds(rank, par, par', x, preds[i]);
    }
  }

  /** `a` is the parent that a node numbered at most `rank[v]` has after the step. It keeps its
      two properties, because the ancestors of nodes numbered below `v` do not change. */
  lemma StepKeeps(rank: seq<int>, par: seq<int>, preds: seq<nat>, v: int, b: int, par': seq<int>, u: int, a: int)
    requires Reparented(rank, par, v, b, par') && Shrunk(rank, par, par')
    requires IsSet(par, a) && rank[a] < rank[v] && 0 <= u < |rank| && 0 < rank[u] <= rank[v]
    ensures forall i :: LowPred(rank, preds, u, i) && IsSet(par, preds[i]) && InChain(rank, par, a, preds[i]) ==>
              IsSet(par', preds[i]) && InChain(rank, par', a, preds[i])
    ensures (forall x :: Common(rank, par, preds, x) ==> InChain(rank, par, x, a)) ==>
              IsSet(par', a) && forall x :: Common(rank, par', preds, x) ==> InChain(rank, par', x, a)
  {
    forall i | LowPred(rank, preds, u, i) && IsSet(par, preds[i]) && InChain(rank, par, a, preds[i])
      ensures IsSet(par', preds[i]) && InChain(rank, par', a, preds[i])
    {
      AgreeBelow(rank, par, par', rank[v], a, preds[i]);
    }
    if forall x :: Common(rank, par, preds, x) ==> InChain(rank, par, x, a) {
      forall x | Common(rank, par', preds, x) ensures IsSet(par', a) && InChain(rank, par', x, a) {
        CommonShrinks(rank, par, par', preds, x);
        AgreeBelow(rank, par, par', rank[v], x, a);
      }
    }
  }

  /** After a step at `v`, the nodes numbered up to `v` are settled. */
  lemma StepSettles(rank: seq<int>, par: seq<int>, preds: seq<seq<nat>>, v: int, b: int, par': seq<int>, u: int)
    requires Preds(rank, preds) && Reparented(rank, par, v, b, par') && rank[v] > 0 && Shrunk(rank, par, par')
    requires SetBelow(rank, par, rank[v]) && Meet(rank, par, preds[v], b)
    requires SettledBelow(rank, par, preds, rank[v])
    requires 0 < u < |par| && 0 < rank[u] <= rank[v]
    ensures Settled(rank, par', preds, u)
  {
    var a := if u == v then b else par[u];
    assert ParentBelow(rank, par, u) && ParentBelow(rank, par', u) && par'[u] == a;
    if u != v {
      assert Settled(rank, par, preds, u);
      assert forall x :: HasAncestor(rank, par, x, u) ==> InChain(rank, par, x, a);
    }
    StepKeeps(rank, par, preds[u], v, b, par', u, a);
    assert forall x :: InChain(rank, par', x, a) ==> HasAncestor(rank, par', x, u);
  }

  // ---- Passes after the first ----

  /** An ancestor in `par` of `y`, numbered no higher than an ancestor `z` of `y` in `par0`, is an
      ancestor of `z` as well. */
  ghost predicate CutAlike(rank: seq<int>, par0: seq<int>, par: seq<int>)
    requires Tree(rank, par0) && Tree(rank, par)
  {
    forall x, y, z :: CutHolds(rank, par0, par, x, y, z)
  }

  ghost predicate CutHolds(rank: seq<int>, par0: seq<int>, par: seq<int>, x: int, y: int, z: int)
    requires Tree(rank, par0) && Tree(rank, par)
  {
    && IsSet(par0, y) && IsSet(par, y) && IsSet(par, z) && IsSet(par, x) && rank[x] <= rank[z]
    && InChain(rank, par0, z, y) && InChain(rank, par, x, y)
    ==> InChain(rank, par, x, z)
  }

  /** The tree `par` in the middle of a pass that started with `par0`: the nodes numbered below
      `n` have their new parents. */
  ghost predicate MidPass(rank: seq<int>, par0: seq<int>, par: seq<int>, n: int) {
    && SameFrom(rank, par0, par, n)
    && Shrunk(rank, par0, par)
    && CutAlike(rank, par0, par)
  }

  lemma PassStarts(rank: seq<int>, par: seq<int>)
    requires Tree(rank, par)
    ensures MidPass(rank, par, par, 0)
  {
    forall x, y, z ensures CutHolds(rank, par, par, x, y, z) {
      if IsSet(par, y) && IsSet(par, z) && IsSet(par, x) && rank[x] <= rank[z]
         && InChain(rank, par, z, y) && InChain(rank, par, x, y) {
        ChainLinear(rank, par, x, z, y);
      }
    }
  }

  /** The new parent of `v` is an ancestor of the old one, both at the start of the pass and now. */
  lemma NewParentIsAbove(rank: seq<int>, par0: seq<int>, par: seq<int>, preds: seq<seq<nat>>, v: int, b: int)
    requires Preds(rank, preds) && 0 < v < |rank| && rank[v] > 0 && MidPass(rank, par0, par, rank[v])
    requires Settled(rank, par0, preds, v) && SetBelow(rank, par, rank[v])
    requires Meet(rank, par, preds[v], b)
    ensures HasAncestor(rank, par0, b, v) && HasAncestor(rank, par, b, v)
  {
    CommonShrinks(rank, par0, par, preds[v], b);
    assert HasAncestor(rank, par0, b, v);
    assert ParentBelow(rank, par0, v);
    ChainRank(rank, par0, b, par0[v]);
    var i :| LowPred(rank, preds[v], v, i);
    assert CutHolds(rank, par0, par, b, preds[v][i], par0[v]);
  }

  /** The two trees have the same nodes and, from number `r` on, the same parents. */
  ghost predicate SameFrom(rank: seq<int>, par0: seq<int>, par: seq<int>, r: int) {
    && Tree(rank, par0) && Tree(rank, par)
    && (forall v :: IsSet(par, v) <==> IsSet(par0, v))
    && (forall v :: IsSet(par, v) && rank[v] >= r ==> par[v] == par0[v])
  }

  /** Below `v`, the step keeps what `CutHolds` says. */
  lemma StepCutsBelow(rank: seq<int>, par0: seq<int>, par: seq<int>, v: int, b: int, par': seq<int>, x: int, y: int,
                      z: int)
    requires Reparented(rank, par, v, b, par') && IsSet(par, v) && SameFrom(rank, par0, par, rank[v])
    requires IsSet(par, y) && IsSet(par, z) && IsSet(par, x) && rank[x] < rank[v]
    requires InChain(rank, par, v, z) && InChain(rank, par0, z, y) && InChain(rank, par', x, y)
    ensures InChain(rank, par', x, z)
  {
    AgreeAbove(rank, par, par0, rank[v], v, z);
    ChainTransitive(rank, par0, v, z, y);
    AgreeAbove(rank, par0, par', rank[v], v, y);
    ChainLinear(rank, par', x, v, y);
    AgreeAbove(rank, par, par', rank[v], v, z);
    ChainTransitive(rank, par', x, v, z);
  }

  lemma StepCuts(rank: seq<int>, par0: seq<int>, par: seq<int>, v: int, b: int, par': seq<int>, x: int, y: int, z: int)
    requires Reparented(rank, par, v, b, par') && IsSet(par, v) && SameFrom(rank, par0, par, rank[v])
    requires HasAncestor(rank, par, b, v) && CutHolds(rank, par0, par, x, y, z)
    ensures CutHolds(rank, par0, par', x, y, z)
  {
    if && IsSet(par, y) && IsSet(par, z) && IsSet(par, x) && rank[x] <= rank[z]
       && InChain(rank, par0, z, y) && InChain(rank, par', x, y)
    {
      RaiseShrinks(rank, par, v, b, par', x, y);
      if !InChain(rank, par, v, z) {
        Unaffected(rank, par, v, b, par', x, z);
      } else if rank[x] >= rank[v] {
        AgreeAbove(rank, par, par', rank[v], x, z);
      } else {
        StepCutsBelow(rank, par0, par, v, b, par', x, y, z);
      }
    }
  }

  lemma StepShrinks(rank: seq<int>, par: seq<int>, v: int, b: int, par': seq<int>)
    requires Reparented(rank, par, v, b, par') && HasAncestor(rank, par, b, v)
    ensures Shrunk(rank, par, par')
  {
    forall x, y ensures ShrinkHolds(rank, par, par', x, y) {
      if IsSet(par, y) && InChain(rank, par', x, y) {
        RaiseShrinks(rank, par, v, b, par', x, y);
      }
    }
  }

  lemma ShrunkTransitive(rank: seq<int>, par0: seq<int>, par: seq<int>, par': seq<int>)
    requires Tree(rank, par0) && Tree(rank, par) && Tree(rank, par')
    requires Shrunk(rank, par0, par) && Shrunk(rank, par, par') && forall v :: IsSet(par0, v) ==> IsSet(par, v)
    ensures Shrunk(rank, par0, par')
  {
    forall x, y ensures ShrinkHolds(rank, par0, par', x, y) {
      assert ShrinkHolds(rank, par0, par, x, y) && ShrinkHolds(rank, par, par', x, y);
    }
  }

  lemma StepCutsAlike(rank: seq<int>, par0: seq<int>, par: seq<int>, v: int, b: int, par': seq<int>)
    requires Reparented(rank, par, v, b, par') && IsSet(par, v) && SameFrom(rank, par0, par, rank[v])
    requires HasAncestor(rank, par, b, v) && CutAlike(rank, par0, par)
    ensures CutAlike(rank, par0, par')
  {
    forall x, y, z ensures CutHolds(rank, par0, par', x, y, z) {
      assert CutHolds(rank, par0, par, x, y, z);
      StepCuts(rank, par0, par, v, b, par', x, y, z);
    }
  }

  lemma LaterStep(rank: seq<int>, par0: seq<int>, par: seq<int>, v: int, b: int, par': seq<int>)
    requires 0 < v < |rank| && rank[v] > 0 && MidPass(rank, par0, par, rank[v])
    requires Reparented(rank, par, v, b, par') && HasAncestor(rank, par, b, v)
    ensures Shrunk(rank, par, par') && MidPass(rank, par0, par', rank[v] + 1)
  {
    StepShrinks(rank, par, v, b, par');
    StepCutsAlike(rank, par0, par, v, b, par');
    ShrunkTransitive(rank, par0, par, par');
  }

  // ---- The first pass ----

  /** Adding a leaf changes no other node's ancestors. */
  lemma FirstStep(rank: seq<int>, par: seq<int>, v: int, b: int, par': seq<int>)
    requires Reparented(rank, par, v, b, par') && !IsSet(par, v)
    ensures Shrunk(rank, par, par')
  {
    forall x, y ensures ShrinkHolds(rank, par, par', x, y) {
      if IsSet(par, y) {
        LeafIsNoAncestor(rank, par, v, y);
        Unaffected(rank, par, v, b, par', x, y);
      }
    }
  }

  lemma LeafIsNoAncestor(rank: seq<int>, par: seq<int>, v: int, y: int)
    requires Tree(rank, par) && !IsSet(par, v) && IsSet(par, y)
    ensures !InChain(rank, par, v, y)
  {
    if InChain(rank, par, v, y) {
      ChainRank(rank, par, v, y);
    }
  }
}
