/** The `Dominance` class: immediate dominators by iteration over a reverse postorder. */
module Dominance {
  import opened Graphs
  import opened NodeOrder
  import opened Options
  import ControlFlow
  import opened DomTree
  import opened DomPass
  import opened Dominators

  /** `rank` is the inverse of `order`, and -1 for nodes that are not in it. */
  ghost predicate Inverse(order: seq<nat>, rank: seq<int>) {
    && (forall k :: 0 <= k < |order| ==> order[k] < |rank| && rank[order[k]] == k)
    && (forall v :: 0 <= v < |rank| ==> rank[v] == -1 || (0 <= rank[v] < |order| && order[rank[v]] == v))
  }

  /** A reverse postorder numbers the reachable nodes as the iteration needs. */
  lemma OrderNumbers(fwd: Graph, bwd: Graph, order: seq<nat>, rank: seq<int>)
    requires |fwd| > 0 && Mirrored(fwd, bwd) && ReversePostorderOf(fwd, 0, order)
    requires |rank| == |fwd| && Inverse(order, rank)
    ensures Numbered(fwd, bwd, rank)
  {
    forall v | 0 < v < |bwd| && rank[v] > 0 ensures exists i :: LowPred(rank, bwd[v], v, i) {
      var k := rank[v];
      var j :| 0 <= j < k && Edge(fwd, order[j], order[k]);
      assert Edge(bwd, v, order[j]);
      var i :| 0 <= i < |bwd[v]| && bwd[v][i] == order[j];
      assert LowPred(rank, bwd[v], v, i);
    }
    forall v: nat | v < |fwd| ensures rank[v] >= 0 <==> Reaches(fwd, 0, v) {
      if v in order {
        var k :| 0 <= k < |order| && order[k] == v;
      }
    }
  }

  // ---- The state in the middle of a pass ----

  /** The nodes numbered below `k` are in the tree and settled, and no dominator is lost. */
  ghost predicate Processed(g: Graph, preds: Graph, rank: seq<int>, par: seq<int>, k: int) {
    && Numbered(g, preds, rank) && Optimistic'(g, rank, par)
    && SettledBelow(rank, par, preds, k) && SetBelow(rank, par, k)
  }

  /** The first pass, before node number `k`: the tree holds just the nodes numbered below `k`. */
  ghost predicate FirstPass(g: Graph, preds: Graph, rank: seq<int>, par: seq<int>, k: int, changed: bool) {
    && Processed(g, preds, rank, par, k)
    && (forall v :: IsSet(par, v) ==> rank[v] < k)
    && (!changed ==> k <= 1)
  }

  /** A later pass, which started with the tree `par0`, before node number `k`. */
  ghost predicate LaterPass(g: Graph, preds: Graph, rank: seq<int>, n: int, par0: seq<int>, par: seq<int>, k: int) {
    && Processed(g, preds, rank, par, k)
    && Processed(g, preds, rank, par0, n)
    && MidPass(rank, par0, par, k)
  }

  /** What `changed` says about a later pass: a parent has moved, or every node so far had the
      right one already. */
  ghost predicate Tracked(rank: seq<int>, preds: seq<seq<nat>>, par0: seq<int>, par: seq<int>, k: int, changed: bool) {
    && Tree(rank, par) && Preds(rank, preds)
    && (changed ==> exists u :: Moved(par0, par, u))
    && (!changed ==> par == par0 && MeetBelow(rank, par, preds, k))
  }

  ghost predicate Moved(par0: seq<int>, par: seq<int>, u: int) {
    0 <= u < |par0| && 0 <= u < |par| && par[u] != par0[u]
  }

  ghost predicate MeetBelow(rank: seq<int>, par: seq<int>, preds: seq<seq<nat>>, k: int)
    requires Tree(rank, par) && Preds(rank, preds)
  {
    forall v :: 0 < v < |par| && 0 < rank[v] < k ==> Meet(rank, par, preds[v], par[v])
  }

  /** A step that gains no ancestors processes one more node. */
  lemma StepProcesses(g: Graph, preds: Graph, rank: seq<int>, par: seq<int>, v: nat, b: nat, par': seq<int>)
    requires 0 < v < |rank| && rank[v] > 0 && Processed(g, preds, rank, par, rank[v])
    requires Meet(rank, par, preds[v], b) && Reparented(rank, par, v, b, par') && Shrunk(rank, par, par')
    ensures Processed(g, preds, rank, par', rank[v] + 1)
  {
    StepIsOptimistic(g, preds, rank, par, v, b, par');
    forall u | 0 < u < |par'| && 0 < rank[u] < rank[v] + 1 ensures Settled(rank, par', preds, u) {
      StepSettles(rank, par, preds, v, b, par', u);
    }
  }

  /** Processing a node other than 0 in the first pass. */
  lemma FirstPassStep(g: Graph, preds: Graph, rank: seq<int>, par: seq<int>, changed: bool, v: nat, b: nat)
    requires 0 < v < |rank| && rank[v] > 0 && FirstPass(g, preds, rank, par, rank[v], changed)
    requires Meet(rank, par, preds[v], b)
    ensures FirstPass(g, preds, rank, par[v := b], rank[v] + 1, true) && par[v] != b
  {
    MeetIsBelow(rank, par, preds, v, b);
    ReparentedTree(rank, par, v, b);
    FirstStep(rank, par, v, b, par[v := b]);
    StepProcesses(g, preds, rank, par, v, b, par[v := b]);
  }

  /** Processing a node other than 0 in a later pass. */
  lemma LaterPassStep(g: Graph, preds: Graph, rank: seq<int>, n: int, par0: seq<int>, par: seq<int>, v: nat, b: nat)
    requires 0 < v < |rank| && 0 < rank[v] < n && LaterPass(g, preds, rank, n, par0, par, rank[v])
    requires Meet(rank, par, preds[v], b)
    ensures LaterPass(g, preds, rank, n, par0, par[v := b], rank[v] + 1)
  {
    var par' := par[v := b];
    MeetIsBelow(rank, par, preds, v, b);
    ReparentedTree(rank, par, v, b);
    assert Settled(rank, par0, preds, v);
    NewParentIsAbove(rank, par0, par, preds, v, b);
    LaterStep(rank, par0, par, v, b, par');
    StepProcesses(g, preds, rank, par, v, b, par');
  }

  /** A parent that has moved does not move back in the same pass. */
  lemma StepTracks(rank: seq<int>, preds: seq<seq<nat>>, par0: seq<int>, par: seq<int>, changed: bool, v: nat, b: nat)
    requires 0 < v < |rank| && rank[v] > 0 && IsSet(par, v)
    requires SameFrom(rank, par0, par, rank[v]) && Tracked(rank, preds, par0, par, rank[v], changed)
    requires Tree(rank, par[v := b]) && Meet(rank, par, preds[v], b)
    ensures Tracked(rank, preds, par0, par[v := b], rank[v] + 1, changed || par[v] != b)
  {
    var par' := par[v := b];
    if par[v] != b {
      assert Moved(par0, par', v);
    } else {
      assert par' == par;
      if !changed {
        MeetBelowStep(rank, par, preds, v);
      }
    }
  }

  lemma MeetBelowStep(rank: seq<int>, par: seq<int>, preds: seq<seq<nat>>, v: nat)
    requires Tree(rank, par) && Preds(rank, preds) && v < |rank| && MeetBelow(rank, par, preds, rank[v])
    requires Meet(rank, par, preds[v], par[v])
    ensures MeetBelow(rank, par, preds, rank[v] + 1)
  {
    forall u | 0 < u < |par| && 0 < rank[u] < rank[v] + 1 ensures Meet(rank, par, preds[u], par[u]) {
      assert rank[u] == rank[v] ==> u == v;
    }
  }

  // ---- A whole pass ----

  /** Before node number `k`, in the first pass or in a later one that started with `par0`. */
  ghost predicate InPass(g: Graph, preds: Graph, rank: seq<int>, n: int, first: bool, par0: seq<int>, par: seq<int>,
                         k: int, changed: bool)
  {
    if first then FirstPass(g, preds, rank, par, k, changed)
    else LaterPass(g, preds, rank, n, par0, par, k) && Tracked(rank, preds, par0, par, k, changed)
  }

  /** `InPass`, stated of every tree equal to `par`, so that it is unfolded only where it is used. */
  ghost predicate PassAt(g: Graph, preds: Graph, rank: seq<int>, n: int, first: bool, par0: seq<int>, par: seq<int>,
                         k: int, changed: bool)
  {
    forall p :: p == par ==> InPass(g, preds, rank, n, first, par0, p, k, changed)
  }

  /** Nothing is in the tree yet. */
  lemma FirstPassStarts(g: Graph, preds: Graph, rank: seq<int>, n: int, par0: seq<int>, par: seq<int>)
    requires Numbered(g, preds, rank) && |par| == |rank| && forall v :: 0 <= v < |par| ==> par[v] == -1
    ensures PassAt(g, preds, rank, n, true, par0, par, 0, false)
  {
  }

  lemma LaterPassStarts(g: Graph, preds: Graph, rank: seq<int>, n: int, par: seq<int>)
    requires n > 0 && Processed(g, preds, rank, par, n)
    ensures PassAt(g, preds, rank, n, false, par, par, 0, false)
  {
    PassStarts(rank, par);
  }

  /** Processing node 0. */
  lemma RootStep(g: Graph, preds: Graph, rank: seq<int>, n: int, first: bool, par0: seq<int>, par: seq<int>,
                 changed: bool)
    requires PassAt(g, preds, rank, n, first, par0, par, 0, changed) && n > 0
    ensures |par| > 0 && PassAt(g, preds, rank, n, first, par0, par[0 := 0], 1, changed)
  {
    assert InPass(g, preds, rank, n, first, par0, par, 0, changed);
    var par' := par[0 := 0];
    if first {
      forall v ensures ParentBelow(rank, par', v) {
        assert ParentBelow(rank, par, v);
      }
      assert forall v :: 0 <= v < |rank| && rank[v] == 0 ==> v == 0;
    } else {
      assert ParentBelow(rank, par, 0) && IsSet(par0, 0);
      assert par' == par;
    }
  }

  lemma NodeStep(g: Graph, preds: Graph, rank: seq<int>, n: int, first: bool, par0: seq<int>, par: seq<int>,
                 changed: bool, v: nat, b: nat)
    requires 0 < v < |rank| && 0 < rank[v] < n && PassAt(g, preds, rank, n, first, par0, par, rank[v], changed)
    requires Tree(rank, par) && v < |preds| && Meet(rank, par, preds[v], b)
    ensures v < |par| && PassAt(g, preds, rank, n, first, par0, par[v := b], rank[v] + 1, changed || par[v] != b)
  {
    assert InPass(g, preds, rank, n, first, par0, par, rank[v], changed);
    if first {
      FirstPassStep(g, preds, rank, par, changed, v, b);
    } else {
      assert IsSet(par0, v);
      LaterPassStep(g, preds, rank, n, par0, par, v, b);
      StepTracks(rank, preds, par0, par, changed, v, b);
    }
  }

  // ---- Progress ----

  /** The sum of the parents' numbers over the first `k` ordered nodes. */
  ghost function Total(rank: seq<int>, par: seq<int>, order: seq<nat>, k: nat): nat
    requires Tree(rank, par) && Inverse(order, rank) && k <= |order| && SetBelow(rank, par, |order|)
  {
    if k == 0 then 0
    else
      var v := order[k - 1];
      assert ParentBelow(rank, par, v) && ParentBelow(rank, par, par[v]);
      Total(rank, par, order, k - 1) + rank[par[v]]
  }

  /** After a pass, no parent is numbered higher than before. */
  lemma ParentNotHigher(rank: seq<int>, par0: seq<int>, par: seq<int>, v: int)
    requires Tree(rank, par0) && Tree(rank, par) && Shrunk(rank, par0, par) && IsSet(par0, v) && IsSet(par, v)
    ensures ParentBelow(rank, par, v) && ParentBelow(rank, par0, v)
    ensures 0 <= rank[par[v]] <= rank[par0[v]] && (par[v] != par0[v] ==> rank[par[v]] < rank[par0[v]])
  {
    assert ParentBelow(rank, par, v) && ParentBelow(rank, par0, v);
    if v != 0 {
      assert InChain(rank, par, par[v], par[v]);
      assert ShrinkHolds(rank, par0, par, par[v], v);
      ChainRank(rank, par0, par[v], par0[v]);
    }
  }

  lemma {:induction false} TotalShrinks(rank: seq<int>, par0: seq<int>, par: seq<int>, order: seq<nat>, k: nat, u: int)
    requires Tree(rank, par0) && Tree(rank, par) && Shrunk(rank, par0, par)
    requires Inverse(order, rank) && k <= |order| && SetBelow(rank, par0, |order|) && SetBelow(rank, par, |order|)
    requires Moved(par0, par, u) && rank[u] >= 0
    ensures Total(rank, par, order, k) <= Total(rank, par0, order, k)
    ensures rank[u] < k ==> Total(rank, par, order, k) < Total(rank, par0, order, k)
  {
    if k > 0 {
      TotalShrinks(rank, par0, par, order, k - 1, u);
      ParentNotHigher(rank, par0, par, order[k - 1]);
    }
  }

  /** Two trees with the same nodes differ only on nodes that are in them. */
  lemma MovedIsRanked(rank: seq<int>, par0: seq<int>, par: seq<int>, k: int, u: int)
    requires SameFrom(rank, par0, par, k) && Moved(par0, par, u)
    ensures rank[u] >= 0
  {
    assert ParentBelow(rank, par, u);
    assert IsSet(par, u) <==> IsSet(par0, u);
  }

  /** A lower-numbered predecessor is in the tree when a node is processed. */
  lemma SomePredIsSet(g: Graph, preds: Graph, rank: seq<int>, n: int, first: bool, par0: seq<int>, par: seq<int>,
                      changed: bool, v: nat)
    requires 0 < v < |rank| && 0 < rank[v] < n && PassAt(g, preds, rank, n, first, par0, par, rank[v], changed)
    ensures Numbered(g, preds, rank) && Tree(rank, par) && v < |preds| && v < |par|
    ensures exists i :: 0 <= i < |preds[v]| && IsSet(par, preds[v][i])
  {
    assert InPass(g, preds, rank, n, first, par0, par, rank[v], changed);
    var i :| LowPred(rank, preds[v], v, i);
    assert IsSet(par, preds[v][i]);
  }

  /** A pass either moves the parents down in total, or finds that they are right. */
  lemma PassEnds(g: Graph, preds: Graph, rank: seq<int>, order: seq<nat>, first: bool, par0: seq<int>, par: seq<int>,
                 changed: bool)
    requires Inverse(order, rank) && order != []
    requires PassAt(g, preds, rank, |order|, first, par0, par, |order|, changed)
    ensures Processed(g, preds, rank, par, |order|)
    ensures !first && changed ==>
              Processed(g, preds, rank, par0, |order|) &&
                Total(rank, par, order, |order|) < Total(rank, par0, order, |order|)
    ensures !first && !changed ==> par == par0
    ensures !changed ==> Fixpoint(rank, par, preds) && Optimistic(g, rank, par)
  {
    assert InPass(g, preds, rank, |order|, first, par0, par, |order|, changed);
    if !first && changed {
      var u :| Moved(par0, par, u);
      MovedIsRanked(rank, par0, par, |order|, u);
      TotalShrinks(rank, par0, par, order, |order|, u);
    }
    if !changed {
      assert IsSet(par, 0);
      forall v | 0 < v < |par| && rank[v] > 0 ensures IsSet(par, v) && Meet(rank, par, preds[v], par[v]) {
        assert rank[v] < |order|;
      }
    }
  }

  // ---- Gathering the predecessors ----

  /** After the backward links to `preds`: none is in the tree yet, or `idom` is the nearest common
      ancestor of those that are. (Stated of every node equal to `idom`, so that it is unfolded
      only where it is used.) */
  ghost predicate Gathered(rank: seq<int>, par: seq<int>, preds: seq<nat>, first: bool, idom: int)
    requires Tree(rank, par)
  {
    if first then forall k :: 0 <= k < |preds| ==> !IsSet(par, preds[k])
    else forall b :: b == idom ==> Meet(rank, par, preds, b)
  }

  lemma NoneGathered(rank: seq<int>, par: seq<int>, preds: seq<nat>, idom: int)
    requires Tree(rank, par) && Gathered(rank, par, preds, true, idom)
    ensures forall k :: 0 <= k < |preds| ==> !IsSet(par, preds[k])
  {
  }

  lemma MeetGathered(rank: seq<int>, par: seq<int>, preds: seq<nat>, idom: int)
    requires Tree(rank, par) && Gathered(rank, par, preds, false, idom)
    ensures Meet(rank, par, preds, idom)
  {
  }

  lemma GatherSkips(rank: seq<int>, par: seq<int>, preds: seq<nat>, first: bool, idom: int, p: nat)
    requires Tree(rank, par) && Gathered(rank, par, preds, first, idom) && !IsSet(par, p)
    ensures Gathered(rank, par, preds + [p], first, idom)
  {
    if !first {
      MeetGathered(rank, par, preds, idom);
      MeetSkips(rank, par, preds, idom, p);
    }
  }

  lemma GatheredAll(rank: seq<int>, par: seq<int>, preds: seq<nat>, first: bool, idom: int)
    requires Tree(rank, par) && Gathered(rank, par, preds, first, idom)
    requires exists i :: 0 <= i < |preds| && IsSet(par, preds[i])
    ensures Meet(rank, par, preds, idom)
  {
    if !first {
      MeetGathered(rank, par, preds, idom);
    }
  }

  // ---- Following the parents ----

  /** `list` follows the parents from `id` on. */
  ghost predicate ChainFrom(rank: seq<int>, par: seq<int>, list: seq<nat>, id: nat) {
    && Tree(rank, par) && list != [] && list[0] == id
    && (forall i :: 0 <= i < |list| ==> IsSet(par, list[i]))
    && (forall i :: 0 <= i < |list| - 1 ==> list[i] != 0 && par[list[i]] == list[i + 1])
  }

  /** A list that ends at node 0 holds exactly the ancestors of its first node, once each. */
  lemma {:induction false} ChainListsAncestors(rank: seq<int>, par: seq<int>, list: seq<nat>, id: nat)
    requires ChainFrom(rank, par, list, id) && list[|list| - 1] == 0
    ensures Distinct(list) && forall d: nat :: d in list <==> InChain(rank, par, d, id)
    decreases |list|
  {
    assert ParentBelow(rank, par, id);
    if |list| > 1 {
      var rest := list[1..];
      assert list == [id] + rest;
      ChainListsAncestors(rank, par, rest, list[1]);
      if InChain(rank, par, id, list[1]) {
        ChainRank(rank, par, id, list[1]);
      }
    }
  }

  lemma ChainListsDominators(g: Graph, preds: Graph, rank: seq<int>, par: seq<int>, list: seq<nat>, id: nat)
    requires Numbered(g, preds, rank) && Fixpoint(rank, par, preds) && Optimistic(g, rank, par)
    requires id < |g| && Reaches(g, 0, id) && ChainFrom(rank, par, list, id) && list[|list| - 1] == 0
    ensures Distinct(list) && forall d: nat :: d in list <==> Dominates(g, d, id)
    ensures forall i :: 0 <= i < |list| - 1 ==> ImmediateDominator(g, list[i + 1], list[i])
  {
    ChainListsAncestors(rank, par, list, id);
    forall d: nat ensures d in list <==> Dominates(g, d, id) {
      AncestorsAreDominators(g, preds, rank, par, d, id);
    }
    forall i | 0 <= i < |list| - 1 ensures ImmediateDominator(g, list[i + 1], list[i]) {
      assert IsSet(par, list[i]) && ParentBelow(rank, par, list[i]);
      ParentIsImmediate(g, preds, rank, par, list[i]);
    }
  }

  // ---- The class ----

  class Dominance {
    const fwd: Graph
    const bwd: Graph
    var idoms: seq<int>
    var idMap: seq<int>

    /** The tree of true dominators has been found. */
    ghost predicate Correct()
      reads this
    {
      && |fwd| == |bwd| > 0 && Numbered(fwd, bwd, idMap)
      && Fixpoint(idMap, idoms, bwd) && Optimistic(fwd, idMap, idoms)
    }

    constructor (fwd: Graph, bwd: Graph)
      requires |fwd| > 0 && Mirrored(fwd, bwd)
      ensures this.fwd == fwd && this.bwd == bwd && Correct()
      ensures forall v: nat :: 0 < v < |fwd| && Reaches(fwd, 0, v) ==>
                idoms[v] >= 0 && ImmediateDominator(fwd, idoms[v], v)
      ensures idoms[0] == 0
      ensures forall v: nat :: v < |fwd| && !Reaches(fwd, 0, v) ==> idoms[v] == -1
    {
      this.fwd := fwd;
      this.bwd := bwd;
      idoms := seq(|fwd|, _ => -1);
      idMap := seq(|fwd|, _ => -1);
      new;
      var order := ReversePostorder(fwd, 0);
      Number(order);
      OrderNumbers(fwd, bwd, order, idMap);
      Iterate(order);
      forall v: nat | 0 < v < |fwd| && Reaches(fwd, 0, v)
        ensures idoms[v] >= 0 && ImmediateDominator(fwd, idoms[v], v)
      {
        ParentIsImmediate(fwd, bwd, idMap, idoms, v);
      }
      assert ParentBelow(idMap, idoms, 0);
      forall v: nat | v < |fwd| && !Reaches(fwd, 0, v) ensures idoms[v] == -1 {
        UnsetIsUnreachable(fwd, bwd, idMap, idoms, v);
      }
    }

    method Number(order: seq<nat>)
      requires |idMap| == |fwd| && (forall v :: 0 <= v < |idMap| ==> idMap[v] == -1)
      requires Distinct(order) && forall k :: 0 <= k < |order| ==> order[k] < |fwd|
      modifies `idMap
      ensures |idMap| == |fwd| && Inverse(order, idMap)
    {
      for i := 0 to |order|
        invariant |idMap| == |fwd| && Inverse(order[..i], idMap)
      {
        idMap := idMap[order[i] := i];
        assert order[..i + 1] == order[..i] + [order[i]];
      }
      assert order[..|order|] == order;
    }

    /** The nearest common ancestor; a node without parent yields to the other. */
    method Intersect(i1: int, i2: int) returns (r: int)
      requires Tree(idMap, idoms) && 0 <= i1 < |idoms| && 0 <= i2 < |idoms|
      ensures IsSet(idoms, i1) && IsSet(idoms, i2) ==> r == Nearest(idMap, idoms, i1, i2)
      ensures !IsSet(idoms, i1) ==> r == i2
      ensures IsSet(idoms, i1) && !IsSet(idoms, i2) ==> r == i1
    {
      var finger1, finger2 := i1, i2;
      ghost var both := IsSet(idoms, i1) && IsSet(idoms, i2);
      ghost var r0 := if both then Nearest(idMap, idoms, i1, i2) else 0;
      while finger1 != finger2
        invariant !both ==> finger1 == i1 && finger2 == i2
        invariant both ==> Fingers(finger1, finger2, r0)
        decreases if both then idMap[finger1] + idMap[finger2] else 0
      {
        if idoms[finger1] == -1 {
          return finger2;
        }
        if idoms[finger2] == -1 {
          return finger1;
        }
        ghost var f1, f2 := finger1, finger2;
        while idoms[finger1] != -1 && idMap[finger1] > idMap[finger2]
          invariant Fingers(finger1, finger2, r0)
          invariant finger1 == f1 || idMap[finger1] < idMap[f1]
          decreases idMap[finger1]
        {
          assert ParentBelow(idMap, idoms, finger1);
          finger1 := idoms[finger1];
        }
        while idoms[finger2] != -1 && idMap[finger2] > idMap[finger1]
          invariant Fingers(finger1, finger2, r0)
          invariant finger2 == f2 || idMap[finger2] < idMap[f2]
          decreases idMap[finger2]
        {
          assert ParentBelow(idMap, idoms, finger2);
          finger2 := idoms[finger2];
        }
      }
      return finger1;
    }

    ghost predicate Fingers(finger1: int, finger2: int, r: int)
      requires Tree(idMap, idoms)
      reads this
    {
      && IsSet(idoms, finger1) && IsSet(idoms, finger2)
      && ParentBelow(idMap, idoms, finger1) && ParentBelow(idMap, idoms, finger2)
      && Nearest(idMap, idoms, finger1, finger2) == r
    }

    /** The loop over the backward links of a node. */
    method CommonAncestor(id: nat) returns (idom: int)
      requires Numbered(fwd, bwd, idMap) && Tree(idMap, idoms) && id < |bwd|
      requires exists i :: 0 <= i < |bwd[id]| && IsSet(idoms, bwd[id][i])
      ensures Meet(idMap, idoms, bwd[id], idom)
    {
      var first := true;
      idom := -1;
      for i := 0 to |bwd[id]|
        invariant Gathered(idMap, idoms, bwd[id][..i], first, idom)
      {
        var pred := bwd[id][i];
        assert bwd[id][..i + 1] == bwd[id][..i] + [pred];
        first, idom := Gather(bwd[id][..i], first, idom, pred);
      }
      assert bwd[id][..|bwd[id]|] == bwd[id];
      GatheredAll(idMap, idoms, bwd[id], first, idom);
    }

    /** One backward link. */
    method Gather(ghost preds: seq<nat>, first: bool, idom: int, pred: nat) returns (first': bool, idom': int)
      requires Tree(idMap, idoms) && pred < |idoms| && Gathered(idMap, idoms, preds, first, idom)
      ensures Gathered(idMap, idoms, preds + [pred], first', idom')
    {
      first', idom' := first, idom;
      if idoms[pred] != -1 {
        if first {
          NoneGathered(idMap, idoms, preds, idom);
          MeetSingle(idMap, idoms, preds, pred);
          idom' := pred;
          first' := false;
        } else {
          MeetGathered(idMap, idoms, preds, idom);
          MeetExtends(idMap, idoms, preds, idom, pred);
          idom' := Intersect(pred, idom);
        }
      } else {
        GatherSkips(idMap, idoms, preds, first, idom, pred);
      }
    }

    /** The body of the loop over the order. */
    method ProcessNode(order: seq<nat>, k: nat, changed: bool, ghost first: bool, ghost par0: seq<int>)
      returns (changed': bool)
      requires k < |order| && Inverse(order, idMap) && order[0] == 0 &&
                 PassAt(fwd, bwd, idMap, |order|, first, par0, idoms, k, changed)
      modifies `idoms
      ensures PassAt(fwd, bwd, idMap, |order|, first, par0, idoms, k + 1, changed')
    {
      var id := order[k];
      changed' := changed;
      if id == 0 {
        RootStep(fwd, bwd, idMap, |order|, first, par0, idoms, changed);
        idoms := idoms[0 := 0];
      } else {
        SomePredIsSet(fwd, bwd, idMap, |order|, first, par0, idoms, changed, id);
        var idom := CommonAncestor(id);
        NodeStep(fwd, bwd, idMap, |order|, first, par0, idoms, changed, id, idom);
        if idoms[id] != idom {
          idoms := idoms[id := idom];
          changed' := true;
        } else {
          assert idoms[id := idom] == idoms;
        }
      }
    }

    /** One round of the outer loop. `first` says whether it is the first one. */
    method Pass(order: seq<nat>, ghost first: bool, ghost par0: seq<int>) returns (changed: bool)
      requires Inverse(order, idMap) && order != [] && order[0] == 0 &&
                 PassAt(fwd, bwd, idMap, |order|, first, par0, idoms, 0, false)
      modifies `idoms
      ensures PassAt(fwd, bwd, idMap, |order|, first, par0, idoms, |order|, changed)
    {
      changed := false;
      for k := 0 to |order|
        invariant PassAt(fwd, bwd, idMap, |order|, first, par0, idoms, k, changed)
      {
        changed := ProcessNode(order, k, changed, first, par0);
      }
    }

    method Iterate(order: seq<nat>)
      requires Numbered(fwd, bwd, idMap) && Inverse(order, idMap) && order != [] && order[0] == 0
      requires |idoms| == |fwd| && forall v :: 0 <= v < |idoms| ==> idoms[v] == -1
      modifies `idoms
      ensures Correct()
    {
      var changed := true;
      ghost var first := true;
      while changed
        invariant first ==> changed && |idoms| == |fwd| && forall v :: 0 <= v < |idoms| ==> idoms[v] == -1
        invariant !first ==> Processed(fwd, bwd, idMap, idoms, |order|)
        invariant !changed ==> Correct()
        decreases first, if first then 0 else Total(idMap, idoms, order, |order|), changed
      {
        ghost var par0 := idoms;
        if first {
          FirstPassStarts(fwd, bwd, idMap, |order|, par0, idoms);
        } else {
          LaterPassStarts(fwd, bwd, idMap, |order|, idoms);
        }
        changed := Pass(order, first, par0);
        PassEnds(fwd, bwd, idMap, order, first, par0, idoms, changed);
        first := false;
      }
    }

    /** The dominators of a reachable node, from the node itself up to node 0, each followed by its
        immediate dominator. From an unreachable node the loop runs into an index of -1: no result. */
    method GetDominators(id0: nat) returns (doms: Option<seq<nat>>)
      requires Correct() && id0 < |fwd|
      ensures doms.Some? <==> Reaches(fwd, 0, id0)
      ensures doms.Some? ==> ListsDominators(fwd, doms.value, id0)
    {
      ReachesSelf(fwd, 0);
      AncestorsAreDominators(fwd, bwd, idMap, idoms, 0, 0);
      UnsetIsUnreachable(fwd, bwd, idMap, idoms, id0);
      doms := FollowParents(id0);
      if doms.Some? {
        ChainListsDominators(fwd, bwd, idMap, idoms, doms.value, id0);
      }
    }

    method FollowParents(id0: nat) returns (doms: Option<seq<nat>>)
      requires Tree(idMap, idoms) && IsSet(idoms, 0) && id0 < |idoms|
      ensures doms.Some? <==> IsSet(idoms, id0)
      ensures doms.Some? ==> ChainFrom(idMap, idoms, doms.value, id0) && doms.value[|doms.value| - 1] == 0
    {
      var id: int := id0;
      var list: seq<nat> := [];
      assert ParentBelow(idMap, idoms, id0);
      while id != 0
        invariant IsSet(idoms, id0) ==> IsSet(idoms, id) && ParentBelow(idMap, idoms, id)
        invariant IsSet(idoms, id0) ==> ChainFrom(idMap, idoms, list + [id], id0)
        invariant !IsSet(idoms, id0) ==> id == id0 || id == -1
        decreases if IsSet(idoms, id0) then idMap[id] else id + 1
      {
        if id < 0 {
          return None;
        }
        assert ParentBelow(idMap, idoms, idoms[id]);
        list := list + [id];
        id := idoms[id];
      }
      doms := Some(list + [0]);
    }
  }

  /** `list` is what `getDominators` promises for node `id`. */
  ghost predicate ListsDominators(g: Graph, list: seq<nat>, id: nat) {
    && Distinct(list) && (forall d: nat :: d in list <==> Dominates(g, d, id))
    && list != [] && list[0] == id && list[|list| - 1] == 0
    && forall i :: 0 <= i < |list| - 1 ==> ImmediateDominator(g, list[i + 1], list[i])
  }

  lemma UnsetIsUnreachable(g: Graph, preds: Graph, rank: seq<int>, par: seq<int>, v: nat)
    requires Numbered(g, preds, rank) && Fixpoint(rank, par, preds) && Optimistic(g, rank, par) && v < |g|
    ensures IsSet(par, v) <==> Reaches(g, 0, v)
  {
    assert ParentBelow(rank, par, v);
    if Reaches(g, 0, v) {
      AncestorsAreDominators(g, preds, rank, par, 0, v);
    } else {
      ReachesSelf(g, 0);
    }
  }

  /** From the last instructions of a function's blocks to the dominators of a block, over the paths
      that those instructions call for. */
  method BlockDominators(lasts: seq<ControlFlow.Last>, id: nat, ghost g: Graph) returns (doms: Option<seq<nat>>)
    requires forall b :: 0 <= b < |lasts| ==> ControlFlow.Fits(lasts[b], |lasts|)
    requires ControlFlow.FlowGraph(lasts, g) && id < |lasts|
    ensures doms.Some? <==> Reaches(g, 0, id)
    ensures doms.Some? ==> ListsDominators(g, doms.value, id)
  {
    var cfg := new ControlFlow.ControlFlowGraph(lasts);
    forall u: nat, v: nat ensures Edge(cfg.links, u, v) <==> Edge(g, u, v) {
      if u < |g| {
        ControlFlow.SuccessorsAre(lasts[u], u, |g|, v);
      }
    }
    forall u: nat, v: nat ensures Edge(cfg.links, u, v) <==> Edge(cfg.reverseLinks, v, u) {
      ControlFlow.PairedMirrors(cfg.links, cfg.reverseLinks, u, v);
    }
    var dom := new Dominance(cfg.links, cfg.reverseLinks);
    doms := dom.GetDominators(id);
    SameEdges(cfg.links, g, id, if doms.Some? then doms.value else []);
  }

  /** Only the links of a graph matter, not their order. */
  lemma SameEdges(g: Graph, h: Graph, id: nat, list: seq<nat>)
    requires |g| == |h| && forall u: nat, v: nat :: Edge(g, u, v) <==> Edge(h, u, v)
    ensures Reaches(g, 0, id) <==> Reaches(h, 0, id)
    ensures ListsDominators(g, list, id) <==> ListsDominators(h, list, id)
  {
    assert SamePaths(g, h) && SamePaths(h, g);
    SameReaches(g, h, id);
    forall d: nat, v: nat ensures Dominates(g, d, v) <==> Dominates(h, d, v) {
      SameDominates(g, h, d, v);
    }
    forall d: nat, v: nat ensures ImmediateDominator(g, d, v) <==> ImmediateDominator(h, d, v) {
    }
  }

  ghost predicate SamePaths(g: Graph, h: Graph) {
    forall p: seq<nat>, u: nat, v: nat :: Connects(g, p, u, v) <==> Connects(h, p, u, v)
  }

  lemma SameReaches(g: Graph, h: Graph, v: nat)
    requires SamePaths(g, h)
    ensures Reaches(g, 0, v) <==> Reaches(h, 0, v)
  {
    if p :| Connects(g, p, 0, v) {
      assert Connects(h, p, 0, v);
    }
    if p :| Connects(h, p, 0, v) {
      assert Connects(g, p, 0, v);
    }
  }

  lemma SameDominates(g: Graph, h: Graph, d: nat, v: nat)
    requires SamePaths(g, h)
    ensures Dominates(g, d, v) <==> Dominates(h, d, v)
  {
    assert forall p: seq<nat> :: Connects(g, p, 0, v) <==> Connects(h, p, 0, v);
  }
}
