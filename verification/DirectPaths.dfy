/** For which graphs the use-def analysis records every reaching definition, whatever the code. */
module DirectPaths {
  import opened Graphs
  import opened Options
  import opened Flow
  import opened RefLists
  import opened Scc
  import opened Chains

  /** A path on which no link leads forward past the next block. */
  ghost predicate Direct(g: Graph, p: seq<nat>) {
    && |p| >= 2 && IsPath(g, p) && (forall i :: 0 <= i < |p| ==> p[i] < |g|)
    && forall i: nat, j: nat :: i < j < |p| && Edge(g, p[i], p[j]) ==> j == i + 1
  }

  /** No block links to itself, and no direct path goes back twice in a component. */
  ghost predicate Simple(f: Function)
    requires Sorted(f)
  {
    && (forall v: nat :: !Edge(f.g, v, v))
    && forall p :: Direct(f.g, p) && Walkable(f, p) ==> RetreatsOnce(f, p)
  }

  // ---- Direct paths are enough ----

  lemma Shortcut(g: Graph, code: seq<seq<Action>>, r: nat, d: nat, p: seq<nat>, v: nat, i: nat, j: nat)
    requires |code| == |g| && Undisturbed(g, code, r, d, p, v) && i + 1 < j < |p| && Edge(g, p[i], p[j])
    ensures Undisturbed(g, code, r, d, p[..i + 1] + p[j..], v)
  {
    var q := p[..i + 1] + p[j..];
    forall k | 0 <= k < |q| - 1 ensures Edge(g, q[k], q[k + 1]) {
      if k < i {
        assert q[k] == p[k] && q[k + 1] == p[k + 1];
      } else if k == i {
        assert q[k] == p[i] && q[k + 1] == p[j];
      } else {
        assert q[k] == p[k + j - i - 1] && q[k + 1] == p[k + j - i];
      }
    }
    assert q[|q| - 1] == p[|p| - 1];
    forall k | 0 < k < |q| - 1 ensures BlockDef(code[q[k]], r) == None {
      assert q[k] == p[if k <= i then k else k + j - i - 1];
    }
  }

  lemma {:induction false} DirectUndisturbed(g: Graph, code: seq<seq<Action>>, r: nat, d: nat, p: seq<nat>, v: nat)
    returns (q: seq<nat>)
    requires |code| == |g| && Undisturbed(g, code, r, d, p, v)
    ensures Undisturbed(g, code, r, d, q, v) && Direct(g, q)
    decreases |p|
  {
    if i: nat, j: nat :| i < j < |p| && Edge(g, p[i], p[j]) && j != i + 1 {
      Shortcut(g, code, r, d, p, v, i, j);
      q := DirectUndisturbed(g, code, r, d, p[..i + 1] + p[j..], v);
    } else {
      q := p;
    }
  }

  lemma SortedWalks(f: Function, p: seq<nat>)
    requires Sorted(f) && (forall v: nat :: v < |f.g| ==> f.Listed(v)) && (forall v: nat :: !Edge(f.g, v, v))
    requires |p| >= 2 && IsPath(f.g, p) && forall i :: 0 <= i < |p| ==> p[i] < |f.g|
    ensures Walkable(f, p)
  {
    forall i: nat | i + 1 < |p| ensures Flow.Step(f, p, i) {
      assert Edge(f.g, p[i], p[i + 1]);
    }
  }

  lemma SimpleFindsAll(f: Function, s: nat, r: nat, d: nat)
    requires Sorted(f) && (forall v: nat :: v < |f.g| ==> f.Listed(v)) && Simple(f)
    requires Reaching(f.g, f.code, s, r, d)
    ensures Found(f, s, r, d)
  {
    var v: nat, i: nat :| ReachingAt(f.g, f.code, s, r, d, v, i);
    if LastDef(f.code[v], i, r).None? {
      var p :| Undisturbed(f.g, f.code, r, d, p, v);
      var q := DirectUndisturbed(f.g, f.code, r, d, p, v);
      SortedWalks(f, q);
      assert PlainEntry(f, r, q, d, 2);
    }
    assert FoundAt(f, s, r, d, v, i);
  }

  // ---- And they are needed ----

  /** Blocks on the path, except its ends. */
  ghost predicate Inner(p: seq<nat>, w: nat) {
    exists k :: 0 < k < |p| - 1 && p[k] == w
  }

  /** Code in which only the path carries the definition at its start to the use at its end: blocks
      that are not inside it define the register anew. */
  ghost function CodeFor(g: Graph, p: seq<nat>): (code: seq<seq<Action>>)
    requires |p| >= 2
    ensures |code| == |g| && forall w: nat :: w < |g| ==> code[w] == BlockFor(p, w)
  {
    seq(|g|, w requires 0 <= w < |g| => BlockFor(p, w))
  }

  ghost function BlockFor(p: seq<nat>, w: nat): seq<Action>
    requires |p| >= 2
  {
    (if w == p[|p| - 1] then [Use(0, 0)] else [])
    + (if w == p[0] then [Def(1, 0)] else if Inner(p, w) then [] else [Def(2, 0)])
  }

  lemma BlockForDefines(p: seq<nat>, w: nat)
    requires |p| >= 2
    ensures BlockDef(BlockFor(p, w), 0) ==
            if w == p[0] then Some(1) else if Inner(p, w) then None else Some(2)
    ensures BlockFor(p, w) != [] && BlockFor(p, w)[0].Use? ==> LastDef(BlockFor(p, w), 0, 0) == None
    ensures forall i :: 0 <= i < |BlockFor(p, w)| && BlockFor(p, w)[i] == Use(0, 0) ==> i == 0 && w == p[|p| - 1]
  {
    var code := BlockFor(p, w);
    if |code| == 2 {
      assert LastDef(code, 2, 0) == Some(code[1].state);
    } else if |code| == 1 {
      assert LastDef(code, 1, 0) == if code[0].Def? then Some(code[0].state) else LastDef(code, 0, 0);
    }
  }

  /** The ends of a direct path are not inside it, and its inner blocks are distinct. */
  lemma DirectIsSimple(g: Graph, p: seq<nat>, i: nat, j: nat)
    requires Direct(g, p) && i < j < |p| && p[i] == p[j]
    ensures i == 0 && j == |p| - 1
  {
    if j < |p| - 1 {
      NotAgain(g, p, i, j);
    } else if i > 0 {
      NotBefore(g, p, i);
    }
  }

  lemma NotAgain(g: Graph, p: seq<nat>, i: nat, j: nat)
    requires Direct(g, p) && i < j < |p| - 1
    ensures p[i] != p[j]
  {
    assert Edge(g, p[j], p[j + 1]);
  }

  lemma NotBefore(g: Graph, p: seq<nat>, i: nat)
    requires Direct(g, p) && 0 < i < |p| - 1
    ensures p[i] != p[|p| - 1]
  {
    assert Edge(g, p[i - 1], p[i]);
  }

  lemma PathReaches(g: Graph, p: seq<nat>)
    requires Direct(g, p)
    ensures Reaching(g, CodeFor(g, p), 0, 0, 1)
  {
    var code, v := CodeFor(g, p), p[|p| - 1];
    BlockForDefines(p, p[0]);
    BlockForDefines(p, v);
    forall k | 0 < k < |p| - 1 ensures BlockDef(code[p[k]], 0) == None {
      BlockForDefines(p, p[k]);
      if p[k] == p[0] {
        DirectIsSimple(g, p, 0, k);
      }
      assert Inner(p, p[k]);
    }
    assert Undisturbed(g, code, 0, 1, p, v);
    assert code[v][0] == Use(0, 0);
    assert ReachingAt(g, code, 0, 0, 1, v, 0);
  }

  /** A path that the analysis follows in that code stays on the blocks of `p`. */
  lemma FoundStays(f: Function, p: seq<nat>) returns (q: seq<nat>)
    requires Placed(f) && Direct(f.g, p) && f.code == CodeFor(f.g, p) && Found(f, 0, 0, 1)
    ensures |q| >= 2 && Walkable(f, q) && RetreatsOnce(f, q) && q[0] == p[0] && q[|q| - 1] == p[|p| - 1]
    ensures forall k :: 0 < k < |q| - 1 ==> Inner(p, q[k])
  {
    var v: nat, i: nat :| FoundAt(f, 0, 0, 1, v, i);
    BlockForDefines(p, v);
    q :| PlainEntry(f, 0, q, 1, 2) && q[|q| - 1] == v;
    forall k | 0 <= k < |q| ensures q[k] < |f.g| {
      assert f.Listed(q[k]);
    }
    BlockForDefines(p, q[0]);
    forall k | 0 < k < |q| - 1 ensures Inner(p, q[k]) {
      BlockForDefines(p, q[k]);
    }
  }

  /** Such a path takes every step of `p`. */
  lemma {:induction false} TakesStep(g: Graph, p: seq<nat>, q: seq<nat>, i: nat, k: nat, x: nat) returns (a: nat)
    requires Direct(g, p) && |q| >= 2 && q[|q| - 1] == p[|p| - 1] && i + 1 < |p|
    requires forall b: nat :: b + 1 < |q| ==> Edge(g, q[b], q[b + 1])
    requires forall b :: 0 < b < |q| - 1 ==> Inner(p, q[b])
    requires k + 1 < |q| && x <= i && q[k] == p[x]
    ensures a + 1 < |q| && q[a] == p[i] && q[a + 1] == p[i + 1]
    decreases |q| - k
  {
    var y := |p| - 1;
    if k + 1 < |q| - 1 {
      y :| 0 < y < |p| - 1 && p[y] == q[k + 1];
    }
    assert Edge(g, q[k], q[k + 1]) && q[k + 1] == p[y];
    if y > i {
      assert Edge(g, p[x], p[y]);
      a := k;
    } else {
      a := TakesStep(g, p, q, i, k + 1, y);
    }
  }

  lemma StepTaken(f: Function, p: seq<nat>, q: seq<nat>, i: nat) returns (a: nat)
    requires Placed(f) && Direct(f.g, p) && Walkable(f, q) && |q| >= 2 && q[0] == p[0] && q[|q| - 1] == p[|p| - 1]
    requires (forall k :: 0 < k < |q| - 1 ==> Inner(p, q[k])) && i + 1 < |p|
    ensures a + 1 < |q| && q[a] == p[i] && q[a + 1] == p[i + 1]
  {
    forall b: nat | b + 1 < |q| ensures Edge(f.g, q[b], q[b + 1]) {
      assert Flow.Step(f, q, b);
    }
    a := TakesStep(f.g, p, q, i, 0, 0);
  }

  lemma FoundRetreatsOnce(f: Function, p: seq<nat>)
    requires Placed(f) && Direct(f.g, p) && Walkable(f, p) && f.code == CodeFor(f.g, p) && Found(f, 0, 0, 1)
    ensures RetreatsOnce(f, p)
  {
    var q := FoundStays(f, p);
    forall i: nat, j: nat | i < j && Retreats(f, p, i) && Retreats(f, p, j) ensures f.comp[p[i]] != f.comp[p[j]] {
      var a := StepTaken(f, p, q, i);
      var b := StepTaken(f, p, q, j);
      if a == b {
        DirectIsSimple(f.g, p, i, j);
      }
      assert Retreats(f, q, a) && Retreats(f, q, b);
    }
  }

  lemma NoSelfLink(f: Function, v: nat)
    requires Placed(f) && v < |f.g| && Edge(f.g, v, v) && f.code == CodeFor(f.g, [v, v])
    ensures !Found(f, 0, 0, 1)
  {
    var p := [v, v];
    assert Direct(f.g, p);
    if Found(f, 0, 0, 1) {
      var q := FoundStays(f, p);
      SelfLinkNotTaken(f, v, q);
    }
  }

  lemma SelfLinkNotTaken(f: Function, v: nat, q: seq<nat>)
    requires Placed(f) && |q| >= 2 && q[0] == q[|q| - 1] == v
    requires forall k :: 0 < k < |q| - 1 ==> Inner([v, v], q[k])
    ensures !Walkable(f, q)
  {
    assert |q| == 2 || Inner([v, v], q[1]);
    assert !Flow.Step(f, q, 0);
  }

  // ---- The exact condition ----

  /** With `code`, every reaching definition is recorded. */
  ghost predicate FindsAll(g: Graph, order: seq<seq<nat>>, code: seq<seq<Action>>)
    requires |code| == |g| && Placed(Place(g, code, order))
  {
    forall s: nat, r: nat, d: nat :: Reaching(g, code, s, r, d) ==> Found(Place(g, code, order), s, r, d)
  }

  /** Blocks and components alone decide whether a graph is simple. */
  ghost predicate SimpleGraph(g: Graph, order: seq<seq<nat>>)
    requires Sorted(Place(g, seq(|g|, _ => []), order))
  {
    Simple(Place(g, seq(|g|, _ => []), order))
  }

  lemma SameForAllCode(g: Graph, order: seq<seq<nat>>, code: seq<seq<Action>>, f: Function, p: seq<nat>)
    requires |g| > 0 && FromEntry(g, order) && |code| == |g| && f == Place(g, seq(|g|, _ => []), order)
    ensures Sorted(f) && Sorted(Place(g, code, order))
    ensures Walkable(Place(g, code, order), p) <==> Walkable(f, p)
    ensures Walkable(f, p) ==> (RetreatsOnce(Place(g, code, order), p) <==> RetreatsOnce(f, p))
  {
    var h := Place(g, code, order);
    PlaceIsSorted(g, code, order);
    PlaceIsSorted(g, seq(|g|, _ => []), order);
    forall i: nat ensures Flow.Step(h, p, i) <==> Flow.Step(f, p, i) {
    }
    if Walkable(f, p) {
      forall i: nat ensures Retreats(h, p, i) <==> Retreats(f, p, i) {
      }
    }
  }

  /** In the order of `genFull(0)`, every reaching definition is recorded whatever the code, if and
      only if no block links to itself and no direct path goes back twice in a component. */
  lemma CompleteExactly(g: Graph, order: seq<seq<nat>>)
    requires |g| > 0 && FromEntry(g, order)
    ensures Sorted(Place(g, seq(|g|, _ => []), order))
    ensures forall code: seq<seq<Action>> :: |code| == |g| ==> Sorted(Place(g, code, order))
    ensures (forall code: seq<seq<Action>> :: |code| == |g| ==> FindsAll(g, order, code)) <==> SimpleGraph(g, order)
  {
    var f := Place(g, seq(|g|, _ => []), order);
    PlaceIsSorted(g, f.code, order);
    forall code: seq<seq<Action>> | |code| == |g| ensures Sorted(Place(g, code, order)) {
      PlaceIsSorted(g, code, order);
    }
    if SimpleGraph(g, order) {
      forall code: seq<seq<Action>> | |code| == |g| ensures FindsAll(g, order, code) {
        SimpleIsComplete(g, order, code);
      }
    } else {
      NotSimpleMisses(g, order);
    }
  }

  lemma SimpleIsComplete(g: Graph, order: seq<seq<nat>>, code: seq<seq<Action>>)
    requires |g| > 0 && FromEntry(g, order) && |code| == |g|
    requires Sorted(Place(g, seq(|g|, _ => []), order)) && SimpleGraph(g, order)
    ensures Sorted(Place(g, code, order)) && FindsAll(g, order, code)
  {
    var f, h := Place(g, seq(|g|, _ => []), order), Place(g, code, order);
    PlaceIsSorted(g, code, order);
    forall p | Direct(g, p) && Walkable(h, p) ensures RetreatsOnce(h, p) {
      SameForAllCode(g, order, code, f, p);
    }
    forall s: nat, r: nat, d: nat | Reaching(g, code, s, r, d) ensures Found(h, s, r, d) {
      SimpleFindsAll(h, s, r, d);
    }
  }

  lemma NotSimpleMisses(g: Graph, order: seq<seq<nat>>)
    requires |g| > 0 && FromEntry(g, order)
    requires Sorted(Place(g, seq(|g|, _ => []), order)) && !SimpleGraph(g, order)
    ensures exists code: seq<seq<Action>> ::
              |code| == |g| && Sorted(Place(g, code, order)) && !FindsAll(g, order, code)
  {
    var f := Place(g, seq(|g|, _ => []), order);
    if v: nat :| Edge(g, v, v) {
      var code := CodeFor(g, [v, v]);
      PlaceIsSorted(g, code, order);
      assert Direct(g, [v, v]);
      PathReaches(g, [v, v]);
      NoSelfLink(Place(g, code, order), v);
      assert !FindsAll(g, order, code);
    } else {
      var p :| Direct(g, p) && Walkable(f, p) && !RetreatsOnce(f, p);
      var code := CodeFor(g, p);
      SameForAllCode(g, order, code, f, p);
      PathReaches(g, p);
      if Found(Place(g, code, order), 0, 0, 1) {
        FoundRetreatsOnce(Place(g, code, order), p);
      }
      assert !FindsAll(g, order, code);
    }
  }

  /** The analysis of a function, whose refs are exactly the reaching definitions if the graph is simple. */
  method BuildAll(g: Graph, bwd: Graph, code: seq<seq<Action>>, states: nat)
    returns (refs: seq<RefMap>, uses: seq<RefMap>, order: seq<seq<nat>>)
    requires |g| > 0 && Mirrored(g, bwd) && |code| == |g|
    requires forall v: nat, i: nat :: v < |code| && i < |code[v]| ==> code[v][i].state < states
    ensures |refs| == states && FromEntry(g, order) && Sorted(Place(g, seq(|g|, _ => []), order))
    ensures SimpleGraph(g, order) ==> forall s: nat, r: nat, d: nat :: s < states ==>
              (Has(refs[s], r, d) <==> Reaching(g, code, s, r, d))
  {
    refs, uses, order := BuildChains(g, bwd, code, states);
    PlaceIsSorted(g, seq(|g|, _ => []), order);
    if SimpleGraph(g, order) {
      SimpleIsComplete(g, order, code);
    }
  }
}
