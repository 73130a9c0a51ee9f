/** What the use-def analysis as a whole finds: exactly which definitions a use refers to. */
module Chains {
  import opened Graphs
  import opened Options
  import opened Flow
  import opened RefLists
  import opened Sweeps
  import opened SccState
  import opened Scc
  import opened UseDef
  import opened WalkedLoops

  // ---- The meaning of the recorded refs ----

  /** `d` is in force at a use of `r` by `s`: defined earlier in the block, or coming in along a
      path without redefinition that uses no link from a block to itself and goes back at most
      once in each component. */
  ghost predicate FoundAt(f: Function, s: nat, r: nat, d: nat, v: nat, i: nat)
    requires Placed(f)
  {
    && f.Listed(v) && v < |f.g| && i < |f.code[v]| && f.code[v][i] == Use(s, r)
    && (match LastDef(f.code[v], i, r)
        case Some(own) => d == own
        case None => exists p :: PlainEntry(f, r, p, d, 2) && p[|p| - 1] == v)
  }

  ghost predicate Found(f: Function, s: nat, r: nat, d: nat)
    requires Placed(f)
  {
    exists v: nat, i: nat :: FoundAt(f, s, r, d, v, i)
  }

  lemma UsesFromIsFound(f: Function, s: nat, r: nat, d: nat, v: nat, i: nat)
    requires Placed(f) && f.Listed(v)
    ensures UsesFrom(f, s, r, d, v, i, 2) <==> FoundAt(f, s, r, d, v, i)
  {
    assert IsAt(f, v, f.comp[v], f.pos[v]);
    if i < |f.code[v]| && LastDef(f.code[v], i, r).None? {
      forall p | p != [] && p[|p| - 1] == v ensures Arrives(f, r, p, d, 2) <==> PlainEntry(f, r, p, d, 2) {
        ArrivesIsPlain(f, r, p, d, 2);
      }
      if ArrivesAt(f, r, v, d, 2) {
        var p := ArrivingPath(f, r, v, d, 2);
        assert PlainEntry(f, r, p, d, 2);
      }
      if p :| PlainEntry(f, r, p, d, 2) && p[|p| - 1] == v {
        assert Arrives(f, r, p, d, 2);
      }
    }
  }

  /** After the last list, the refs are exactly what the paths describe. */
  lemma RefersMeansFound(f: Function, refs: seq<RefMap>, s: nat, r: nat, d: nat)
    requires Placed(f) && Refers(f, refs, Levels(f, |f.order|, 1, 0)) && s < |refs|
    ensures Has(refs[s], r, d) <==> Found(f, s, r, d)
  {
    var lv := Levels(f, |f.order|, 1, 0);
    if Recorded(f, lv, s, r, d) {
      var v: nat, i: nat :| v < |f.g| && UsesFrom(f, s, r, d, v, i, lv[v]);
      UsesFromIsFound(f, s, r, d, v, i);
    }
    if Found(f, s, r, d) {
      var v: nat, i: nat :| FoundAt(f, s, r, d, v, i);
      UsesFromIsFound(f, s, r, d, v, i);
      assert lv[v] == 2;
      assert Recorded(f, lv, s, r, d);
    }
  }

  // ---- Reaching definitions, in terms of the graph alone ----

  /** A path from the block of `d` to block `v` on which nothing redefines `r` before `v`. */
  ghost predicate Undisturbed(g: Graph, code: seq<seq<Action>>, r: nat, d: nat, p: seq<nat>, v: nat)
    requires |code| == |g|
  {
    && |p| >= 2 && IsPath(g, p) && p[|p| - 1] == v
    && (forall i :: 0 <= i < |p| ==> p[i] < |g|)
    && BlockDef(code[p[0]], r) == Some(d)
    && forall i :: 0 < i < |p| - 1 ==> BlockDef(code[p[i]], r) == None
  }

  ghost predicate ReachingAt(g: Graph, code: seq<seq<Action>>, s: nat, r: nat, d: nat, v: nat, i: nat)
    requires |code| == |g|
  {
    && v < |g| && i < |code[v]| && code[v][i] == Use(s, r)
    && (match LastDef(code[v], i, r)
        case Some(own) => d == own
        case None => exists p :: Undisturbed(g, code, r, d, p, v))
  }

  /** `d` is a reaching definition of a use of `r` by `s`. */
  ghost predicate Reaching(g: Graph, code: seq<seq<Action>>, s: nat, r: nat, d: nat)
    requires |code| == |g|
  {
    exists v: nat, i: nat :: ReachingAt(g, code, s, r, d, v, i)
  }

  lemma PlainIsUndisturbed(f: Function, r: nat, d: nat, p: seq<nat>)
    requires Placed(f) && PlainEntry(f, r, p, d, 2)
    ensures Undisturbed(f.g, f.code, r, d, p, p[|p| - 1])
  {
    forall i | 0 <= i < |p| ensures p[i] < |f.g| {
      assert f.Listed(p[i]);
    }
    forall i | 0 <= i < |p| - 1 ensures Edge(f.g, p[i], p[i + 1]) {
      assert Step(f, p, i);
    }
  }

  /** Every recorded ref is a reaching definition. */
  lemma FoundIsReaching(f: Function, s: nat, r: nat, d: nat)
    requires Placed(f) && Found(f, s, r, d)
    ensures Reaching(f.g, f.code, s, r, d)
  {
    var v: nat, i: nat :| FoundAt(f, s, r, d, v, i);
    if LastDef(f.code[v], i, r).None? {
      var p :| PlainEntry(f, r, p, d, 2) && p[|p| - 1] == v;
      PlainIsUndisturbed(f, r, d, p);
    }
    assert ReachingAt(f.g, f.code, s, r, d, v, i);
  }

  // ---- Without cycles nothing is missed ----

  ghost predicate Acyclic(g: Graph) {
    forall u: nat, v: nat :: Edge(g, u, v) ==> !Reaches(g, v, u)
  }

  lemma AcyclicAlone(f: Function, p: seq<nat>, i: nat)
    requires Sorted(f) && Topological(f.g, f.order) && Acyclic(f.g)
    requires i + 1 < |p| && f.Listed(p[i]) && f.Listed(p[i + 1]) && Edge(f.g, p[i], p[i + 1])
    ensures p[i] != p[i + 1] && f.comp[p[i]] != f.comp[p[i + 1]]
  {
    var u, v := p[i], p[i + 1];
    if u == v {
      ReachesSelf(f.g, u);
    }
    if f.comp[u] == f.comp[v] {
      SameListMutual(f, u, v);
    }
  }

  lemma SameListMutual(f: Function, u: nat, v: nat)
    requires Placed(f) && Topological(f.g, f.order) && f.Listed(u) && f.Listed(v) && f.comp[u] == f.comp[v]
    ensures Mutual(f.g, u, v)
  {
    var c := f.order[f.comp[u]];
    assert IsAt(f, u, f.comp[u], f.pos[u]) && IsAt(f, v, f.comp[v], f.pos[v]);
    assert Component(f.g, c) && u in c && v in c;
  }

  lemma UndisturbedIsPlain(f: Function, r: nat, d: nat, p: seq<nat>)
    requires Sorted(f) && Topological(f.g, f.order) && Acyclic(f.g) && (forall v: nat :: v < |f.g| ==> f.Listed(v))
    requires |p| >= 2 && Undisturbed(f.g, f.code, r, d, p, p[|p| - 1])
    ensures PlainEntry(f, r, p, d, 2)
  {
    forall i: nat | i + 1 < |p| ensures Step(f, p, i) && f.comp[p[i]] != f.comp[p[i + 1]] {
      assert Edge(f.g, p[i], p[i + 1]);
      AcyclicAlone(f, p, i);
    }
    assert Walkable(f, p);
    assert forall i: nat :: !Retreats(f, p, i);
  }

  lemma AcyclicFindsAll(f: Function, s: nat, r: nat, d: nat)
    requires Sorted(f) && Topological(f.g, f.order) && Acyclic(f.g) && (forall v: nat :: v < |f.g| ==> f.Listed(v))
    requires Reaching(f.g, f.code, s, r, d)
    ensures Found(f, s, r, d)
  {
    var v: nat, i: nat :| ReachingAt(f.g, f.code, s, r, d, v, i);
    if LastDef(f.code[v], i, r).None? {
      var p :| Undisturbed(f.g, f.code, r, d, p, v);
      UndisturbedIsPlain(f, r, d, p);
    }
    assert FoundAt(f, s, r, d, v, i);
  }

  // ---- The analysis on the order of components ----

  /** The list that holds `v`, and its place there. */
  ghost function CompOf(order: seq<seq<nat>>, v: nat): (c: nat)
    ensures c <= |order| && (c < |order| ==> v in order[c])
    ensures forall i :: 0 <= i < c ==> v !in order[i]
  {
    if order == [] then 0
    else if v in order[0] then 0
    else
      var c := CompOf(order[1..], v);
      assert forall i :: 0 < i < c + 1 ==> order[i] == order[1..][i - 1];
      c + 1
  }

  ghost function PosOf(list: seq<nat>, v: nat): (i: nat)
    ensures v in list ==> i < |list| && list[i] == v
  {
    if list == [] || list[0] == v then 0 else PosOf(list[1..], v) + 1
  }

  ghost function Place(g: Graph, code: seq<seq<Action>>, order: seq<seq<nat>>): Function {
    Function(g, code, order,
             seq(|g|, v requires 0 <= v < |g| => CompOf(order, v)),
             seq(|g|, v requires 0 <= v < |g| =>
                 var c := CompOf(order, v);
                 if c < |order| then PosOf(order[c], v) else 0))
  }

  lemma PlaceIsSorted(g: Graph, code: seq<seq<Action>>, order: seq<seq<nat>>)
    requires Topological(g, order) && |code| == |g| && forall v: nat :: Scc.Listed(order, v) ==> v < |g|
    ensures Sorted(Place(g, code, order))
    ensures forall v: nat :: Place(g, code, order).Listed(v) <==> Scc.Listed(order, v)
  {
    var f := Place(g, code, order);
    forall c: nat, i: nat | c < |order| && i < |order[c]| ensures IsAt(f, order[c][i], c, i) {
      var v := order[c][i];
      assert v in order[c] && Scc.Listed(order, v);
      assert CompOf(order, v) == c;
      assert Component(g, order[c]) && Distinct(order[c]);
    }
    forall v: nat | f.Listed(v) ensures IsAt(f, v, f.comp[v], f.pos[v]) {
    }
    forall v: nat ensures f.Listed(v) <==> Scc.Listed(order, v) {
      if Scc.Listed(order, v) {
        var i :| 0 <= i < |order| && v in order[i];
        assert CompOf(order, v) == i;
      }
    }
  }

  /** The analysis as the passes run it: components from the entry block on, then the sweeps. */
  method BuildChains(g: Graph, bwd: Graph, code: seq<seq<Action>>, states: nat)
    returns (refs: seq<RefMap>, uses: seq<RefMap>, order: seq<seq<nat>>)
    requires |g| > 0 && Mirrored(g, bwd) && |code| == |g|
    requires forall v: nat, i: nat :: v < |code| && i < |code[v]| ==> code[v][i].state < states
    ensures |refs| == states && Linked(refs, uses) && FromEntry(g, order) && Sorted(Place(g, code, order))
    ensures forall s: nat, r: nat, d: nat :: s < states ==>
              (Has(refs[s], r, d) <==> Found(Place(g, code, order), s, r, d))
    ensures forall s: nat, r: nat, d: nat :: s < states && Has(refs[s], r, d) ==> Reaching(g, code, s, r, d)
    ensures Acyclic(g) ==> forall s: nat, r: nat, d: nat :: s < states && Reaching(g, code, s, r, d) ==>
              Has(refs[s], r, d)
  {
    order := SccOrderFull(g, 0);
    ghost var f := Place(g, code, order);
    PlaceIsSorted(g, code, order);
    var analysis := new UseDef(bwd, code, states);
    analysis.Analyze(order, f);
    refs, uses := analysis.refs, analysis.uses;
    forall s: nat, r: nat, d: nat | s < states ensures Has(refs[s], r, d) <==> Found(f, s, r, d) {
      RefersMeansFound(f, refs, s, r, d);
    }
    forall s: nat, r: nat, d: nat | s < states && Has(refs[s], r, d) ensures Reaching(g, code, s, r, d) {
      FoundIsReaching(f, s, r, d);
    }
    if Acyclic(g) {
      forall s: nat, r: nat, d: nat | s < states && Reaching(g, code, s, r, d) ensures Has(refs[s], r, d) {
        AcyclicFindsAll(f, s, r, d);
      }
    }
  }

  // ---- With cycles some reaching definitions are missed ----

  /** One block that links to itself, uses a register and then defines it. */
  lemma SelfLoopIsMissed(r: nat, f: Function)
    requires f == Function([[0]], [[Use(0, r), Def(1, r)]], [[0]], [0], [0])
    ensures Sorted(f) && Reaching(f.g, f.code, 0, r, 1) && !Found(f, 0, r, 1)
  {
    var code := f.code[0];
    assert LastDef(code, 0, r) == None && LastDef(code, 1, r) == None && LastDef(code, 2, r) == Some(1);
    assert IsAt(f, 0, 0, 0);
    assert Undisturbed(f.g, f.code, r, 1, [0, 0], 0);
    assert ReachingAt(f.g, f.code, 0, r, 1, 0, 0);
    forall p: seq<nat> | |p| >= 2 ensures !Walkable(f, p) {
      assert f.Listed(p[0]) && f.Listed(p[1]) ==> !Step(f, p, 0);
    }
  }

  /** The order of one block that links to itself. */
  lemma SelfLoopOrder(order: seq<seq<nat>>)
    requires FromEntry([[0]], order)
    ensures order == [[0]]
  {
    forall i | 0 <= i < |order| ensures order[i] == [0] {
      assert Component([[0]], order[i]) && order[i][0] in order[i];
      forall v | v in order[i] ensures v == 0 {
        assert Scc.Listed(order, v);
      }
      assert order[i][|order[i]| - 1] in order[i];
    }
    assert Scc.Listed(order, 0);
    assert 0 in order[0] && 0 in order[|order| - 1];
  }

  /** The whole analysis on that block does not record the definition. */
  method SelfLoopRun(r: nat) returns (refs: seq<RefMap>)
    ensures |refs| == 2 && !Has(refs[0], r, 1) && Reaching([[0]], [[Use(0, r), Def(1, r)]], 0, r, 1)
  {
    var code := [[Use(0, r), Def(1, r)]];
    var uses, order;
    refs, uses, order := BuildChains([[0]], [[0]], code, 2);
    SelfLoopOrder(order);
    PlaceOne(code);
    SelfLoopIsMissed(r, Place([[0]], code, order));
  }

  lemma PlaceOne(code: seq<seq<Action>>)
    requires |code| == 1
    ensures Place([[0]], code, [[0]]) == Function([[0]], code, [[0]], [0], [0])
  {
    assert CompOf([[0]], 0) == 0 && PosOf([0], 0) == 0;
  }

  /** Three blocks in one component, in the order of the walk: the only way from the definition
      in the last to the use in the first goes back twice. */
  lemma TwoRetreatsAreMissed(r: nat, f: Function)
    requires f == Function(TWO_LOOPS, [[Use(0, r)], [], [Def(1, r)]], [[0, 1, 2]], [0, 0, 0], [0, 1, 2])
    ensures Sorted(f) && Reaching(f.g, f.code, 0, r, 1) && !Found(f, 0, r, 1)
  {
    assert IsAt(f, 0, 0, 0) && IsAt(f, 1, 0, 1) && IsAt(f, 2, 0, 2);
    TwoRetreatsCode(r, f.code);
    assert Undisturbed(f.g, f.code, r, 1, [2, 1, 0], 0);
    assert ReachingAt(f.g, f.code, 0, r, 1, 0, 0);
    forall v: nat, i: nat ensures !FoundAt(f, 0, r, 1, v, i) {
      NotFoundAt(r, f, v, i);
    }
  }

  lemma NotFoundAt(r: nat, f: Function, v: nat, i: nat)
    requires Placed(f) && f.g == TWO_LOOPS && f.code == [[Use(0, r)], [], [Def(1, r)]]
    requires f.comp == [0, 0, 0] && f.pos == [0, 1, 2]
    ensures !FoundAt(f, 0, r, 1, v, i)
  {
    TwoRetreatsCode(r, f.code);
    forall p: seq<nat> | PlainEntry(f, r, p, 1, 2) ensures p[|p| - 1] != 0 {
      if p[|p| - 1] == 0 {
        GoesBackTwice(f, p);
      }
    }
  }

  lemma PlaceThree(code: seq<seq<Action>>)
    requires |code| == 3
    ensures Place(TWO_LOOPS, code, [[0, 1, 2]]) == Function(TWO_LOOPS, code, [[0, 1, 2]], [0, 0, 0], [0, 1, 2])
  {
    var list := [0, 1, 2];
    assert list[1..] == [1, 2] && list[1..][1..] == [2];
    assert PosOf(list[1..], 1) == 0 && PosOf(list[1..][1..], 2) == 0;
    assert PosOf(list[1..], 2) == 1;
    assert PosOf(list, 0) == 0 && PosOf(list, 1) == 1 && PosOf(list, 2) == 2;
  }

  /** The whole analysis, run on those blocks, does not record the reaching definition. */
  method ReachingIsMissed(r: nat) returns (refs: seq<RefMap>)
    ensures |refs| == 2 && !Has(refs[0], r, 1)
    ensures Reaching(TWO_LOOPS, [[Use(0, r)], [], [Def(1, r)]], 0, r, 1)
  {
    var code := [[Use(0, r)], [], [Def(1, r)]];
    var uses, order;
    refs, uses, order := BuildChains(TWO_LOOPS, [[1], [0, 2], [1]], code, 2);
    TwoLoopsOrder(order);
    PlaceThree(code);
    TwoRetreatsAreMissed(r, Place(TWO_LOOPS, code, order));
  }

  lemma GoesBackTwice(f: Function, p: seq<nat>)
    requires Placed(f) && f.g == [[1], [2, 0], [1]] && f.comp == [0, 0, 0] && f.pos == [0, 1, 2]
    requires Walkable(f, p) && p[0] == 2 && p[|p| - 1] == 0
    ensures !RetreatsOnce(f, p)
  {
    var n := |p| - 2;
    assert Step(f, p, 0) && Step(f, p, n);
    assert f.Listed(p[n]);
    assert p[1] == 1 && p[n] == 1;
    assert Retreats(f, p, 0) && Retreats(f, p, n);
  }

  lemma TwoRetreatsCode(r: nat, code: seq<seq<Action>>)
    requires code == [[Use(0, r)], [], [Def(1, r)]]
    ensures BlockDef(code[0], r) == None && BlockDef(code[1], r) == None && BlockDef(code[2], r) == Some(1)
    ensures LastDef(code[0], 0, r) == None
  {
    assert LastDef(code[0], 1, r) == LastDef(code[0], 0, r) == None;
  }
}
