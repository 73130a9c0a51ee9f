/** What the sweeps of src/analysis/usedef.cpp can carry from a definition to a use: block paths
    without redefinition, described independently of the sweeps. */
module Flow {
  import opened Graphs
  import opened Options

  /** A handler's call of `useReg` or `defReg`, with the state of its instruction. */
  datatype Action = Use(state: nat, reg: nat) | Def(state: nat, reg: nat)

  /** The definition of `r` that is in force after the first `n` actions, if they define it. */
  function LastDef(code: seq<Action>, n: nat, r: nat): Option<nat>
    requires n <= |code|
  {
    if n == 0 then None
    else if code[n - 1].Def? && code[n - 1].reg == r then Some(code[n - 1].state)
    else LastDef(code, n - 1, r)
  }

  function BlockDef(code: seq<Action>, r: nat): Option<nat> {
    LastDef(code, |code|, r)
  }

  /** A function: its control flow graph, the actions of its blocks, and the order in which
      blocks are analysed. Block `v` is at index `pos[v]` of list `comp[v]`, or in no list. */
  datatype Function = Function(g: Graph, code: seq<seq<Action>>, order: seq<seq<nat>>, comp: seq<nat>, pos: seq<nat>) {
    ghost predicate Listed(v: nat) {
      v < |comp| && v < |pos| && comp[v] < |order|
    }
  }

  ghost predicate Placed(f: Function) {
    && |f.code| == |f.g| && |f.comp| == |f.g| && |f.pos| == |f.g|
    && (forall c: nat, i: nat :: c < |f.order| && i < |f.order[c]| ==> IsAt(f, f.order[c][i], c, i))
    && (forall v: nat :: f.Listed(v) ==> IsAt(f, v, f.comp[v], f.pos[v]))
  }

  ghost predicate IsAt(f: Function, v: nat, c: nat, i: nat) {
    && v < |f.g| && v < |f.comp| && v < |f.pos| && f.comp[v] == c && f.pos[v] == i
    && c < |f.order| && i < |f.order[c]| && f.order[c][i] == v
  }

  /** Links between listed blocks stay in a list or lead to a later one. */
  ghost predicate Sorted(f: Function) {
    && Placed(f)
    && forall u: nat, v: nat :: f.Listed(u) && f.Listed(v) && Edge(f.g, u, v) ==> f.comp[u] <= f.comp[v]
  }

  // ---- Paths, with the sweep in which a definition passes ----

  /** `d` enters the last block of `p` in sweep `k` over the block's list: along a link from an
      earlier list, from an earlier place in the same list in the same sweep, or from a later
      place in the sweep before. */
  ghost predicate Arrives(f: Function, r: nat, p: seq<nat>, d: nat, k: nat)
    requires Placed(f)
    decreases |p|, 0
  {
    |p| >= 2 &&
    var u, v, q := p[|p| - 2], p[|p| - 1], p[..|p| - 1];
    && v < |f.g| && f.Listed(u) && Edge(f.g, u, v) && u != v
    && (|| (f.comp[u] < f.comp[v] && Carries(f, r, q, d, 2))
        || (f.comp[u] == f.comp[v] && f.pos[u] < f.pos[v] && Carries(f, r, q, d, k))
        || (f.comp[u] == f.comp[v] && f.pos[u] > f.pos[v] && k >= 1 && Carries(f, r, q, d, k - 1)))
  }

  /** `d` is exposed at the end of the last block of `p` after sweep `k`. */
  ghost predicate Carries(f: Function, r: nat, p: seq<nat>, d: nat, k: nat)
    requires Placed(f)
    decreases |p|
  {
    && p != [] && p[|p| - 1] < |f.g| && k >= 1
    && (var def := BlockDef(f.code[p[|p| - 1]], r);
        if |p| == 1 then def == Some(d) else def == None && Arrives(f, r, p, d, k))
  }

  ghost predicate ArrivesAt(f: Function, r: nat, v: nat, d: nat, k: nat)
    requires Placed(f)
  {
    exists p :: Arrives(f, r, p, d, k) && p[|p| - 1] == v
  }

  ghost predicate CarriedTo(f: Function, r: nat, v: nat, d: nat, k: nat)
    requires Placed(f)
  {
    exists p :: Carries(f, r, p, d, k) && p[|p| - 1] == v
  }

  /** What is exposed at the end of a block is its own last definition, or what came in. */
  lemma CarriedFromEntry(f: Function, r: nat, v: nat, d: nat, k: nat)
    requires Placed(f) && v < |f.g| && k >= 1
    ensures CarriedTo(f, r, v, d, k) <==>
            BlockDef(f.code[v], r) == Some(d) || (BlockDef(f.code[v], r) == None && ArrivesAt(f, r, v, d, k))
  {
    if BlockDef(f.code[v], r) == Some(d) {
      assert Carries(f, r, [v], d, k);
    } else if BlockDef(f.code[v], r) == None && ArrivesAt(f, r, v, d, k) {
      var p :| Arrives(f, r, p, d, k) && p[|p| - 1] == v;
      assert Carries(f, r, p, d, k);
    }
  }

  /** A later sweep carries whatever an earlier one does. */
  lemma {:induction false} CarriesMore(f: Function, r: nat, p: seq<nat>, d: nat)
    requires Placed(f) && Carries(f, r, p, d, 1)
    ensures Carries(f, r, p, d, 2)
    decreases |p|
  {
    if |p| > 1 {
      var u, v, q := p[|p| - 2], p[|p| - 1], p[..|p| - 1];
      assert Arrives(f, r, p, d, 1);
      if f.comp[u] == f.comp[v] {
        assert !Carries(f, r, q, d, 0);
        assert Carries(f, r, q, d, 1);
        CarriesMore(f, r, q, d);
      }
    }
  }

  lemma ArrivesMore(f: Function, r: nat, p: seq<nat>, d: nat)
    requires Placed(f) && Arrives(f, r, p, d, 1)
    ensures Arrives(f, r, p, d, 2)
  {
    var u, v, q := p[|p| - 2], p[|p| - 1], p[..|p| - 1];
    if f.comp[u] == f.comp[v] {
      assert Carries(f, r, q, d, 1);
      CarriesMore(f, r, q, d);
    }
  }

  /** In a list of one block, one sweep is as good as two. */
  lemma AloneSameSweep(f: Function, r: nat, p: seq<nat>, d: nat)
    requires Placed(f) && p != [] && f.Listed(p[|p| - 1]) && |f.order[f.comp[p[|p| - 1]]]| == 1
    ensures Arrives(f, r, p, d, 1) <==> Arrives(f, r, p, d, 2)
    ensures Carries(f, r, p, d, 1) <==> Carries(f, r, p, d, 2)
  {
    var v := p[|p| - 1];
    if |p| > 1 && f.Listed(p[|p| - 2]) && f.comp[p[|p| - 2]] == f.comp[v] {
      assert f.pos[p[|p| - 2]] == 0 && f.pos[v] == 0;
      assert p[|p| - 2] == v;
    }
  }

  // ---- The same paths, without sweeps ----

  /** A path of listed blocks that does not use the link from a block to itself, nor one to an earlier
      list. In a sorted order there are none of the latter. */
  ghost predicate Walkable(f: Function, p: seq<nat>) {
    && p != []
    && (forall i :: 0 <= i < |p| ==> f.Listed(p[i]))
    && (forall i: nat :: i + 1 < |p| ==> Step(f, p, i))
  }

  ghost predicate Step(f: Function, p: seq<nat>, i: nat) {
    && i + 1 < |p| && Edge(f.g, p[i], p[i + 1]) && p[i] != p[i + 1]
    && f.Listed(p[i]) && f.Listed(p[i + 1]) && f.comp[p[i]] <= f.comp[p[i + 1]]
  }

  /** `d` is the last definition in the first block of `p`, and no later block defines `r`. */
  ghost predicate Clean(f: Function, r: nat, p: seq<nat>, d: nat)
    requires Placed(f) && Walkable(f, p)
  {
    && BlockDef(f.code[p[0]], r) == Some(d)
    && forall i :: 0 < i < |p| ==> BlockDef(f.code[p[i]], r) == None
  }

  /** Step `i` of the path goes back in the list that both its blocks are in. */
  ghost predicate Retreats(f: Function, p: seq<nat>, i: nat)
    requires Placed(f) && Walkable(f, p)
  {
    i + 1 < |p| && f.comp[p[i]] == f.comp[p[i + 1]] && f.pos[p[i]] > f.pos[p[i + 1]]
  }

  /** No list is gone back in more than once. */
  ghost predicate RetreatsOnce(f: Function, p: seq<nat>)
    requires Placed(f) && Walkable(f, p)
  {
    forall i: nat, j: nat :: i < j && Retreats(f, p, i) && Retreats(f, p, j) ==> f.comp[p[i]] != f.comp[p[j]]
  }

  /** The list of the last block is not gone back in. */
  ghost predicate LastStraight(f: Function, p: seq<nat>)
    requires Placed(f) && Walkable(f, p)
  {
    forall i: nat :: Retreats(f, p, i) ==> f.comp[p[i]] != f.comp[p[|p| - 1]]
  }

  /** A path allowed in sweep `k`: the first sweep does not go back in the last list. */
  ghost predicate Frugal(f: Function, p: seq<nat>, k: nat)
    requires Placed(f) && Walkable(f, p)
  {
    RetreatsOnce(f, p) && (k == 1 ==> LastStraight(f, p))
  }

  ghost predicate Plain(f: Function, r: nat, p: seq<nat>, d: nat, k: nat)
    requires Placed(f)
  {
    Walkable(f, p) && Clean(f, r, p, d) && Frugal(f, p, k)
  }

  /** Likewise up to the start of the last block, which may define `r` itself. */
  ghost predicate PlainEntry(f: Function, r: nat, p: seq<nat>, d: nat, k: nat)
    requires Placed(f)
  {
    && |p| >= 2 && Walkable(f, p) && BlockDef(f.code[p[0]], r) == Some(d)
    && (forall i :: 0 < i < |p| - 1 ==> BlockDef(f.code[p[i]], r) == None)
    && Frugal(f, p, k)
  }

  /** Lists only move forward along a path. */
  lemma {:induction false} ForwardLists(f: Function, p: seq<nat>, i: nat, j: nat)
    requires Placed(f) && Walkable(f, p) && i <= j < |p|
    ensures f.comp[p[i]] <= f.comp[p[j]]
    decreases j
  {
    if i < j {
      ForwardLists(f, p, i, j - 1);
      assert Step(f, p, j - 1);
    }
  }

  lemma PrefixRetreats(f: Function, p: seq<nat>, q: seq<nat>, i: nat)
    requires Placed(f) && Walkable(f, p) && |p| > 1 && q == p[..|p| - 1] && Walkable(f, q)
    ensures Retreats(f, p, i) <==> Retreats(f, q, i) || (i == |p| - 2 && Retreats(f, p, |p| - 2))
  {
  }

  /** One more block on the path. */
  lemma EntryStep(f: Function, r: nat, p: seq<nat>, d: nat, k: nat)
    requires Placed(f) && |p| > 1 && 1 <= k <= 2 && f.Listed(p[|p| - 1])
    ensures var u, v, q := p[|p| - 2], p[|p| - 1], p[..|p| - 1];
            PlainEntry(f, r, p, d, k) <==>
            && f.Listed(u) && Edge(f.g, u, v) && u != v
            && (|| (f.comp[u] < f.comp[v] && Plain(f, r, q, d, 2))
                || (f.comp[u] == f.comp[v] && f.pos[u] < f.pos[v] && Plain(f, r, q, d, k))
                || (f.comp[u] == f.comp[v] && f.pos[u] > f.pos[v] && k == 2 && Plain(f, r, q, d, 1)))
  {
    var u, v, q := p[|p| - 2], p[|p| - 1], p[..|p| - 1];
    assert p == q + [v];
    if Walkable(f, q) && f.Listed(u) && Edge(f.g, u, v) && u != v && f.comp[u] <= f.comp[v] {
      assert Walkable(f, p) by {
        forall i: nat | i + 1 < |p| ensures Step(f, p, i) {
          assert i + 1 < |q| ==> Step(f, q, i);
        }
      }
      StepRetreats(f, p, q, k);
    } else if Walkable(f, p) {
      WalkablePrefix(f, p);
      assert false;
    }
  }

  lemma WalkablePrefix(f: Function, p: seq<nat>)
    requires Walkable(f, p) && |p| > 1
    ensures Walkable(f, p[..|p| - 1]) && Step(f, p, |p| - 2)
  {
    var q := p[..|p| - 1];
    forall i: nat | i + 1 < |q| ensures Step(f, q, i) {
      assert Step(f, p, i);
    }
  }

  lemma StraightStep(f: Function, p: seq<nat>, q: seq<nat>)
    requires Placed(f) && Walkable(f, p) && |p| > 1 && q == p[..|p| - 1] && Walkable(f, q)
    requires !Retreats(f, p, |p| - 2)
    ensures RetreatsOnce(f, p) <==> RetreatsOnce(f, q)
    ensures f.comp[p[|p| - 2]] == f.comp[p[|p| - 1]] ==> (LastStraight(f, p) <==> LastStraight(f, q))
  {
    forall i: nat ensures Retreats(f, p, i) <==> Retreats(f, q, i) {
      PrefixRetreats(f, p, q, i);
    }
  }

  lemma CrossStep(f: Function, p: seq<nat>)
    requires Placed(f) && Walkable(f, p) && |p| > 1 && f.comp[p[|p| - 2]] < f.comp[p[|p| - 1]]
    ensures LastStraight(f, p)
  {
    forall i: nat | Retreats(f, p, i) ensures f.comp[p[i]] != f.comp[p[|p| - 1]] {
      ForwardLists(f, p, i, |p| - 2);
    }
  }

  lemma RetreatStep(f: Function, p: seq<nat>, q: seq<nat>)
    requires Placed(f) && Walkable(f, p) && |p| > 1 && q == p[..|p| - 1] && Walkable(f, q)
    requires Retreats(f, p, |p| - 2)
    ensures RetreatsOnce(f, p) <==> RetreatsOnce(f, q) && LastStraight(f, q)
    ensures !LastStraight(f, p)
  {
    forall i: nat ensures Retreats(f, p, i) <==> Retreats(f, q, i) || i == |p| - 2 {
      PrefixRetreats(f, p, q, i);
    }
  }

  lemma StepRetreats(f: Function, p: seq<nat>, q: seq<nat>, k: nat)
    requires Placed(f) && Walkable(f, p) && |p| > 1 && q == p[..|p| - 1] && Walkable(f, q) && 1 <= k <= 2
    ensures var u, v := p[|p| - 2], p[|p| - 1];
            Frugal(f, p, k) <==>
            || (f.comp[u] < f.comp[v] && Frugal(f, q, 2))
            || (f.comp[u] == f.comp[v] && f.pos[u] < f.pos[v] && Frugal(f, q, k))
            || (f.comp[u] == f.comp[v] && f.pos[u] > f.pos[v] && k == 2 && Frugal(f, q, 1))
  {
    var n := |p| - 2;
    assert Step(f, p, n);
    if Retreats(f, p, n) {
      RetreatStep(f, p, q);
    } else {
      StraightStep(f, p, q);
      if f.comp[p[n]] < f.comp[p[n + 1]] {
        CrossStep(f, p);
      }
    }
  }

  /** The sweeps carry a definition exactly along the paths that go back at most once in each list. */
  lemma {:induction false} CarriesIsPlain(f: Function, r: nat, p: seq<nat>, d: nat, k: nat)
    requires Placed(f) && p != [] && f.Listed(p[|p| - 1]) && 1 <= k <= 2
    ensures Carries(f, r, p, d, k) <==> Plain(f, r, p, d, k)
    decreases |p|, 1
  {
    if |p| > 1 {
      ArrivesIsPlain(f, r, p, d, k);
      assert Plain(f, r, p, d, k) <==> PlainEntry(f, r, p, d, k) && BlockDef(f.code[p[|p| - 1]], r) == None;
    } else {
      assert p == [p[0]];
    }
  }

  lemma {:induction false} ArrivesIsPlain(f: Function, r: nat, p: seq<nat>, d: nat, k: nat)
    requires Placed(f) && p != [] && f.Listed(p[|p| - 1]) && 1 <= k <= 2
    ensures Arrives(f, r, p, d, k) <==> PlainEntry(f, r, p, d, k)
    decreases |p|, 0
  {
    if |p| > 1 {
      var u, q := p[|p| - 2], p[..|p| - 1];
      EntryStep(f, r, p, d, k);
      if f.Listed(u) {
        CarriesIsPlain(f, r, q, d, 1);
        CarriesIsPlain(f, r, q, d, 2);
        assert !Carries(f, r, q, d, 0);
      }
    }
  }
}
