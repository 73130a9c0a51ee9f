/** Why the sweeps of src/analysis/usedef.cpp find exactly the definitions of module Flow. */
module Sweeps {
  import opened Graphs
  import opened Flow
  import opened RefLists

  /** How many sweeps have covered a block when those over the first `c` lists are done and sweep
      `k` over list `c` has covered its first `i` blocks. A finished list counts as swept twice. */
  ghost function Level(f: Function, c: nat, k: nat, i: nat, v: nat): nat
    requires v < |f.comp| && v < |f.pos| && k >= 1
  {
    if f.comp[v] >= |f.order| || f.comp[v] > c then 0
    else if f.comp[v] < c then 2
    else if f.pos[v] < i then k else k - 1
  }

  ghost function Levels(f: Function, c: nat, k: nat, i: nat): (lv: seq<nat>)
    requires |f.comp| == |f.g| && |f.pos| == |f.g| && k >= 1
    ensures |lv| == |f.g| && forall v: nat :: v < |f.g| ==> lv[v] == Level(f, c, k, i, v)
  {
    seq(|f.g|, v requires 0 <= v < |f.g| => Level(f, c, k, i, v))
  }

  /** Every block exposes what its sweeps so far carry to its end. */
  ghost predicate Exposes(f: Function, exposed: seq<RefMap>, lv: seq<nat>)
    requires Placed(f) && |exposed| == |f.g| && |lv| == |f.g|
  {
    forall v: nat :: v < |f.g| ==> ExposesBlock(f, exposed[v], v, lv[v])
  }

  ghost predicate ExposesBlock(f: Function, m: RefMap, v: nat, k: nat)
    requires Placed(f)
  {
    forall r: nat, d: nat :: Has(m, r, d) <==> CarriedTo(f, r, v, d, k)
  }

  /** `d` is in force at action `i` of block `v`, after sweep `k`. */
  ghost predicate FlowsTo(f: Function, r: nat, v: nat, i: nat, d: nat, k: nat)
    requires Placed(f) && v < |f.g| && i < |f.code[v]|
  {
    match LastDef(f.code[v], i, r)
    case Some(own) => d == own
    case None => ArrivesAt(f, r, v, d, k)
  }

  ghost predicate UsesFrom(f: Function, s: nat, r: nat, d: nat, v: nat, i: nat, k: nat)
    requires Placed(f)
  {
    k >= 1 && v < |f.g| && i < |f.code[v]| && f.code[v][i] == Use(s, r) && FlowsTo(f, r, v, i, d, k)
  }

  ghost predicate Recorded(f: Function, lv: seq<nat>, s: nat, r: nat, d: nat)
    requires Placed(f) && |lv| == |f.g|
  {
    exists v: nat, i: nat :: v < |f.g| && UsesFrom(f, s, r, d, v, i, lv[v])
  }

  /** The refs of every state are what flows to its uses in the sweeps so far. */
  ghost predicate Refers(f: Function, refs: seq<RefMap>, lv: seq<nat>)
    requires Placed(f) && |lv| == |f.g|
  {
    forall s: nat, r: nat, d: nat :: s < |refs| ==> (Has(refs[s], r, d) <==> Recorded(f, lv, s, r, d))
  }

  /** Some predecessor other than the block itself exposes `d`. */
  ghost predicate Incoming(bwd: Graph, exposed: seq<RefMap>, v: nat, r: nat, d: nat) {
    exists u :: Brings(bwd, exposed, u, v, r, d)
  }

  ghost predicate Brings(bwd: Graph, exposed: seq<RefMap>, u: nat, v: nat, r: nat, d: nat) {
    Edge(bwd, v, u) && u != v && u < |exposed| && Has(exposed[u], r, d)
  }

  // ---- One visit ----

  /** The sweep that a predecessor's exposed set comes from is the one that `Arrives` asks for. */
  lemma IncomingArrives(f: Function, bwd: Graph, exposed: seq<RefMap>, c: nat, k: nat, i: nat, r: nat, d: nat)
    requires Placed(f) && Mirrored(f.g, bwd) && |exposed| == |f.g| && 1 <= k <= 2
    requires c < |f.order| && i < |f.order[c]| && Exposes(f, exposed, Levels(f, c, k, i))
    ensures Incoming(bwd, exposed, f.order[c][i], r, d) <==> ArrivesAt(f, r, f.order[c][i], d, k)
  {
    var v, lv := f.order[c][i], Levels(f, c, k, i);
    if Incoming(bwd, exposed, v, r, d) {
      var u: nat :| Brings(bwd, exposed, u, v, r, d);
      assert Edge(f.g, u, v) && ExposesBlock(f, exposed[u], u, lv[u]);
      var q := CarryingPath(f, r, u, d, lv[u]);
      BringsArrives(f, c, k, i, r, d, q);
    }
    if ArrivesAt(f, r, v, d, k) {
      var p := ArrivingPath(f, r, v, d, k);
      var u := p[|p| - 2];
      ArrivesBrings(f, c, k, i, r, d, p);
      assert ExposesBlock(f, exposed[u], u, lv[u]);
      assert Brings(bwd, exposed, u, v, r, d);
    }
  }

  lemma CarryingPath(f: Function, r: nat, v: nat, d: nat, k: nat) returns (p: seq<nat>)
    requires Placed(f) && CarriedTo(f, r, v, d, k)
    ensures Carries(f, r, p, d, k) && p[|p| - 1] == v
  {
    p :| Carries(f, r, p, d, k) && p[|p| - 1] == v;
  }

  lemma ArrivingPath(f: Function, r: nat, v: nat, d: nat, k: nat) returns (p: seq<nat>)
    requires Placed(f) && ArrivesAt(f, r, v, d, k)
    ensures Arrives(f, r, p, d, k) && p[|p| - 1] == v
  {
    p :| Arrives(f, r, p, d, k) && p[|p| - 1] == v;
  }

  lemma BringsArrives(f: Function, c: nat, k: nat, i: nat, r: nat, d: nat, q: seq<nat>)
    requires Placed(f) && 1 <= k <= 2 && c < |f.order| && i < |f.order[c]|
    requires q != [] && q[|q| - 1] < |f.g| && Carries(f, r, q, d, Level(f, c, k, i, q[|q| - 1]))
    requires Edge(f.g, q[|q| - 1], f.order[c][i]) && q[|q| - 1] != f.order[c][i]
    ensures ArrivesAt(f, r, f.order[c][i], d, k)
  {
    var u, v := q[|q| - 1], f.order[c][i];
    var p := q + [v];
    assert p[..|p| - 1] == q && p[|p| - 2] == u && p[|p| - 1] == v;
    assert IsAt(f, v, c, i) && f.Listed(u) && IsAt(f, u, f.comp[u], f.pos[u]);
    assert Arrives(f, r, p, d, k);
  }

  lemma ArrivesBrings(f: Function, c: nat, k: nat, i: nat, r: nat, d: nat, p: seq<nat>)
    requires Placed(f) && 1 <= k <= 2 && c < |f.order| && i < |f.order[c]|
    requires Arrives(f, r, p, d, k) && p[|p| - 1] == f.order[c][i]
    ensures var u := p[|p| - 2];
            && u < |f.g| && Edge(f.g, u, f.order[c][i]) && u != f.order[c][i]
            && CarriedTo(f, r, u, d, Level(f, c, k, i, u))
  {
    var u, v, q := p[|p| - 2], f.order[c][i], p[..|p| - 1];
    assert IsAt(f, v, c, i) && IsAt(f, u, f.comp[u], f.pos[u]);
    assert Carries(f, r, q, d, Level(f, c, k, i, u)) && q[|q| - 1] == u;
  }

  /** What is in force after the first `n` actions of a block that `m` enters. */
  ghost predicate InForce(code: seq<Action>, n: nat, m: RefMap, r: nat, d: nat)
    requires n <= |code|
  {
    match LastDef(code, n, r)
    case Some(own) => d == own
    case None => Has(m, r, d)
  }

  /** The levels after block `f.order[c][i]` has been visited. */
  lemma NextLevels(f: Function, c: nat, k: nat, i: nat)
    requires Placed(f) && k >= 1 && c < |f.order| && i < |f.order[c]|
    ensures f.order[c][i] < |f.g| && Levels(f, c, k, i)[f.order[c][i]] == k - 1
    ensures Levels(f, c, k, i + 1) == Levels(f, c, k, i)[f.order[c][i] := k]
  {
    var v := f.order[c][i];
    assert IsAt(f, v, c, i);
    var lv, lv' := Levels(f, c, k, i), Levels(f, c, k, i + 1);
    forall u | 0 <= u < |f.g| ensures lv'[u] == lv[v := k][u] {
      if u != v && f.Listed(u) {
        assert IsAt(f, u, f.comp[u], f.pos[u]);
      }
    }
  }

  /** The set of block `v` and the refs after a visit of `v`. */
  ghost predicate Visited(bwd: Graph, code: seq<Action>, v: nat, before: seq<RefMap>, after: seq<RefMap>) {
    && |after| == |before| && v < |after|
    && (forall u :: 0 <= u < |after| && u != v ==> after[u] == before[u])
    && forall r: nat, d: nat :: Has(after[v], r, d) <==>
         match BlockDef(code, r)
         case Some(own) => d == own
         case None => Incoming(bwd, before, v, r, d)
  }

  lemma VisitExposes(f: Function, bwd: Graph, before: seq<RefMap>, after: seq<RefMap>, c: nat, k: nat, i: nat)
    requires Placed(f) && Mirrored(f.g, bwd) && |before| == |f.g| && 1 <= k <= 2
    requires c < |f.order| && i < |f.order[c]| && Exposes(f, before, Levels(f, c, k, i))
    requires f.order[c][i] < |f.g| && Visited(bwd, f.code[f.order[c][i]], f.order[c][i], before, after)
    ensures Exposes(f, after, Levels(f, c, k, i + 1))
  {
    var v, lv, lv' := f.order[c][i], Levels(f, c, k, i), Levels(f, c, k, i + 1);
    NextLevels(f, c, k, i);
    forall u: nat | u < |f.g| ensures ExposesBlock(f, after[u], u, lv'[u]) {
      if u != v {
        assert ExposesBlock(f, before[u], u, lv[u]);
      } else {
        forall r: nat, d: nat ensures Has(after[u], r, d) <==> CarriedTo(f, r, u, d, lv'[u]) {
          IncomingArrives(f, bwd, before, c, k, i, r, d);
          CarriedFromEntry(f, r, v, d, k);
        }
      }
    }
  }

  /** A use of `r` by `s` in block `v` sees `d` on a visit that starts with these exposed sets. */
  ghost predicate UsedAt(bwd: Graph, code: seq<Action>, v: nat, before: seq<RefMap>, s: nat, r: nat, d: nat, j: nat) {
    && j < |code| && code[j] == Use(s, r)
    && match LastDef(code, j, r)
       case Some(own) => d == own
       case None => Incoming(bwd, before, v, r, d)
  }

  ghost predicate UsedIn(bwd: Graph, code: seq<Action>, v: nat, before: seq<RefMap>, s: nat, r: nat, d: nat) {
    exists j: nat :: UsedAt(bwd, code, v, before, s, r, d, j)
  }

  ghost predicate RefsGrown(bwd: Graph, code: seq<Action>, v: nat, before: seq<RefMap>, refs: seq<RefMap>,
                            refs': seq<RefMap>)
  {
    && |refs'| == |refs|
    && forall s: nat, r: nat, d: nat :: s < |refs| ==>
         (Has(refs'[s], r, d) <==> Has(refs[s], r, d) || UsedIn(bwd, code, v, before, s, r, d))
  }

  lemma UsedAtIsUsesFrom(f: Function, bwd: Graph, before: seq<RefMap>, c: nat, k: nat, i: nat, s: nat, r: nat, d: nat,
                         j: nat)
    requires Placed(f) && Mirrored(f.g, bwd) && |before| == |f.g| && 1 <= k <= 2
    requires c < |f.order| && i < |f.order[c]| && Exposes(f, before, Levels(f, c, k, i)) && f.order[c][i] < |f.g|
    ensures UsedAt(bwd, f.code[f.order[c][i]], f.order[c][i], before, s, r, d, j) <==>
              UsesFrom(f, s, r, d, f.order[c][i], j, k)
  {
    IncomingArrives(f, bwd, before, c, k, i, r, d);
  }

  lemma FlowsMore(f: Function, s: nat, r: nat, d: nat, v: nat, j: nat)
    requires Placed(f) && UsesFrom(f, s, r, d, v, j, 1)
    ensures UsesFrom(f, s, r, d, v, j, 2)
  {
    if LastDef(f.code[v], j, r).None? {
      var p := ArrivingPath(f, r, v, d, 1);
      ArrivesMore(f, r, p, d);
    }
  }

  /** The block visited now adds its uses to those recorded. */
  lemma RecordedAfterVisit(f: Function, lv: seq<nat>, v: nat, k: nat, s: nat, r: nat, d: nat)
    requires Placed(f) && |lv| == |f.g| && v < |f.g| && 1 <= k <= 2 && lv[v] == k - 1
    ensures Recorded(f, lv[v := k], s, r, d) <==> Recorded(f, lv, s, r, d) || UsedInBlock(f, s, r, d, v, k)
  {
    var lv' := lv[v := k];
    if Recorded(f, lv', s, r, d) {
      var w: nat, j: nat :| w < |f.g| && UsesFrom(f, s, r, d, w, j, lv'[w]);
      assert w != v ==> UsesFrom(f, s, r, d, w, j, lv[w]);
    }
    if Recorded(f, lv, s, r, d) {
      RecordedStays(f, lv, v, k, s, r, d);
    }
    if UsedInBlock(f, s, r, d, v, k) {
      var j: nat :| UsesFrom(f, s, r, d, v, j, k);
      assert UsesFrom(f, s, r, d, v, j, lv'[v]);
    }
  }

  ghost predicate UsedInBlock(f: Function, s: nat, r: nat, d: nat, v: nat, k: nat)
    requires Placed(f)
  {
    exists j: nat :: UsesFrom(f, s, r, d, v, j, k)
  }

  lemma RecordedStays(f: Function, lv: seq<nat>, v: nat, k: nat, s: nat, r: nat, d: nat)
    requires Placed(f) && |lv| == |f.g| && v < |f.g| && 1 <= k <= 2 && lv[v] == k - 1 && Recorded(f, lv, s, r, d)
    ensures Recorded(f, lv[v := k], s, r, d)
  {
    var w: nat, j: nat :| w < |f.g| && UsesFrom(f, s, r, d, w, j, lv[w]);
    if w == v {
      FlowsMore(f, s, r, d, v, j);
    }
    assert UsesFrom(f, s, r, d, w, j, lv[v := k][w]);
  }

  lemma VisitRefers(f: Function, bwd: Graph, before: seq<RefMap>, refs: seq<RefMap>, refs': seq<RefMap>, c: nat,
                    k: nat, i: nat)
    requires Placed(f) && Mirrored(f.g, bwd) && |before| == |f.g| && 1 <= k <= 2
    requires c < |f.order| && i < |f.order[c]| && Exposes(f, before, Levels(f, c, k, i))
    requires Refers(f, refs, Levels(f, c, k, i)) && f.order[c][i] < |f.g|
    requires RefsGrown(bwd, f.code[f.order[c][i]], f.order[c][i], before, refs, refs')
    ensures Refers(f, refs', Levels(f, c, k, i + 1))
  {
    var v, lv := f.order[c][i], Levels(f, c, k, i);
    NextLevels(f, c, k, i);
    forall s: nat, r: nat, d: nat | s < |refs'| ensures Has(refs'[s], r, d) <==> Recorded(f, lv[v := k], s, r, d) {
      RecordedAfterVisit(f, lv, v, k, s, r, d);
      forall j: nat ensures UsedAt(bwd, f.code[v], v, before, s, r, d, j) <==> UsesFrom(f, s, r, d, v, j, k) {
        UsedAtIsUsesFrom(f, bwd, before, c, k, i, s, r, d, j);
      }
    }
  }

  // ---- From sweep to sweep and list to list ----

  /** Nothing has been visited. */
  lemma StartLevels(f: Function, exposed: seq<RefMap>, refs: seq<RefMap>)
    requires Placed(f) && |exposed| == |f.g|
    requires forall v :: 0 <= v < |exposed| ==> exposed[v] == map[]
    requires forall s :: 0 <= s < |refs| ==> refs[s] == map[]
    ensures Exposes(f, exposed, Levels(f, 0, 1, 0)) && Refers(f, refs, Levels(f, 0, 1, 0))
  {
    assert forall v: nat :: v < |f.g| ==> Levels(f, 0, 1, 0)[v] == 0;
  }

  /** The end of the first sweep is the start of the second. */
  lemma SecondSweep(f: Function, c: nat)
    requires Placed(f) && c < |f.order|
    ensures Levels(f, c, 1, |f.order[c]|) == Levels(f, c, 2, 0)
  {
    forall v: nat | v < |f.g| ensures Level(f, c, 1, |f.order[c]|, v) == Level(f, c, 2, 0, v) {
      assert f.Listed(v) ==> IsAt(f, v, f.comp[v], f.pos[v]);
    }
  }

  lemma NextList(f: Function, c: nat)
    requires Placed(f) && c < |f.order|
    ensures Levels(f, c, 2, |f.order[c]|) == Levels(f, c + 1, 1, 0)
  {
    forall v: nat | v < |f.g| ensures Level(f, c, 2, |f.order[c]|, v) == Level(f, c + 1, 1, 0, v) {
      assert f.Listed(v) ==> IsAt(f, v, f.comp[v], f.pos[v]);
    }
  }

  /** One sweep over a list of one block does for two. */
  lemma AloneNextList(f: Function, exposed: seq<RefMap>, refs: seq<RefMap>, c: nat)
    requires Placed(f) && c < |f.order| && |f.order[c]| == 1 && |exposed| == |f.g|
    requires Exposes(f, exposed, Levels(f, c, 1, 1)) && Refers(f, refs, Levels(f, c, 1, 1))
    ensures Exposes(f, exposed, Levels(f, c + 1, 1, 0)) && Refers(f, refs, Levels(f, c + 1, 1, 0))
  {
    var v, lv, lv' := f.order[c][0], Levels(f, c, 1, 1), Levels(f, c + 1, 1, 0);
    assert IsAt(f, v, c, 0);
    AloneLevels(f, c);
    forall u: nat | u < |f.g| ensures ExposesBlock(f, exposed[u], u, lv'[u]) {
      assert ExposesBlock(f, exposed[u], u, lv[u]);
      if u == v {
        forall r: nat, d: nat ensures CarriedTo(f, r, v, d, 1) <==> CarriedTo(f, r, v, d, 2) {
          AloneCarried(f, r, v, d);
        }
      }
    }
    forall s: nat, r: nat, d: nat | s < |refs| ensures Has(refs[s], r, d) <==> Recorded(f, lv', s, r, d) {
      AloneRecorded(f, lv, v, s, r, d);
    }
  }

  lemma EmptyNextList(f: Function, c: nat)
    requires Placed(f) && c < |f.order| && f.order[c] == []
    ensures Levels(f, c, 1, 0) == Levels(f, c + 1, 1, 0)
  {
    forall v: nat | v < |f.g| ensures Level(f, c, 1, 0, v) == Level(f, c + 1, 1, 0, v) {
      assert f.Listed(v) ==> IsAt(f, v, f.comp[v], f.pos[v]);
    }
  }

  lemma AloneLevels(f: Function, c: nat)
    requires Placed(f) && c < |f.order| && |f.order[c]| == 1
    ensures f.order[c][0] < |f.g| && Levels(f, c, 1, 1)[f.order[c][0]] == 1
    ensures Levels(f, c + 1, 1, 0) == Levels(f, c, 1, 1)[f.order[c][0] := 2]
  {
    var v := f.order[c][0];
    assert IsAt(f, v, c, 0);
    var lv, lv' := Levels(f, c, 1, 1), Levels(f, c + 1, 1, 0);
    forall u | 0 <= u < |f.g| ensures lv'[u] == lv[v := 2][u] {
      assert f.Listed(u) ==> IsAt(f, u, f.comp[u], f.pos[u]);
    }
  }

  lemma AloneCarried(f: Function, r: nat, v: nat, d: nat)
    requires Placed(f) && f.Listed(v) && |f.order[f.comp[v]]| == 1
    ensures CarriedTo(f, r, v, d, 1) <==> CarriedTo(f, r, v, d, 2)
    ensures ArrivesAt(f, r, v, d, 1) <==> ArrivesAt(f, r, v, d, 2)
  {
    forall p | p != [] && p[|p| - 1] == v
      ensures Arrives(f, r, p, d, 1) <==> Arrives(f, r, p, d, 2)
      ensures Carries(f, r, p, d, 1) <==> Carries(f, r, p, d, 2)
    {
      AloneSameSweep(f, r, p, d);
    }
  }

  lemma AloneRecorded(f: Function, lv: seq<nat>, v: nat, s: nat, r: nat, d: nat)
    requires Placed(f) && f.Listed(v) && |f.order[f.comp[v]]| == 1 && |lv| == |f.g| && v < |f.g| && lv[v] == 1
    ensures Recorded(f, lv, s, r, d) <==> Recorded(f, lv[v := 2], s, r, d)
  {
    AloneCarried(f, r, v, d);
    var lv' := lv[v := 2];
    forall w: nat, j: nat | w < |f.g|
      ensures UsesFrom(f, s, r, d, w, j, lv[w]) <==> UsesFrom(f, s, r, d, w, j, lv'[w])
    {
    }
  }
}
