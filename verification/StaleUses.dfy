/** A function whose analysis makes `cancelUseDefReg` leave a use without its ref. Block 0 defines a
    register; block 1 uses it and defines it again; block 2 goes back to block 1. */
module StaleUses {
  import opened Options
  import opened Flow
  import opened RefLists
  import opened Sweeps
  import opened UseDef
  import opened Scc
  import opened WalkedLoops

  function Loop(r: nat): Function {
    Function(LEAD_IN, LoopCode(r), [[0], [1, 2]], [0, 1, 1], [0, 0, 1])
  }

  function LoopCode(r: nat): seq<seq<Action>> {
    [[Def(0, r)], [Use(1, r), Def(1, r)], []]
  }

  lemma LoopDefs(r: nat)
    ensures BlockDef(LoopCode(r)[0], r) == Some(0) && BlockDef(LoopCode(r)[1], r) == Some(1)
    ensures BlockDef(LoopCode(r)[2], r) == None && LastDef(LoopCode(r)[1], 0, r) == None
  {
  }

  lemma LoopIsPlaced(r: nat)
    ensures Placed(Loop(r)) && OnlyIn(Loop(r), 1, 1)
  {
    var f := Loop(r);
    assert IsAt(f, 0, 0, 0) && IsAt(f, 1, 1, 0) && IsAt(f, 2, 1, 1);
  }

  /** In the first sweep only the definition in block 0 comes in. */
  lemma FirstArrival(r: nat, d: nat)
    requires Placed(Loop(r))
    ensures ArrivesAt(Loop(r), r, 1, d, 1) <==> d == 0
  {
    var f := Loop(r);
    LoopDefs(r);
    assert Carries(f, r, [0], 0, 2);
    assert [0, 1][..1] == [0];
    assert Arrives(f, r, [0, 1], 0, 1);
    if p :| Arrives(f, r, p, d, 1) && p[|p| - 1] == 1 {
      var u, q := p[|p| - 2], p[..|p| - 1];
      assert q[|q| - 1] == u && (u == 0 || u == 2);
      assert !Carries(f, r, q, d, 0);
      assert Carries(f, r, q, d, 2);
    }
  }

  /** In the second, that of block 1 as well. */
  lemma SecondArrival(r: nat)
    requires Placed(Loop(r))
    ensures ArrivesAt(Loop(r), r, 1, 1, 2)
  {
    var f := Loop(r);
    LoopDefs(r);
    assert Carries(f, r, [1], 1, 1);
    assert [1, 2][..1] == [1];
    assert Arrives(f, r, [1, 2], 1, 1);
    assert Carries(f, r, [1, 2], 1, 1);
    assert [1, 2, 1][..2] == [1, 2];
    assert Arrives(f, r, [1, 2, 1], 1, 2);
  }

  lemma UsesArrive(r: nat, d: nat, k: nat)
    requires Placed(Loop(r)) && k >= 1
    ensures UsedInBlock(Loop(r), 1, r, d, 1, k) <==> ArrivesAt(Loop(r), r, 1, d, k)
  {
    LoopDefs(r);
    if ArrivesAt(Loop(r), r, 1, d, k) {
      assert UsesFrom(Loop(r), 1, r, d, 1, 0, k);
    }
  }

  /** What the analysis records for the use in block 1: the definition in block 0 first, and that
      in block 1 itself. */
  lemma OwnDefinitionLast(r: nat, refs: seq<RefMap>)
    requires |refs| == 2 && Placed(Loop(r)) && OnlyIn(Loop(r), 1, 1)
    requires FirstSweepFirst(Loop(r), refs, 2) && Refers(Loop(r), refs, Levels(Loop(r), 2, 1, 0))
    ensures Has(refs[1], r, 1) && refs[1][r][0] == 0
  {
    var f, list := Loop(r), Get(refs[1], r);
    assert f.Listed(1);
    assert StartsWithFirst(f, list, 1, r, 1);
    var n: nat :| n <= |list| && AreFirst(f, list[..n], 1, r, 1);
    FirstArrival(r, 0);
    UsesArrive(r, 0, 1);
    assert 0 in list[..n];
    FirstArrival(r, list[0]);
    UsesArrive(r, list[0], 1);
    assert list[0] in list[..n];
    SecondArrival(r);
    UsesArrive(r, 1, 2);
    var lv := Levels(f, 2, 1, 0);
    var j: nat :| UsesFrom(f, 1, r, 1, 1, j, 2);
    assert lv[1] == 2 && Recorded(f, lv, 1, r, 1);
  }

  method OrderLoop() returns (order: seq<seq<nat>>)
    ensures order == [[0], [1, 2]]
  {
    order := SccOrderFull(LEAD_IN, 0);
    LeadInOrder(order);
  }

  method AnalyzeLoop(r: nat) returns (analysis: UseDef)
    ensures fresh(analysis) && analysis.Valid() && |analysis.refs| == 2
    ensures Has(analysis.refs[1], r, 1) && analysis.refs[1][r][0] == 0
  {
    LoopIsPlaced(r);
    analysis := new UseDef([[], [0, 2], [1]], LoopCode(r), 2);
    var order := OrderLoop();
    analysis.Analyze(order, Loop(r));
    OwnDefinitionLast(r, analysis.refs);
  }

  lemma UsedByItself(r: nat, refs: seq<RefMap>, uses: seq<RefMap>)
    requires Linked(refs, uses) && |refs| == 2 && Has(refs[1], r, 1) && refs[1][r][0] == 0
    ensures 1 in Get(uses[1], r) && 0 in Get(refs[1], r) && 0 in UpTo(Get(refs[1], r), 1)
  {
    assert Has(uses[1], r, 1);
    assert UpTo(Get(refs[1], r), 1)[0] == 0;
  }

  /** After the analysis, cancelling the definition in block 1 leaves it among the uses of the
      definition in block 0, to which it no longer refers. */
  method CancelLeavesUse(r: nat) returns (refs: seq<RefMap>, uses: seq<RefMap>)
    ensures |refs| == |uses| == 2 && Has(uses[0], r, 1) && !Has(refs[1], r, 0) && !Linked(refs, uses)
  {
    var analysis := AnalyzeLoop(r);
    UsedByItself(r, analysis.refs, analysis.uses);
    analysis.CancelUseDefReg(1, r);
    refs, uses := analysis.refs, analysis.uses;
  }
}
