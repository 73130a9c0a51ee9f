/** A function for which `valueReaches` misses a bound. Block 0 calls another function, compares its
    result and branches; block 1 copies the result to a register that the call clobbers; block 2
    jumps through that register; block 3 shifts it. The call is met with the register of its result,
    and then not followed with the other. */
module HiddenBound {
  import opened Graphs
  import opened Options
  import opened Flow
  import opened RefLists
  import opened SlicingTree
  import opened ValueFlow
  import opened UseDef
  import Footprints
  import Analysis = Chains

  const RAX := 0
  const RCX := 1
  const FLAGS := Footprints.FLAGS

  const CMP := 0
  const CALL := 1
  const MOV := 2
  const SHL := 3
  const JMP := 4
  const JA := 5

  const BLOCKS: Graph := [[1, 2], [3], [3], []]
  const BACKWARD: Graph := [[], [0], [0], [1, 2]]

  function Code(): seq<seq<Action>> {
    [[Use(CALL, 0), Def(CALL, 0), Use(CALL, 1), Def(CALL, 1), Use(CALL, 2), Def(CALL, 2), Use(CALL, 6), Def(CALL, 6),
      Use(CALL, 7), Def(CALL, 7), Use(CALL, 8), Def(CALL, 8), Use(CALL, 9), Def(CALL, 9), Use(CALL, 10), Def(CALL, 10),
      Use(CALL, 11), Def(CALL, 11), Use(CMP, RAX), Def(CMP, FLAGS), Use(JA, FLAGS)],
     [Use(MOV, RAX), Def(MOV, RCX)],
     [Use(JMP, RCX)],
     [Use(SHL, RCX), Def(SHL, RCX)]]
  }

  /** What the instructions define: the call does not say what, the others do. */
  function Definitions(n: int, k: int): seq<seq<Definition>> {
    [[Definition(FLAGS, Some(Comparison(Physical(RAX, 8), Constant(n))))],
     [Definition(0, None), Definition(1, None), Definition(2, None), Definition(6, None), Definition(7, None),
      Definition(8, None), Definition(9, None), Definition(10, None), Definition(11, None)],
     [Definition(RCX, Some(Physical(RAX, 8)))],
     [Definition(RCX, Some(Binary("<<", Physical(RCX, 8), Constant(k))))],
     [],
     []]
  }

  // ---- The definitions that reach ----

  lemma {:induction false} LastDefAt(code: seq<Action>, k: nat, n: nat, r: nat)
    requires k < n <= |code| && code[k].Def? && code[k].reg == r
    requires forall j :: k < j < n ==> code[j].Use? || code[j].reg != r
    ensures LastDef(code, n, r) == Some(code[k].state)
    decreases n
  {
    if k < n - 1 {
      LastDefAt(code, k, n - 1, r);
    }
  }

  lemma {:induction false} NoDef(code: seq<Action>, n: nat, r: nat)
    requires n <= |code| && forall j :: 0 <= j < n ==> code[j].Use? || code[j].reg != r
    ensures LastDef(code, n, r) == None
    decreases n
  {
    if n > 0 {
      NoDef(code, n - 1, r);
    }
  }

  lemma {:induction false} LastDefIsDef(code: seq<Action>, n: nat, r: nat, d: nat) returns (k: nat)
    requires n <= |code| && LastDef(code, n, r) == Some(d)
    ensures k < n && code[k] == Def(d, r)
    decreases n
  {
    if code[n - 1].Def? && code[n - 1].reg == r {
      k := n - 1;
    } else {
      k := LastDefIsDef(code, n - 1, r, d);
    }
  }

  lemma CallDefines()
    ensures BlockDef(Code()[0], RAX) == Some(CALL) && BlockDef(Code()[0], RCX) == Some(CALL)
    ensures LastDef(Code()[0], 18, RAX) == Some(CALL)
  {
    var code := Code()[0];
    LastDefAt(code, 1, |code|, RAX);
    LastDefAt(code, 1, 18, RAX);
    LastDefAt(code, 3, |code|, RCX);
  }

  lemma OthersDefine()
    ensures BlockDef(Code()[1], RCX) == Some(MOV) && BlockDef(Code()[2], RCX) == None
    ensures forall v: nat :: 1 <= v < 4 ==> LastDef(Code()[v], 0, RAX) == None && LastDef(Code()[v], 0, RCX) == None
  {
    LastDefAt(Code()[1], 1, 2, RCX);
    NoDef(Code()[2], 1, RCX);
  }

  /** What the search needs to know of the reaching definitions. */
  lemma ReachingHere()
    ensures Analysis.Reaching(BLOCKS, Code(), CMP, RAX, CALL) && Analysis.Reaching(BLOCKS, Code(), MOV, RAX, CALL)
    ensures Analysis.Reaching(BLOCKS, Code(), SHL, RCX, MOV) && Analysis.Reaching(BLOCKS, Code(), SHL, RCX, CALL)
    ensures Analysis.Reaching(BLOCKS, Code(), JMP, RCX, CALL)
  {
    CallDefines();
    OthersDefine();
    assert Analysis.ReachingAt(BLOCKS, Code(), CMP, RAX, CALL, 0, 18);
    assert Analysis.Undisturbed(BLOCKS, Code(), RAX, CALL, [0, 1], 1);
    assert Analysis.ReachingAt(BLOCKS, Code(), MOV, RAX, CALL, 1, 0);
    assert Analysis.Undisturbed(BLOCKS, Code(), RCX, MOV, [1, 3], 3);
    assert Analysis.ReachingAt(BLOCKS, Code(), SHL, RCX, MOV, 3, 0);
    assert Analysis.Undisturbed(BLOCKS, Code(), RCX, CALL, [0, 2, 3], 3);
    assert Analysis.ReachingAt(BLOCKS, Code(), SHL, RCX, CALL, 3, 0);
    assert Analysis.Undisturbed(BLOCKS, Code(), RCX, CALL, [0, 2], 2);
    assert Analysis.ReachingAt(BLOCKS, Code(), JMP, RCX, CALL, 2, 0);
  }

  lemma OnlyCallReachesCmp(d: nat)
    requires Analysis.Reaching(BLOCKS, Code(), CMP, RAX, d)
    ensures d == CALL
  {
    CallDefines();
    var v: nat, i: nat :| Analysis.ReachingAt(BLOCKS, Code(), CMP, RAX, d, v, i);
    assert v == 0 && i == 18;
  }

  lemma NoSuchDef(v: nat, k: nat)
    requires v < 4 && k < |Code()[v]|
    ensures Code()[v][k] != Def(CMP, RAX)
  {
  }

  lemma NeverDefined(v: nat, n: nat)
    requires v < 4 && n <= |Code()[v]|
    ensures LastDef(Code()[v], n, RAX) != Some(CMP)
  {
    if LastDef(Code()[v], n, RAX) == Some(CMP) {
      var k := LastDefIsDef(Code()[v], n, RAX, CMP);
      NoSuchDef(v, k);
    }
  }

  lemma CmpDefinesNoRax(s: nat)
    ensures !Analysis.Reaching(BLOCKS, Code(), s, RAX, CMP)
  {
    if Analysis.Reaching(BLOCKS, Code(), s, RAX, CMP) {
      var v: nat, i: nat :| Analysis.ReachingAt(BLOCKS, Code(), s, RAX, CMP, v, i);
      NeverDefined(v, i);
      var p :| Analysis.Undisturbed(BLOCKS, Code(), RAX, CMP, p, v);
      NeverDefined(p[0], |Code()[p[0]]|);
    }
  }

  lemma OnlyCallReachesJmp(r: nat, d: nat)
    requires Analysis.Reaching(BLOCKS, Code(), JMP, r, d)
    ensures r == RCX && d == CALL
  {
    CallDefines();
    var v: nat, i: nat :| Analysis.ReachingAt(BLOCKS, Code(), JMP, r, d, v, i);
    assert v == 2 && i == 0 && r == RCX;
    assert LastDef(Code()[2], 0, r) == None;
    var p :| Analysis.Undisturbed(BLOCKS, Code(), r, d, p, 2);
    var n := |p| - 2;
    assert Edge(BLOCKS, p[n], p[n + 1]);
    assert p[n] == 0 && BlockDef(Code()[p[n]], RCX) == Some(CALL);
  }

  lemma BlocksAcyclic()
    ensures Analysis.Acyclic(BLOCKS) && Mirrored(BLOCKS, BACKWARD)
  {
    var g := BLOCKS;
    forall u: nat, v: nat | Edge(g, u, v) ensures !Reaches(g, v, u) {
      var later := set x | x in Nodes(g) && x >= v;
      assert ClosedUnder(g, later);
      if Reaches(g, v, u) {
        ReachesStaysInside(g, later, v, u);
      }
    }
  }

  // ---- The search ----

  ghost predicate Recorded(refs: seq<RefMap>, uses: seq<RefMap>) {
    && |refs| == 6 && Linked(refs, uses)
    && forall s: nat, r: nat, d: nat :: s < 6 ==> (Has(refs[s], r, d) <==> Analysis.Reaching(BLOCKS, Code(), s, r, d))
  }

  /** What the search needs to know of the chains. */
  ghost predicate LinksHere(p: Chains) {
    && p.Valid() && |p.uses| == 6
    && Has(p.refs[CMP], RAX, CALL) && (forall d: nat :: Has(p.refs[CMP], RAX, d) ==> d == CALL)
    && (forall x: nat :: !Has(p.uses[CMP], RAX, x))
    && Has(p.uses[CALL], RAX, MOV) && Has(p.uses[MOV], RCX, SHL) && Has(p.refs[SHL], RCX, CALL)
    && Has(p.uses[CALL], RCX, JMP)
    && (forall s: nat, r: nat :: s < 6 && Has(p.uses[s], r, JMP) ==> s == CALL && r == RCX)
  }

  lemma RecordedIsValid(p: Chains)
    requires |p.refs| == |p.defs| == 6 && Linked(p.refs, p.uses)
    ensures p.Valid()
  {
    forall s: nat, r: nat, x: nat | s < 6 && (x in Get(p.uses[s], r) || x in Get(p.refs[s], r)) ensures x < 6 {
      assert Has(p.uses[s], r, x) || Has(p.refs[s], r, x);
    }
  }

  lemma RecordedHere(p: Chains)
    requires Recorded(p.refs, p.uses)
    ensures Has(p.refs[CMP], RAX, CALL) && Has(p.uses[CALL], RAX, MOV) && Has(p.uses[MOV], RCX, SHL)
    ensures Has(p.refs[SHL], RCX, CALL) && Has(p.uses[CALL], RCX, JMP)
  {
    ReachingHere();
    assert Has(p.refs[MOV], RAX, CALL) && Has(p.refs[SHL], RCX, MOV) && Has(p.refs[JMP], RCX, CALL);
  }

  lemma RecordedLinks(p: Chains, n: int, k: int)
    requires Recorded(p.refs, p.uses) && p.defs == Definitions(n, k)
    ensures LinksHere(p)
  {
    RecordedIsValid(p);
    RecordedHere(p);
    forall d: nat | Has(p.refs[CMP], RAX, d) ensures d == CALL {
      OnlyCallReachesCmp(d);
    }
    forall x: nat ensures !Has(p.uses[CMP], RAX, x) {
      CmpDefinesNoRax(x);
    }
    forall s: nat, r: nat | s < 6 && Has(p.uses[s], r, JMP) ensures s == CALL && r == RCX {
      OnlyCallReachesJmp(r, s);
    }
  }

  lemma OnlyElement(m: RefMap, r: nat, x: nat)
    requires Has(m, r, x) && forall d: nat :: Has(m, r, d) ==> d == x
    ensures Get(m, r) != [] && forall i :: 0 <= i < |Get(m, r)| ==> Get(m, r)[i] == x
  {
    forall i | 0 <= i < |Get(m, r)| ensures Get(m, r)[i] == x {
      assert Has(m, r, Get(m, r)[i]);
    }
  }

  /** The search starts by going back to the call. */
  lemma CallIsMetFirst(p: Chains, bound: int)
    requires LinksHere(p)
    ensures var now := Run(p, Node(CMP, RAX, bound), JMP, map[]).visited;
            CALL in now && now[CALL] == RAX
  {
    var a := Node(CMP, RAX, bound);
    assert UsesOf(p, a) == [] by {
      if UsesOf(p, a) != [] {
        assert Has(p.uses[CMP], RAX, UsesOf(p, a)[0]);
      }
    }
    OnlyElement(p.refs[CMP], RAX, CALL);
    RunGoesOn(p, a, JMP, map[]);
    assert Next(p, a)[0] == Node(CALL, RAX, bound);
  }

  lemma JumpIsMissed(p: Chains, bound: int)
    requires LinksHere(p)
    ensures Run(p, Node(CMP, RAX, bound), JMP, map[]).found.None?
  {
    var a := Node(CMP, RAX, bound);
    if Run(p, a, JMP, map[]).found.Some? {
      CallIsMetFirst(p, bound);
      var s := FoundIsVisited(p, a, JMP, map[]);
      assert Has(p.uses[s], Run(p, a, JMP, map[]).visited[s], JMP);
    }
  }

  lemma DefinedHere(n: int, k: int, x: nat)
    requires x < 6
    ensures !CutsRegFlow(DefOf(Definitions(n, k)[x], RCX))
  {
    var defs := Definitions(n, k);
    assert DefOf(defs[CALL][1..], RCX) == None;
    assert DefOf(defs[CMP][1..], RCX) == None;
  }

  lemma {:induction false} NothingCuts(p: Chains, n: int, k: int, list: seq<nat>)
    requires p.defs == Definitions(n, k)
    ensures Upstream(p, list, RCX) == list
    decreases list
  {
    if list != [] {
      if list[0] < 6 {
        DefinedHere(n, k, list[0]);
      }
      NothingCuts(p, n, k, list[1..]);
    }
  }

  lemma BackToCall(p: Chains, bound: int)
    requires LinksHere(p)
    ensures ValueFlow.Step(p, Node(CMP, RAX, bound), Node(CALL, RAX, bound))
  {
    OnlyElement(p.refs[CMP], RAX, CALL);
    assert RefAt(p, Get(p.refs[CMP], RAX), RAX, 0, CALL);
    assert UpStep(p, Node(CMP, RAX, bound), Node(CALL, RAX, bound));
  }

  lemma DownToShift(p: Chains, n: int, k: int, bound: int)
    requires LinksHere(p) && p.defs == Definitions(n, k)
    ensures ValueFlow.Step(p, Node(CALL, RAX, bound), Node(MOV, RCX, bound))
    ensures ValueFlow.Step(p, Node(MOV, RCX, bound), Node(SHL, RCX, bound * Pow2(k)))
  {
    assert DownStep(p, Node(CALL, RAX, bound), Node(MOV, RCX, bound), 0);
    assert Folds(Binary("<<", Physical(RCX, 8), Constant(k)), bound, bound * Pow2(k));
    assert DownStep(p, Node(MOV, RCX, bound), Node(SHL, RCX, bound * Pow2(k)), 0);
  }

  lemma BackAgain(p: Chains, n: int, k: int, v: int)
    requires LinksHere(p) && p.defs == Definitions(n, k)
    ensures ValueFlow.Step(p, Node(SHL, RCX, v), Node(CALL, RCX, v))
  {
    NothingCuts(p, n, k, Get(p.refs[SHL], RCX));
    UpstreamIsRef(p, Get(p.refs[SHL], RCX), RCX, CALL);
    assert UpStep(p, Node(SHL, RCX, v), Node(CALL, RCX, v));
  }

  /** From the comparison back to the call, down through the copy and the shift, and back to the call. */
  lemma BoundReaches(p: Chains, n: int, k: int, bound: int)
    requires LinksHere(p) && p.defs == Definitions(n, k)
    ensures Reaching(p, Node(CMP, RAX, bound), JMP, bound * Pow2(k))
  {
    var v := bound * Pow2(k);
    DirectReaching(p, Node(CALL, RCX, v), JMP);
    BackAgain(p, n, k, v);
    StepReaching(p, Node(SHL, RCX, v), Node(CALL, RCX, v), JMP, v);
    DownToShift(p, n, k, bound);
    StepReaching(p, Node(MOV, RCX, bound), Node(SHL, RCX, v), JMP, v);
    StepReaching(p, Node(CALL, RAX, bound), Node(MOV, RCX, bound), JMP, v);
    BackToCall(p, bound);
    StepReaching(p, Node(CMP, RAX, bound), Node(CALL, RAX, bound), JMP, v);
  }

  /** The use-def analysis of these blocks, and the search for the jump from the comparison. */
  method CallHidesBound(n: int, k: int, bound: int) returns (found: bool, bound': int, p: Chains)
    ensures p.Valid() && |p.uses| == 6 && !found && bound' == bound
    ensures Reaching(p, Node(CMP, RAX, bound), JMP, bound * Pow2(k)) && !OneRegisterEach(p, Node(CMP, RAX, bound))
  {
    BlocksAcyclic();
    var refs, uses, order := Analysis.BuildChains(BLOCKS, BACKWARD, Code(), 6);
    p := Chains(uses, refs, Definitions(n, k));
    RecordedLinks(p, n, k);
    found, bound' := ValueReaches(p, CMP, RAX, JMP, bound);
    BoundReaches(p, n, k, bound);
    JumpIsMissed(p, bound);
  }
}
