/** Following a bound through use-def chains: `valueReaches` of src/analysis/jumptabledetection.cpp. */
module ValueFlow {
  import opened Graphs
  import opened Options
  import opened RefLists
  import opened SlicingTree

  /** A register that a state defines, with the tree of its value if that is known. */
  datatype Definition = Definition(reg: nat, tree: Option<Tree>)

  /** The use-def chains of a function; `defs[s]` are the definitions of state `s` in order. */
  datatype Chains = Chains(uses: seq<RefMap>, refs: seq<RefMap>, defs: seq<seq<Definition>>) {
    ghost predicate Valid() {
      && |refs| == |uses| && |defs| == |uses|
      && (forall s: nat, r: nat, x: nat :: s < |uses| && (x in Get(uses[s], r) || x in Get(refs[s], r)) ==> x < |uses|)
    }
  }

  /** A copy, or a shift by a constant. */
  predicate Passes(t: Tree) {
    || t.Physical? || t.Register? || t.Rip?
    || (t.Binary? && (t.op == ">>" || t.op == "<<") && t.right.Constant?)
  }

  function ShiftLeft(v: int, k: int): int
    decreases k
  {
    if k <= 0 then v else 2 * ShiftLeft(v, k - 1)
  }

  function ShiftRight(v: int, k: int): int
    decreases k
  {
    if k <= 0 then v else ShiftRight(v / 2, k - 1)
  }

  /** The value after the definition `t`. */
  function Shifted(t: Tree, v: int): int
    requires Passes(t)
  {
    if !t.Binary? then v
    else if t.op == ">>" then ShiftRight(v, t.right.value)
    else ShiftLeft(v, t.right.value)
  }

  /** `cutsRegFlow`. */
  predicate CutsRegFlow(t: Option<Tree>) {
    t.Some? && t.value.Unary? && t.value.name == "deref"
  }

  /** `getRegDef`. */
  function DefOf(defs: seq<Definition>, reg: nat): Option<Tree> {
    if defs == [] then None else if defs[0].reg == reg then defs[0].tree else DefOf(defs[1..], reg)
  }

  /** The refs that are followed: none after the first whose value comes from memory. */
  function Upstream(p: Chains, list: seq<nat>, reg: nat): (up: seq<nat>)
    ensures up <= list
  {
    if list == [] then []
    else if Cuts(p, list[0], reg) then [list[0]]
    else [list[0]] + Upstream(p, list[1..], reg)
  }

  predicate Cuts(p: Chains, x: nat, reg: nat) {
    x < |p.defs| && CutsRegFlow(DefOf(p.defs[x], reg))
  }

  // ---- Chains of steps ----

  datatype Node = Node(state: nat, reg: nat, value: int)

  function Pow2(k: int): (n: int)
    ensures n >= 1
    decreases k
  {
    if k <= 0 then 1 else 2 * Pow2(k - 1)
  }

  /** What a definition by the tree `t` makes of a value: a copy of a register leaves it, a constant
      shift multiplies it by a power of two or divides it, rounding down. Other trees pass nothing on. */
  ghost predicate Folds(t: Tree, v: int, w: int) {
    match t
    case Physical(_, _) => w == v
    case Register(_) => w == v
    case Rip(_) => w == v
    case Binary(op, _, Constant(k)) => (op == "<<" && w == v * Pow2(k)) || (op == ">>" && w == v / Pow2(k))
    case _ => false
  }

  lemma {:induction false} ShiftLeftIs(v: int, k: int)
    ensures ShiftLeft(v, k) == v * Pow2(k)
    decreases k
  {
    if k > 0 {
      ShiftLeftIs(v, k - 1);
    }
  }

  lemma HalfThenDivide(v: int, n: int)
    requires n >= 1
    ensures v / 2 / n == v / (2 * n)
  {
    var q := v / (2 * n);
    var r := v - 2 * n * q;
    assert 0 <= r < 2 * n;
    assert v / 2 == n * q + r / 2 && 0 <= r / 2 < n;
    Quotient(v / 2, n, q, r / 2);
  }

  lemma Quotient(x: int, n: int, q: int, r: int)
    requires n >= 1 && x == n * q + r && 0 <= r < n
    ensures x / n == q
  {
    var d := x / n - q;
    assert x == n * (x / n) + x % n;
    assert n * d == r - x % n;
    assert d >= 1 ==> n * d >= n;
    assert d <= -1 ==> n * d <= -n;
  }

  lemma {:induction false} ShiftRightIs(v: int, k: int)
    ensures ShiftRight(v, k) == v / Pow2(k)
    decreases k
  {
    if k > 0 {
      ShiftRightIs(v / 2, k - 1);
      HalfThenDivide(v, Pow2(k - 1));
    }
  }

  /** The search folds values as `Folds` says, and skips exactly the trees that pass nothing on. */
  lemma ShiftedFolds(t: Tree, v: int, w: int)
    ensures Folds(t, v, w) <==> Passes(t) && w == Shifted(t, v)
  {
    if t.Binary? && t.right.Constant? {
      ShiftLeftIs(v, t.right.value);
      ShiftRightIs(v, t.right.value);
    }
  }

  /** Definition `k` of `use` passes the value of `a` on to `b`. */
  ghost predicate DefStep(a: Node, use: nat, defs: seq<Definition>, b: Node, k: nat) {
    && k < |defs| && b.state == use && b.reg == defs[k].reg
    && defs[k].tree.Some? && Folds(defs[k].tree.value, a.value, b.value)
  }

  /** A use of the register defines another by a copy or a constant shift. */
  ghost predicate DownStep(p: Chains, a: Node, b: Node, k: nat) {
    && a.state < |p.uses| && b.state in Get(p.uses[a.state], a.reg) && b.state < |p.defs|
    && DefStep(a, b.state, p.defs[b.state], b, k)
  }

  /** The value that `x` defines for `reg` comes from memory. */
  ghost predicate FromMemory(p: Chains, x: nat, reg: nat) {
    x < |p.defs| && exists k: nat :: FirstDefAt(p.defs[x], reg, k) && IsLoad(p.defs[x][k].tree)
  }

  ghost predicate FirstDefAt(defs: seq<Definition>, reg: nat, k: nat) {
    k < |defs| && defs[k].reg == reg && forall j :: 0 <= j < k ==> defs[j].reg != reg
  }

  ghost predicate IsLoad(t: Option<Tree>) {
    exists place: Tree :: t == Some(Unary("deref", place))
  }

  /** Back to a definition of the register: the refs in order, none after one from memory. */
  ghost predicate UpStep(p: Chains, a: Node, b: Node) {
    && a.state < |p.refs| && b.reg == a.reg && b.value == a.value
    && exists i: nat :: RefAt(p, Get(p.refs[a.state], a.reg), a.reg, i, b.state)
  }

  ghost predicate RefAt(p: Chains, refs: seq<nat>, reg: nat, i: nat, x: nat) {
    i < |refs| && refs[i] == x && forall j :: 0 <= j < i ==> !FromMemory(p, refs[j], reg)
  }

  lemma {:induction false} DefOfFirst(defs: seq<Definition>, reg: nat, k: nat)
    requires FirstDefAt(defs, reg, k)
    ensures DefOf(defs, reg) == defs[k].tree
    decreases k
  {
    if k > 0 {
      DefOfFirst(defs[1..], reg, k - 1);
    }
  }

  lemma {:induction false} SomeFirstDef(defs: seq<Definition>, reg: nat) returns (k: nat)
    requires DefOf(defs, reg).Some?
    ensures FirstDefAt(defs, reg, k)
    decreases defs
  {
    if defs[0].reg == reg {
      k := 0;
    } else {
      k := SomeFirstDef(defs[1..], reg);
      k := k + 1;
    }
  }

  /** The search stops going back exactly at definitions from memory. */
  lemma CutsIsFromMemory(p: Chains, x: nat, reg: nat)
    ensures Cuts(p, x, reg) <==> FromMemory(p, x, reg)
  {
    if Cuts(p, x, reg) {
      var k := SomeFirstDef(p.defs[x], reg);
      DefOfFirst(p.defs[x], reg, k);
      assert p.defs[x][k].tree == Some(Unary("deref", p.defs[x][k].tree.value.child));
    }
    if FromMemory(p, x, reg) {
      var k: nat :| FirstDefAt(p.defs[x], reg, k) && IsLoad(p.defs[x][k].tree);
      DefOfFirst(p.defs[x], reg, k);
    }
  }

  lemma {:induction false} UpstreamIsRef(p: Chains, refs: seq<nat>, reg: nat, x: nat)
    ensures x in Upstream(p, refs, reg) <==> exists i: nat :: RefAt(p, refs, reg, i, x)
    decreases refs
  {
    if refs != [] {
      var rest := refs[1..];
      CutsIsFromMemory(p, refs[0], reg);
      UpstreamIsRef(p, rest, reg, x);
      if refs[0] == x {
        assert RefAt(p, refs, reg, 0, x);
      } else if !Cuts(p, refs[0], reg) && x in Upstream(p, rest, reg) {
        var i: nat :| RefAt(p, rest, reg, i, x);
        assert RefAt(p, refs, reg, i + 1, x);
      }
      if i: nat :| RefAt(p, refs, reg, i, x) {
        if i > 0 {
          assert forall j :: 0 <= j < i - 1 ==> rest[j] == refs[j + 1];
          assert RefAt(p, rest, reg, i - 1, x);
        }
      }
    }
  }

  ghost predicate Step(p: Chains, a: Node, b: Node) {
    (exists k: nat :: DownStep(p, a, b, k)) || UpStep(p, a, b)
  }

  ghost predicate Direct(p: Chains, a: Node, goal: nat) {
    a.state < |p.uses| && goal in Get(p.uses[a.state], a.reg)
  }

  /** Steps from the first node to one whose register `goal` uses. */
  ghost predicate IsChain(p: Chains, c: seq<Node>, goal: nat) {
    c != [] && Direct(p, c[|c| - 1], goal) && AllSteps(p, c)
  }

  ghost predicate AllSteps(p: Chains, c: seq<Node>) {
    forall i: nat :: i + 1 < |c| ==> StepAt(p, c, i)
  }

  ghost predicate StepAt(p: Chains, c: seq<Node>, i: nat) {
    i + 1 < |c| && Follows(p, c[i], c[i + 1])
  }

  /** A step, stated of every value equal to `p`, so that it is unfolded only where it is used. */
  ghost predicate Follows(p: Chains, a: Node, b: Node) {
    forall q: Chains :: q == p ==> Step(q, a, b)
  }

  /** The value at `a` reaches `goal` as `v`. */
  ghost predicate Reaching(p: Chains, a: Node, goal: nat, v: int) {
    exists c: seq<Node> :: IsChain(p, c, goal) && c[0] == a && c[|c| - 1].value == v
  }

  // ---- The search as a function ----

  /** What a search has found, and with which register it has visited each state. */
  datatype Outcome = Outcome(found: Option<int>, visited: map<nat, nat>)

  /** The steps from `a` to the definitions `defs` of `use`. */
  function ToDefs(a: Node, use: nat, defs: seq<Definition>): (list: seq<Node>)
    ensures forall i :: 0 <= i < |list| ==> list[i].state == use
  {
    if defs == [] then []
    else
      var d, rest := defs[0], ToDefs(a, use, defs[1..]);
      if d.tree.Some? && Passes(d.tree.value) then [Node(use, d.reg, Shifted(d.tree.value, a.value))] + rest
      else rest
  }

  /** The steps from `a` to those of `uses`. */
  function ToUses(p: Chains, a: Node, uses: seq<nat>): (list: seq<Node>)
    requires forall i :: 0 <= i < |uses| ==> uses[i] < |p.defs|
    ensures forall i :: 0 <= i < |list| ==> list[i].state in uses
  {
    if uses == [] then []
    else ToDefs(a, uses[0], p.defs[uses[0]]) + ToUses(p, a, uses[1..])
  }

  /** The steps from `a` back to those of `refs`. */
  function ToRefs(a: Node, refs: seq<nat>): (list: seq<Node>)
    ensures |list| == |refs| && forall i :: 0 <= i < |list| ==> list[i] == Node(refs[i], a.reg, a.value)
  {
    seq(|refs|, i requires 0 <= i < |refs| => Node(refs[i], a.reg, a.value))
  }

  function UsesOf(p: Chains, a: Node): (uses: seq<nat>)
    requires p.Valid() && a.state < |p.uses|
    ensures forall i :: 0 <= i < |uses| ==> uses[i] < |p.uses|
  {
    var uses := Get(p.uses[a.state], a.reg);
    assert forall i :: 0 <= i < |uses| ==> uses[i] in uses;
    uses
  }

  function RefsOf(p: Chains, a: Node): (refs: seq<nat>)
    requires p.Valid() && a.state < |p.uses|
    ensures forall i :: 0 <= i < |refs| ==> refs[i] < |p.uses|
  {
    var refs := Get(p.refs[a.state], a.reg);
    assert forall i :: 0 <= i < |refs| ==> refs[i] in refs;
    refs
  }

  /** The nodes that are tried from `a`, in order. */
  function Next(p: Chains, a: Node): (list: seq<Node>)
    requires p.Valid() && a.state < |p.uses|
    ensures AllIn(p, list)
  {
    ToUses(p, a, UsesOf(p, a)) + ToRefs(a, Upstream(p, RefsOf(p, a), a.reg))
  }

  predicate AllIn(p: Chains, list: seq<Node>) {
    forall i :: 0 <= i < |list| ==> list[i].state < |p.uses|
  }

  /** The search from `a`. */
  function Run(p: Chains, a: Node, goal: nat, visited: map<nat, nat>): (r: Outcome)
    requires p.Valid() && a.state < |p.uses| && visited.Keys <= Ids(|p.uses|)
    ensures Grows(visited, r.visited) && r.visited.Keys <= Ids(|p.uses|) && a.state in r.visited
    ensures a.state !in visited ==> r.visited[a.state] == a.reg
    decreases Ids(|p.uses|) - visited.Keys, 0
  {
    if a.state in visited then Outcome(None, visited)
    else
      var visited1 := visited[a.state := a.reg];
      assert a.state in Ids(|p.uses|) - visited.Keys;
      if goal in Get(p.uses[a.state], a.reg) then Outcome(Some(a.value), visited1)
      else RunAll(p, Next(p, a), goal, visited1)
  }

  /** The searches from the nodes of `list`, up to the first that finds `goal`. */
  function RunAll(p: Chains, list: seq<Node>, goal: nat, visited: map<nat, nat>): (r: Outcome)
    requires p.Valid() && AllIn(p, list) && visited.Keys <= Ids(|p.uses|)
    ensures Grows(visited, r.visited) && r.visited.Keys <= Ids(|p.uses|)
    decreases Ids(|p.uses|) - visited.Keys, |list|
  {
    if list == [] then Outcome(None, visited)
    else
      var r := Run(p, list[0], goal, visited);
      if r.found.Some? then r else RunAll(p, list[1..], goal, r.visited)
  }

  /** One level of the search, where it goes on. */
  lemma RunGoesOn(p: Chains, a: Node, goal: nat, visited: map<nat, nat>)
    requires p.Valid() && a.state < |p.uses| && visited.Keys <= Ids(|p.uses|)
    requires a.state !in visited && goal !in Get(p.uses[a.state], a.reg)
    ensures Run(p, a, goal, visited) == RunAll(p, Next(p, a), goal, visited[a.state := a.reg])
    ensures visited[a.state := a.reg].Keys <= Ids(|p.uses|)
    ensures Ids(|p.uses|) - visited[a.state := a.reg].Keys < Ids(|p.uses|) - visited.Keys
  {
    assert a.state in Ids(|p.uses|) - visited.Keys;
  }

  predicate Grows(before: map<nat, nat>, now: map<nat, nat>) {
    before.Keys <= now.Keys && forall s :: s in before ==> now[s] == before[s]
  }

  // ---- Its steps are the steps of chains ----

  lemma {:induction false} ToDefsIsStep(a: Node, use: nat, defs: seq<Definition>, b: Node)
    ensures b in ToDefs(a, use, defs) <==> exists k: nat :: DefStep(a, use, defs, b, k)
    decreases defs
  {
    if defs != [] {
      ToDefsIsStep(a, use, defs[1..], b);
      if defs[0].tree.Some? {
        ShiftedFolds(defs[0].tree.value, a.value, b.value);
      }
      if b in ToDefs(a, use, defs[1..]) {
        var k: nat :| DefStep(a, use, defs[1..], b, k);
        assert DefStep(a, use, defs, b, k + 1);
      } else if b in ToDefs(a, use, defs) {
        assert DefStep(a, use, defs, b, 0);
      }
      if k: nat :| DefStep(a, use, defs, b, k) {
        assert k > 0 ==> DefStep(a, use, defs[1..], b, k - 1);
      }
    }
  }

  lemma {:induction false} ToUsesIsStep(p: Chains, a: Node, uses: seq<nat>, b: Node)
    requires forall i :: 0 <= i < |uses| ==> uses[i] < |p.defs|
    ensures b in ToUses(p, a, uses) <==>
            b.state in uses && b.state < |p.defs| && exists k: nat :: DefStep(a, b.state, p.defs[b.state], b, k)
    decreases uses
  {
    if uses != [] {
      ToUsesIsStep(p, a, uses[1..], b);
      ToDefsIsStep(a, uses[0], p.defs[uses[0]], b);
    }
  }

  /** The search goes on exactly to where a step leads. */
  lemma NextIsStep(p: Chains, a: Node, b: Node)
    requires p.Valid() && a.state < |p.uses|
    ensures b in Next(p, a) <==> Step(p, a, b)
  {
    var uses, refs := UsesOf(p, a), RefsOf(p, a);
    ToUsesIsStep(p, a, uses, b);
    var up := Upstream(p, refs, a.reg);
    UpstreamIsRef(p, refs, a.reg, b.state);
    assert b in ToRefs(a, up) <==> UpStep(p, a, b) by {
      if UpStep(p, a, b) {
        var i :| 0 <= i < |up| && up[i] == b.state;
        assert ToRefs(a, up)[i] == b;
      }
    }
    if b in ToUses(p, a, uses) {
      var k: nat :| DefStep(a, b.state, p.defs[b.state], b, k);
      assert DownStep(p, a, b, k);
    }
    if k: nat :| DownStep(p, a, b, k) {
      assert DefStep(a, b.state, p.defs[b.state], b, k);
    }
  }

  // ---- A positive answer ----

  lemma DirectReaching(p: Chains, a: Node, goal: nat)
    requires Direct(p, a, goal)
    ensures Reaching(p, a, goal, a.value)
  {
    assert IsChain(p, [a], goal);
  }

  lemma LongerSteps(p: Chains, a: Node, c: seq<Node>)
    requires c != [] && AllSteps(p, c) && Step(p, a, c[0])
    ensures AllSteps(p, [a] + c)
  {
    var longer := [a] + c;
    assert Follows(p, a, c[0]);
    forall i: nat | i + 1 < |longer| ensures StepAt(p, longer, i) {
      if i > 0 {
        assert StepAt(p, c, i - 1);
        assert longer[i] == c[i - 1] && longer[i + 1] == c[i];
      } else {
        assert longer[0] == a && longer[1] == c[0];
      }
    }
  }

  lemma StepReaching(p: Chains, a: Node, b: Node, goal: nat, v: int)
    requires Step(p, a, b) && Reaching(p, b, goal, v)
    ensures Reaching(p, a, goal, v)
  {
    var c: seq<Node> :| IsChain(p, c, goal) && c[0] == b && c[|c| - 1].value == v;
    LongerSteps(p, a, c);
    var longer := [a] + c;
    assert longer[0] == a && longer[|longer| - 1] == c[|c| - 1];
    assert IsChain(p, longer, goal);
  }

  /** What is found has a chain of steps behind it. */
  lemma {:induction false} FoundIsReaching(p: Chains, a: Node, goal: nat, visited: map<nat, nat>)
    requires p.Valid() && a.state < |p.uses| && visited.Keys <= Ids(|p.uses|)
    requires Run(p, a, goal, visited).found.Some?
    ensures Reaching(p, a, goal, Run(p, a, goal, visited).found.value)
    decreases Ids(|p.uses|) - visited.Keys, 0
  {
    if goal in Get(p.uses[a.state], a.reg) {
      DirectReaching(p, a, goal);
    } else {
      assert a.state in Ids(|p.uses|) - visited.Keys;
      AllFoundIsReaching(p, a, Next(p, a), goal, visited[a.state := a.reg]);
    }
  }

  lemma {:induction false} AllFoundIsReaching(p: Chains, a: Node, list: seq<Node>, goal: nat, visited: map<nat, nat>)
    requires p.Valid() && a.state < |p.uses| && AllIn(p, list) && visited.Keys <= Ids(|p.uses|)
    requires (forall b :: b in list ==> b in Next(p, a)) && RunAll(p, list, goal, visited).found.Some?
    ensures Reaching(p, a, goal, RunAll(p, list, goal, visited).found.value)
    decreases Ids(|p.uses|) - visited.Keys, |list|
  {
    var r := Run(p, list[0], goal, visited);
    if r.found.Some? {
      FoundIsReaching(p, list[0], goal, visited);
      NextIsStep(p, a, list[0]);
      StepReaching(p, a, list[0], goal, r.found.value);
    } else {
      AllFoundIsReaching(p, a, list[1..], goal, r.visited);
    }
  }

  // ---- With which registers states are met ----

  /** Steps from `a` to state `s` with register `r`. */
  ghost predicate LeadsTo(p: Chains, a: Node, c: seq<Node>, s: nat, r: nat) {
    c != [] && c[0] == a && AllSteps(p, c) && c[|c| - 1].state == s && c[|c| - 1].reg == r
  }

  ghost predicate Met(p: Chains, a: Node, s: nat, r: nat) {
    exists c :: LeadsTo(p, a, c, s, r)
  }

  /** No state can be met with two registers. */
  ghost predicate OneRegisterEach(p: Chains, a: Node) {
    forall s: nat, r: nat, q: nat :: Met(p, a, s, r) && Met(p, a, s, q) ==> r == q
  }

  lemma MetSelf(p: Chains, a: Node)
    ensures Met(p, a, a.state, a.reg)
  {
    assert LeadsTo(p, a, [a], a.state, a.reg);
  }

  lemma MetStep(p: Chains, a: Node, b: Node, s: nat, r: nat)
    requires Step(p, a, b) && Met(p, b, s, r)
    ensures Met(p, a, s, r)
  {
    var c :| LeadsTo(p, b, c, s, r);
    LongerSteps(p, a, c);
    assert ([a] + c)[|c|] == c[|c| - 1];
    assert LeadsTo(p, a, [a] + c, s, r);
  }

  lemma MetOnChain(p: Chains, a: Node, c: seq<Node>, i: nat)
    requires i < |c| && c[0] == a && AllSteps(p, c)
    ensures Met(p, a, c[i].state, c[i].reg)
  {
    var q := c[..i + 1];
    forall k: nat | k + 1 < |q| ensures StepAt(p, q, k) {
      assert StepAt(p, c, k);
    }
    assert LeadsTo(p, a, q, c[i].state, c[i].reg);
  }

  /** Every state is visited with a register with which it can be met. */
  lemma {:induction false} VisitedIsMet(p: Chains, a: Node, goal: nat, visited: map<nat, nat>, s: nat)
    requires p.Valid() && a.state < |p.uses| && visited.Keys <= Ids(|p.uses|)
    requires s in Run(p, a, goal, visited).visited && s !in visited
    ensures Met(p, a, s, Run(p, a, goal, visited).visited[s])
    decreases Ids(|p.uses|) - visited.Keys, 0
  {
    if s == a.state {
      MetSelf(p, a);
    } else if goal !in Get(p.uses[a.state], a.reg) {
      assert a.state in Ids(|p.uses|) - visited.Keys;
      AllVisitedIsMet(p, a, Next(p, a), goal, visited[a.state := a.reg], s);
    }
  }

  lemma {:induction false} AllVisitedIsMet(p: Chains, a: Node, list: seq<Node>, goal: nat, visited: map<nat, nat>,
                                           s: nat)
    requires p.Valid() && a.state < |p.uses| && AllIn(p, list) && visited.Keys <= Ids(|p.uses|)
    requires (forall b :: b in list ==> b in Next(p, a)) && s in RunAll(p, list, goal, visited).visited && s !in visited
    ensures Met(p, a, s, RunAll(p, list, goal, visited).visited[s])
    decreases Ids(|p.uses|) - visited.Keys, |list|
  {
    var r := Run(p, list[0], goal, visited);
    if s in r.visited {
      VisitedIsMet(p, list[0], goal, visited, s);
      NextIsStep(p, a, list[0]);
      MetStep(p, a, list[0], s, r.visited[s]);
    } else {
      AllVisitedIsMet(p, a, list[1..], goal, r.visited, s);
    }
  }

  /** What is found is a use of a register with which its state was visited. */
  lemma {:induction false} FoundIsVisited(p: Chains, a: Node, goal: nat, visited: map<nat, nat>) returns (s: nat)
    requires p.Valid() && a.state < |p.uses| && visited.Keys <= Ids(|p.uses|)
    requires Run(p, a, goal, visited).found.Some?
    ensures var now := Run(p, a, goal, visited).visited;
            s in now && s !in visited && s < |p.uses| && goal in Get(p.uses[s], now[s])
    decreases Ids(|p.uses|) - visited.Keys, 0
  {
    if goal in Get(p.uses[a.state], a.reg) {
      s := a.state;
    } else {
      RunGoesOn(p, a, goal, visited);
      s := AllFoundIsVisited(p, Next(p, a), goal, visited[a.state := a.reg]);
    }
  }

  lemma {:induction false} AllFoundIsVisited(p: Chains, list: seq<Node>, goal: nat, visited: map<nat, nat>)
    returns (s: nat)
    requires p.Valid() && AllIn(p, list) && visited.Keys <= Ids(|p.uses|)
    requires RunAll(p, list, goal, visited).found.Some?
    ensures var now := RunAll(p, list, goal, visited).visited;
            s in now && s !in visited && s < |p.uses| && goal in Get(p.uses[s], now[s])
    decreases Ids(|p.uses|) - visited.Keys, |list|
  {
    var r := Run(p, list[0], goal, visited);
    if r.found.Some? {
      s := FoundIsVisited(p, list[0], goal, visited);
    } else {
      s := AllFoundIsVisited(p, list[1..], goal, r.visited);
    }
  }

  // ---- A negative answer ----

  /** `goal` does not use `reg` as defined by `s`, and every step from there leads to a state in `keys`. */
  ghost predicate Covered(p: Chains, goal: nat, s: nat, reg: nat, keys: set<nat>) {
    && s < |p.uses| && goal !in Get(p.uses[s], reg)
    && forall v: int, b: Node :: Step(p, Node(s, reg, v), b) ==> b.state in keys
  }

  /** Where steps lead does not depend on the value. */
  lemma StepWithValue(p: Chains, a: Node, b: Node, v: int) returns (b': Node)
    requires Step(p, a, b)
    ensures Step(p, a.(value := v), b') && b'.state == b.state && b'.reg == b.reg
  {
    if k: nat :| DownStep(p, a, b, k) {
      var t := p.defs[b.state][k].tree.value;
      ShiftedFolds(t, a.value, b.value);
      b' := b.(value := Shifted(t, v));
      ShiftedFolds(t, v, b'.value);
      assert DownStep(p, a.(value := v), b', k);
    } else {
      b' := b.(value := v);
    }
  }

  /** A search that finds nothing has covered all that it has visited. */
  lemma {:induction false} VisitedIsCovered(p: Chains, a: Node, goal: nat, visited: map<nat, nat>, s: nat)
    requires p.Valid() && a.state < |p.uses| && visited.Keys <= Ids(|p.uses|)
    requires Run(p, a, goal, visited).found.None? && s in Run(p, a, goal, visited).visited && s !in visited
    ensures var now := Run(p, a, goal, visited).visited;
            Covered(p, goal, s, now[s], now.Keys)
    decreases Ids(|p.uses|) - visited.Keys, 0
  {
    assert a.state in Ids(|p.uses|) - visited.Keys;
    var start, now := visited[a.state := a.reg], Run(p, a, goal, visited).visited;
    if s == a.state {
      forall v: int, b: Node | Step(p, Node(s, a.reg, v), b) ensures b.state in now {
        var b' := StepWithValue(p, Node(s, a.reg, v), b, a.value);
        assert Node(s, a.reg, v).(value := a.value) == a;
        NextIsStep(p, a, b');
        var i :| 0 <= i < |Next(p, a)| && Next(p, a)[i] == b';
        AllTried(p, Next(p, a), goal, start, i);
      }
    } else {
      AllVisitedIsCovered(p, Next(p, a), goal, start, s);
    }
  }

  lemma {:induction false} AllTried(p: Chains, list: seq<Node>, goal: nat, visited: map<nat, nat>, i: nat)
    requires p.Valid() && AllIn(p, list) && visited.Keys <= Ids(|p.uses|)
    requires RunAll(p, list, goal, visited).found.None? && i < |list|
    ensures list[i].state in RunAll(p, list, goal, visited).visited
    decreases |list|
  {
    if i > 0 {
      AllTried(p, list[1..], goal, Run(p, list[0], goal, visited).visited, i - 1);
    }
  }

  lemma {:induction false} AllVisitedIsCovered(p: Chains, list: seq<Node>, goal: nat, visited: map<nat, nat>, s: nat)
    requires p.Valid() && AllIn(p, list) && visited.Keys <= Ids(|p.uses|)
    requires RunAll(p, list, goal, visited).found.None? && s in RunAll(p, list, goal, visited).visited && s !in visited
    ensures var now := RunAll(p, list, goal, visited).visited;
            Covered(p, goal, s, now[s], now.Keys)
    decreases Ids(|p.uses|) - visited.Keys, |list|
  {
    var r := Run(p, list[0], goal, visited);
    if s in r.visited {
      VisitedIsCovered(p, list[0], goal, visited, s);
    } else {
      AllVisitedIsCovered(p, list[1..], goal, r.visited, s);
    }
  }

  lemma {:induction false} ChainIsVisited(p: Chains, a: Node, goal: nat, c: seq<Node>, i: nat)
    requires p.Valid() && a.state < |p.uses| && OneRegisterEach(p, a) && Run(p, a, goal, map[]).found.None?
    requires i < |c| && c[0] == a && AllSteps(p, c)
    ensures var now := Run(p, a, goal, map[]).visited;
            c[i].state in now && now[c[i].state] == c[i].reg
    decreases i
  {
    var now := Run(p, a, goal, map[]).visited;
    if i > 0 {
      ChainIsVisited(p, a, goal, c, i - 1);
      var x, y := c[i - 1], c[i];
      assert StepAt(p, c, i - 1);
      VisitedIsCovered(p, a, goal, map[], x.state);
      assert x == Node(x.state, x.reg, x.value);
      MetOnChain(p, a, c, i);
      VisitedIsMet(p, a, goal, map[], y.state);
    }
  }

  /** If no state can be met with two registers, a chain is found whenever there is one. */
  lemma NothingMissed(p: Chains, a: Node, goal: nat, v: int)
    requires p.Valid() && a.state < |p.uses| && OneRegisterEach(p, a) && Reaching(p, a, goal, v)
    ensures Run(p, a, goal, map[]).found.Some?
  {
    var c: seq<Node> :| IsChain(p, c, goal) && c[0] == a && c[|c| - 1].value == v;
    if Run(p, a, goal, map[]).found.None? {
      EndIsNotGoal(p, a, goal, c);
    }
  }

  lemma EndIsNotGoal(p: Chains, a: Node, goal: nat, c: seq<Node>)
    requires p.Valid() && a.state < |p.uses| && OneRegisterEach(p, a) && Run(p, a, goal, map[]).found.None?
    requires c != [] && c[0] == a && AllSteps(p, c)
    ensures !Direct(p, c[|c| - 1], goal)
  {
    ChainIsVisited(p, a, goal, c, |c| - 1);
    VisitedIsCovered(p, a, goal, map[], c[|c| - 1].state);
  }

  // ---- One more user ----

  /** The chains with one more state, which uses `reg` as defined by `s`, and defines nothing. */
  function WithUser(p: Chains, s: nat, reg: nat): (q: Chains)
    requires p.Valid() && s < |p.uses|
    ensures q.Valid() && |q.uses| == |p.uses| + 1
  {
    var n, list := |p.uses|, Get(p.uses[s], reg);
    var used: RefMap := p.uses[s][reg := list + [n]];
    assert forall x: nat, r: nat :: x in Get(used, r) ==> x in Get(p.uses[s], r) || x == n;
    assert forall x: nat, r: nat :: x in Get(map[reg := [s]], r) ==> x == s;
    Chains(p.uses[s := used] + [map[]], p.refs + [map[reg := [s]]], p.defs + [[]])
  }

  lemma {:induction false} SameUpstream(p: Chains, s: nat, reg: nat, list: seq<nat>, r: nat)
    requires p.Valid() && s < |p.uses| && forall i :: 0 <= i < |list| ==> list[i] < |p.uses|
    ensures Upstream(WithUser(p, s, reg), list, r) == Upstream(p, list, r)
    decreases list
  {
    if list != [] {
      SameUpstream(p, s, reg, list[1..], r);
    }
  }

  lemma {:induction false} SameToUses(p: Chains, s: nat, reg: nat, a: Node, uses: seq<nat>)
    requires p.Valid() && s < |p.uses| && forall i :: 0 <= i < |uses| ==> uses[i] < |p.uses|
    ensures ToUses(WithUser(p, s, reg), a, uses) == ToUses(p, a, uses)
    ensures ToUses(WithUser(p, s, reg), a, uses + [|p.uses|]) == ToUses(p, a, uses)
    decreases uses
  {
    if uses != [] {
      SameToUses(p, s, reg, a, uses[1..]);
      assert (uses + [|p.uses|])[1..] == uses[1..] + [|p.uses|];
    } else {
      assert ([] + [|p.uses|])[1..] == [];
    }
  }

  /** The new state changes no step of the others. */
  lemma SameNext(p: Chains, s: nat, reg: nat, a: Node)
    requires p.Valid() && s < |p.uses| && a.state < |p.uses|
    ensures Next(WithUser(p, s, reg), a) == Next(p, a)
  {
    var uses, refs := UsesOf(p, a), RefsOf(p, a);
    SameToUses(p, s, reg, a, uses);
    SameUpstream(p, s, reg, refs, a.reg);
  }

  lemma {:induction false} SameChain(p: Chains, s: nat, reg: nat, a: Node, c: seq<Node>, i: nat)
    requires p.Valid() && s < |p.uses| && a.state < |p.uses| && i < |c| && c[0] == a
    requires AllSteps(p, c) || AllSteps(WithUser(p, s, reg), c)
    ensures c[i].state < |p.uses|
    ensures i + 1 < |c| ==> StepAt(p, c, i) && StepAt(WithUser(p, s, reg), c, i)
    decreases i
  {
    if i > 0 {
      SameChain(p, s, reg, a, c, i - 1);
      NextIsStep(p, c[i - 1], c[i]);
    }
    if i + 1 < |c| {
      assert StepAt(p, c, i) || StepAt(WithUser(p, s, reg), c, i);
      SameNext(p, s, reg, c[i]);
      NextIsStep(p, c[i], c[i + 1]);
      NextIsStep(WithUser(p, s, reg), c[i], c[i + 1]);
      assert Follows(p, c[i], c[i + 1]) && Follows(WithUser(p, s, reg), c[i], c[i + 1]);
    }
  }

  lemma SameMet(p: Chains, s: nat, reg: nat, a: Node, x: nat, r: nat)
    requires p.Valid() && s < |p.uses| && a.state < |p.uses|
    ensures Met(WithUser(p, s, reg), a, x, r) <==> Met(p, a, x, r)
  {
    var q := WithUser(p, s, reg);
    if c :| LeadsTo(p, a, c, x, r) {
      forall i: nat | i + 1 < |c| ensures StepAt(q, c, i) {
        SameChain(p, s, reg, a, c, i);
      }
      assert LeadsTo(q, a, c, x, r);
    }
    if c :| LeadsTo(q, a, c, x, r) {
      forall i: nat | i + 1 < |c| ensures StepAt(p, c, i) {
        SameChain(p, s, reg, a, c, i);
      }
      assert LeadsTo(p, a, c, x, r);
    }
  }

  /** The new state is reached exactly when `s` can be met with `reg`. */
  lemma UserIsReached(p: Chains, s: nat, reg: nat, a: Node)
    requires p.Valid() && s < |p.uses| && a.state < |p.uses|
    ensures (exists v: int :: Reaching(WithUser(p, s, reg), a, |p.uses|, v)) <==> Met(p, a, s, reg)
  {
    var q, n := WithUser(p, s, reg), |p.uses|;
    if v: int :| Reaching(q, a, n, v) {
      var c: seq<Node> :| IsChain(q, c, n) && c[0] == a && c[|c| - 1].value == v;
      var last := c[|c| - 1];
      SameChain(p, s, reg, a, c, |c| - 1);
      assert n !in Get(p.uses[last.state], last.reg);
      assert LeadsTo(q, a, c, s, reg);
      SameMet(p, s, reg, a, s, reg);
    }
    if Met(p, a, s, reg) {
      SameMet(p, s, reg, a, s, reg);
      var c: seq<Node> :| LeadsTo(q, a, c, s, reg);
      assert Get(q.uses[s], reg) == Get(p.uses[s], reg) + [n];
      assert IsChain(q, c, n);
      assert Reaching(q, a, n, c[|c| - 1].value);
    }
  }

  /** A search that does not visit `s` with `reg` does not notice the new state. */
  lemma {:induction false} SameRun(p: Chains, s: nat, reg: nat, a: Node, visited: map<nat, nat>)
    requires p.Valid() && s < |p.uses| && a.state < |p.uses| && visited.Keys <= Ids(|p.uses|)
    requires var now := Run(p, a, |p.uses|, visited).visited; s in now ==> now[s] != reg
    ensures Run(p, a, |p.uses|, visited).found.None?
    ensures Run(WithUser(p, s, reg), a, |p.uses|, visited) == Run(p, a, |p.uses|, visited)
    decreases Ids(|p.uses|) - visited.Keys, 0
  {
    var n := |p.uses|;
    if a.state !in visited {
      NotUsed(p, s, reg, a, visited);
      RunGoesOn(p, a, n, visited);
      RunGoesOn(WithUser(p, s, reg), a, n, visited);
      SameNext(p, s, reg, a);
      AllSameRun(p, s, reg, Next(p, a), visited[a.state := a.reg]);
    }
  }

  lemma NotUsed(p: Chains, s: nat, reg: nat, a: Node, visited: map<nat, nat>)
    requires p.Valid() && s < |p.uses| && a.state < |p.uses| && visited.Keys <= Ids(|p.uses|) && a.state !in visited
    requires var now := Run(p, a, |p.uses|, visited).visited; s in now ==> now[s] != reg
    ensures |p.uses| !in Get(p.uses[a.state], a.reg) && |p.uses| !in Get(WithUser(p, s, reg).uses[a.state], a.reg)
    ensures visited.Keys <= Ids(|WithUser(p, s, reg).uses|)
  {
    assert !(a.state == s && a.reg == reg);
  }

  lemma {:induction false} AllSameRun(p: Chains, s: nat, reg: nat, list: seq<Node>, visited: map<nat, nat>)
    requires p.Valid() && s < |p.uses| && AllIn(p, list) && visited.Keys <= Ids(|p.uses|)
    requires var now := RunAll(p, list, |p.uses|, visited).visited; s in now ==> now[s] != reg
    ensures RunAll(p, list, |p.uses|, visited).found.None?
    ensures RunAll(WithUser(p, s, reg), list, |p.uses|, visited) == RunAll(p, list, |p.uses|, visited)
    decreases Ids(|p.uses|) - visited.Keys, |list|
  {
    if list != [] {
      SameRun(p, s, reg, list[0], visited);
      AllSameRun(p, s, reg, list[1..], Run(p, list[0], |p.uses|, visited).visited);
    }
  }

  /** The answer for the new state is right. */
  ghost predicate RightFor(p: Chains, a: Node, s: nat, reg: nat)
    requires p.Valid() && s < |p.uses| && a.state < |p.uses|
  {
    Run(WithUser(p, s, reg), a, |p.uses|, map[]).found.Some? <==>
    exists v: int :: Reaching(WithUser(p, s, reg), a, |p.uses|, v)
  }

  /** The answer is right for every new user of one register of one state, if and only if no state
      can be met with two registers. */
  lemma RightExactly(p: Chains, a: Node)
    requires p.Valid() && a.state < |p.uses|
    ensures (forall s: nat, r: nat :: s < |p.uses| ==> RightFor(p, a, s, r)) <==> OneRegisterEach(p, a)
  {
    if OneRegisterEach(p, a) {
      forall s: nat, r: nat | s < |p.uses| ensures RightFor(p, a, s, r) {
        RightWithOne(p, a, s, r);
      }
    } else {
      var s: nat, r: nat, q: nat :| Met(p, a, s, r) && Met(p, a, s, q) && r != q;
      WrongWithTwo(p, a, s, r, q);
    }
  }

  lemma RightWithOne(p: Chains, a: Node, s: nat, reg: nat)
    requires p.Valid() && s < |p.uses| && a.state < |p.uses| && OneRegisterEach(p, a)
    ensures RightFor(p, a, s, reg)
  {
    var q, n := WithUser(p, s, reg), |p.uses|;
    forall x: nat, r: nat, t: nat | Met(q, a, x, r) && Met(q, a, x, t) ensures r == t {
      SameMet(p, s, reg, a, x, r);
      SameMet(p, s, reg, a, x, t);
    }
    if v: int :| Reaching(q, a, n, v) {
      NothingMissed(q, a, n, v);
    }
    if Run(q, a, n, map[]).found.Some? {
      FoundIsReaching(q, a, n, map[]);
    }
  }

  /** Of two registers with which a state can be met, one is not followed. */
  lemma WrongWithTwo(p: Chains, a: Node, s: nat, r: nat, q: nat)
    requires p.Valid() && a.state < |p.uses| && Met(p, a, s, r) && Met(p, a, s, q) && r != q
    ensures s < |p.uses| && (!RightFor(p, a, s, r) || !RightFor(p, a, s, q))
  {
    MetIsState(p, a, s, r);
    var now := Run(p, a, |p.uses|, map[]).visited;
    var t := if s in now && now[s] == r then q else r;
    SameRun(p, s, t, a, map[]);
    UserIsReached(p, s, t, a);
  }

  lemma {:induction false} ChainInside(p: Chains, c: seq<Node>, i: nat)
    requires p.Valid() && i < |c| && c[0].state < |p.uses| && AllSteps(p, c)
    ensures c[i].state < |p.uses|
    decreases i
  {
    if i > 0 {
      ChainInside(p, c, i - 1);
      assert StepAt(p, c, i - 1);
      NextIsStep(p, c[i - 1], c[i]);
    }
  }

  lemma MetIsState(p: Chains, a: Node, s: nat, r: nat)
    requires p.Valid() && a.state < |p.uses| && Met(p, a, s, r)
    ensures s < |p.uses|
  {
    var c :| LeadsTo(p, a, c, s, r);
    ChainInside(p, c, |c| - 1);
  }

  // ---- The code ----

  ghost function Answer(found: bool, value: int, visited: map<nat, nat>): Outcome {
    Outcome(if found then Some(value) else None, visited)
  }

  lemma {:induction false} RunConcat(p: Chains, xs: seq<Node>, ys: seq<Node>, goal: nat, visited: map<nat, nat>)
    requires p.Valid() && AllIn(p, xs) && AllIn(p, ys) && visited.Keys <= Ids(|p.uses|)
    ensures RunAll(p, xs + ys, goal, visited) ==
            var r := RunAll(p, xs, goal, visited);
            if r.found.Some? then r else RunAll(p, ys, goal, r.visited)
    decreases |xs|
  {
    if xs == [] {
      assert xs + ys == ys;
    } else {
      assert (xs + ys)[1..] == xs[1..] + ys;
      RunConcat(p, xs[1..], ys, goal, Run(p, xs[0], goal, visited).visited);
    }
  }

  /** `valueReachesLoop`. States are marked in `seen` whatever the register; the ghost map says
      with which register each was visited. */
  method Search(p: Chains, a: Node, goal: nat, seen: set<nat>, ghost visited: map<nat, nat>)
    returns (found: bool, value: int, seen': set<nat>, ghost visited': map<nat, nat>)
    requires p.Valid() && a.state < |p.uses| && seen == visited.Keys && seen <= Ids(|p.uses|)
    ensures Answer(found, value, visited') == Run(p, a, goal, visited) && seen' == visited'.Keys
    decreases Ids(|p.uses|) - seen, 0
  {
    found, value, seen', visited' := false, 0, seen, visited;
    if a.state in seen {
      return;
    }
    seen', visited' := seen + {a.state}, visited[a.state := a.reg];
    var direct := Contains(Get(p.uses[a.state], a.reg), goal);
    if direct {
      return true, a.value, seen', visited';
    }
    assert a.state in Ids(|p.uses|) - seen;
    ghost var start := visited';
    ghost var down := ToUses(p, a, UsesOf(p, a));
    RunConcat(p, down, ToRefs(a, Upstream(p, RefsOf(p, a), a.reg)), goal, start);
    assert RefsOf(p, a)[0..] == RefsOf(p, a);
    found, value, seen', visited' := SearchDown(p, a, goal, seen', visited');
    if found {
      return;
    }
    found, value, seen', visited' := SearchUp(p, a, goal, seen', visited');
  }

  /** The loop over the uses. */
  method SearchDown(p: Chains, a: Node, goal: nat, seen: set<nat>, ghost visited: map<nat, nat>)
    returns (found: bool, value: int, seen': set<nat>, ghost visited': map<nat, nat>)
    requires p.Valid() && a.state < |p.uses| && seen == visited.Keys && seen <= Ids(|p.uses|)
    ensures Answer(found, value, visited') == RunAll(p, ToUses(p, a, UsesOf(p, a)), goal, visited)
    ensures seen' == visited'.Keys
    decreases Ids(|p.uses|) - seen, 3
  {
    var uses := UsesOf(p, a);
    found, value, seen', visited' := false, 0, seen, visited;
    assert uses[0..] == uses;
    for i := 0 to |uses|
      invariant Grows(visited, visited') && seen' == visited'.Keys && seen' <= Ids(|p.uses|)
      invariant RunAll(p, ToUses(p, a, uses[i..]), goal, visited') == RunAll(p, ToUses(p, a, uses), goal, visited)
    {
      assert uses[i..][1..] == uses[i + 1..];
      ghost var here := ToDefs(a, uses[i], p.defs[uses[i]]);
      RunConcat(p, here, ToUses(p, a, uses[i + 1..]), goal, visited');
      found, value, seen', visited' := SearchDefs(p, a, uses[i], goal, seen', visited');
      if found {
        return;
      }
    }
  }

  /** The loop over the definitions of one use. */
  method SearchDefs(p: Chains, a: Node, use: nat, goal: nat, seen: set<nat>, ghost visited: map<nat, nat>)
    returns (found: bool, value: int, seen': set<nat>, ghost visited': map<nat, nat>)
    requires p.Valid() && use < |p.uses| && seen == visited.Keys && seen <= Ids(|p.uses|)
    ensures Answer(found, value, visited') == RunAll(p, ToDefs(a, use, p.defs[use]), goal, visited)
    ensures seen' == visited'.Keys
    decreases Ids(|p.uses|) - seen, 2
  {
    var defs := p.defs[use];
    found, value, seen', visited' := false, 0, seen, visited;
    assert defs[0..] == defs;
    for i := 0 to |defs|
      invariant Grows(visited, visited') && seen' == visited'.Keys && seen' <= Ids(|p.uses|)
      invariant RunAll(p, ToDefs(a, use, defs[i..]), goal, visited') == RunAll(p, ToDefs(a, use, defs), goal, visited)
    {
      assert defs[i..][1..] == defs[i + 1..];
      var d := defs[i];
      if d.tree.None? || CutsRegFlow(d.tree) || !Passes(d.tree.value) {
        continue;
      }
      var b := Node(use, d.reg, Shifted(d.tree.value, a.value));
      assert ToDefs(a, use, defs[i..])[1..] == ToDefs(a, use, defs[i + 1..]);
      found, value, seen', visited' := Search(p, b, goal, seen', visited');
      if found {
        return;
      }
    }
  }

  /** The search from the refs, from `refs[i]` on. */
  ghost function FromRefs(p: Chains, a: Node, refs: seq<nat>, i: nat, goal: nat, visited: map<nat, nat>): (r: Outcome)
    requires p.Valid() && visited.Keys <= Ids(|p.uses|) && i <= |refs|
    requires forall j :: 0 <= j < |refs| ==> refs[j] < |p.uses|
  {
    RunAll(p, ToRefs(a, Upstream(p, refs[i..], a.reg)), goal, visited)
  }

  /** One turn of the loop over the refs. */
  lemma UpNext(p: Chains, a: Node, refs: seq<nat>, i: nat, goal: nat, visited: map<nat, nat>)
    requires p.Valid() && visited.Keys <= Ids(|p.uses|) && i < |refs|
    requires forall j :: 0 <= j < |refs| ==> refs[j] < |p.uses|
    ensures var r := Run(p, Node(refs[i], a.reg, a.value), goal, visited);
            FromRefs(p, a, refs, i, goal, visited) ==
            if r.found.Some? || Cuts(p, refs[i], a.reg) then r else FromRefs(p, a, refs, i + 1, goal, r.visited)
  {
    assert refs[i..][1..] == refs[i + 1..];
    var up := ToRefs(a, Upstream(p, refs[i..], a.reg));
    assert up[0] == Node(refs[i], a.reg, a.value);
    if Cuts(p, refs[i], a.reg) {
      assert up[1..] == [];
      var r := Run(p, up[0], goal, visited);
      assert RunAll(p, [], goal, r.visited) == Outcome(None, r.visited);
    } else {
      assert up[1..] == ToRefs(a, Upstream(p, refs[i + 1..], a.reg));
    }
  }

  /** The loop over the refs. */
  method SearchUp(p: Chains, a: Node, goal: nat, seen: set<nat>, ghost visited: map<nat, nat>)
    returns (found: bool, value: int, seen': set<nat>, ghost visited': map<nat, nat>)
    requires p.Valid() && a.state < |p.uses| && seen == visited.Keys && seen <= Ids(|p.uses|)
    ensures Answer(found, value, visited') == FromRefs(p, a, RefsOf(p, a), 0, goal, visited)
    ensures seen' == visited'.Keys
    decreases Ids(|p.uses|) - seen, 3
  {
    var refs := RefsOf(p, a);
    found, value, seen', visited' := false, 0, seen, visited;
    for i := 0 to |refs|
      invariant Grows(visited, visited') && seen' == visited'.Keys && seen' <= Ids(|p.uses|)
      invariant FromRefs(p, a, refs, i, goal, visited') == FromRefs(p, a, refs, 0, goal, visited)
    {
      UpNext(p, a, refs, i, goal, visited');
      found, value, seen', visited' := Search(p, Node(refs[i], a.reg, a.value), goal, seen', visited');
      if found {
        return;
      }
      if Cuts(p, refs[i], a.reg) {
        return;
      }
    }
  }

  /** `valueReaches`: a bound that it reports has a chain of steps behind it. It finds one whenever
      there is one, provided no state can be met with two registers. */
  method ValueReaches(p: Chains, state: nat, reg: nat, goal: nat, bound: int) returns (found: bool, bound': int)
    requires p.Valid() && state < |p.uses|
    ensures var r := Run(p, Node(state, reg, bound), goal, map[]).found;
            found == r.Some? && bound' == if found then r.value else bound
    ensures found ==> Reaching(p, Node(state, reg, bound), goal, bound')
    ensures OneRegisterEach(p, Node(state, reg, bound)) ==>
              (found <==> exists v: int :: Reaching(p, Node(state, reg, bound), goal, v))
  {
    ghost var a := Node(state, reg, bound);
    var value, seen;
    ghost var visited;
    found, value, seen, visited := Search(p, Node(state, reg, bound), goal, {}, map[]);
    bound' := if found then value else bound;
    if found {
      FoundIsReaching(p, a, goal, map[]);
    }
    if OneRegisterEach(p, a) {
      if v: int :| Reaching(p, a, goal, v) {
        NothingMissed(p, a, goal, v);
      }
    }
  }

  // ---- A bound that is shifted ----

  /** State 0 defines a register, state 1 shifts it right, and state 2 uses it. */
  function ShiftedRight(reg: nat, k: int): Chains {
    Chains([map[reg := [1]], map[reg := [2]], map[]], [map[], map[reg := [0]], map[reg := [1]]],
           [[Definition(reg, None)], [Definition(reg, Some(Binary(">>", Physical(reg, 8), Constant(k))))], []])
  }

  lemma ShiftedNext(p: Chains, reg: nat, k: int, bound: int)
    requires p == ShiftedRight(reg, k)
    ensures p.Valid() && Next(p, Node(0, reg, bound)) != []
    ensures Next(p, Node(0, reg, bound))[0] == Node(1, reg, ShiftRight(bound, k))
  {
    var a, b := Node(0, reg, bound), Node(1, reg, ShiftRight(bound, k));
    assert p.Valid() && UsesOf(p, a) == [1];
    assert p.defs[1][1..] == [] && [1][1..] == [];
    assert ToDefs(a, 1, p.defs[1]) == [b];
    assert ToUses(p, a, [1])[0] == b;
  }

  /** A goal that uses what the first step leads to. */
  lemma FoundAtFirst(p: Chains, a: Node, b: Node, goal: nat)
    requires p.Valid() && a.state < |p.uses| && Next(p, a) != [] && Next(p, a)[0] == b && b.state != a.state
    requires goal !in Get(p.uses[a.state], a.reg) && goal in Get(p.uses[b.state], b.reg)
    ensures Run(p, a, goal, map[]).found == Some(b.value)
  {
    RunGoesOn(p, a, goal, map[]);
  }

  /** The bound at state 0 reaches state 2 divided. */
  method ShiftDivides(reg: nat, k: int, bound: int) returns (found: bool, bound': int)
    ensures found && bound' == bound / Pow2(k)
  {
    var p := ShiftedRight(reg, k);
    ShiftedNext(p, reg, k, bound);
    FoundAtFirst(p, Node(0, reg, bound), Node(1, reg, ShiftRight(bound, k)), 2);
    found, bound' := ValueReaches(p, 0, reg, 2, bound);
    ShiftRightIs(bound, k);
  }
}
