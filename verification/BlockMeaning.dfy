/** Blocks of actual instructions: when every order that src/pass/reorderpush.cpp can produce computes
    the same state as the block itself. */
module BlockMeaning {
  import opened Graphs
  import opened Footprints
  import opened KillMap
  import opened ReachingDef
  import opened Reorder

  datatype Instruction = Instruction(op: Op, operands: Operands) {
    /** `movabs` is only ever given an immediate and a register. */
    predicate Encodable() {
      OperandsFit(operands) && (op.Movabs? ==> operands.ImmReg?)
    }

    function Footprint(): Footprint
      requires Encodable()
    {
      Declared(op, operands)
    }

    predicate IsKnown() {
      Known(op, operands)
    }

    predicate PopsToMemory() {
      op.Pop? && operands.OneMem?
    }

    function LoadSet(): set<nat> {
      Loads(op, operands)
    }

    function StoreSet(): set<nat> {
      Stores(op, operands)
    }
  }

  predicate AllEncodable(block: seq<Instruction>) {
    forall i :: 0 <= i < |block| ==> block[i].Encodable()
  }

  function DeclaredBlock(block: seq<Instruction>): (fps: seq<Footprint>)
    requires AllEncodable(block)
  {
    seq(|block|, i requires 0 <= i < |block| => block[i].Footprint())
  }

  /** The analysis accepts exactly the blocks without `pop %rsp`. */
  lemma OnlyPopSpIsRejected(block: seq<Instruction>)
    requires AllEncodable(block)
    ensures AllInRange(DeclaredBlock(block))
    ensures SomeWritesTwice(DeclaredBlock(block)) <==> Instruction(Pop, OneReg(SP)) in block
  {
    var fps := DeclaredBlock(block);
    forall i | 0 <= i < |block|
      ensures InRange(fps[i])
      ensures (fps[i].Accesses? && WritesTwice(fps[i].list)) <==> block[i] == Instruction(Pop, OneReg(SP))
    {
      DeclaredInRange(block[i].op, block[i].operands);
      OnlyPopSpWritesTwice(block[i].op, block[i].operands);
    }
  }

  // ---- What actual instructions do ----

  ghost predicate SameAt<V>(locs: set<nat>, s: seq<V>, t: seq<V>)
    requires IsState(s) && IsState(t)
  {
    forall l: nat :: l in locs && l < LOCATIONS ==> s[l] == t[l]
  }

  /** An effect that changes only `stores`, depending only on `loads` and `stores`. */
  ghost predicate WithinAccesses<V(!new)>(loads: set<nat>, stores: set<nat>, run: seq<V> -> seq<V>) {
    && (forall s :: IsState(s) ==> IsState(run(s)))
    && (forall s, l: nat :: IsState(s) && l < LOCATIONS && l !in stores ==> run(s)[l] == s[l])
    && (forall s, t, l: nat :: IsState(s) && IsState(t) && l < LOCATIONS && l in stores && SameAt(loads + stores, s, t)
          ==> run(s)[l] == run(t)[l])
  }

  /** What an instruction may do: stay within its accesses, or anything if they are not known. */
  ghost predicate RealEffect<V(!new)>(instr: Instruction, run: seq<V> -> seq<V>)
    requires instr.Encodable()
  {
    if instr.IsKnown() then WithinAccesses(instr.LoadSet(), instr.StoreSet(), run)
    else forall s :: IsState(s) ==> IsState(run(s))
  }

  ghost predicate RealEffects<V(!new)>(block: seq<Instruction>, runs: seq<seq<V> -> seq<V>>)
    requires AllEncodable(block)
  {
    |runs| == |block| && forall i :: 0 <= i < |block| ==> RealEffect(block[i], runs[i])
  }

  /** In this order the block computes what it computes as it stands. */
  ghost predicate KeepsMeaning<V(!new)>(block: seq<Instruction>, order: seq<nat>)
    requires AllEncodable(block) && Within(order, |block|)
  {
    forall runs: seq<seq<V> -> seq<V>>, s: seq<V> :: RealEffects(block, runs) && IsState(s) ==>
      Execute(runs, order, s) == Execute(runs, Original(|block|), s)
  }

  // ---- Which pairs really conflict ----

  ghost predicate ClashAt(a: Instruction, b: Instruction, l: nat) {
    && l < LOCATIONS
    && (|| (l in a.StoreSet() && l in b.LoadSet() + b.StoreSet())
        || (l in a.LoadSet() + a.StoreSet() && l in b.StoreSet()))
  }

  /** One stores what the other accesses, or one may access anything. */
  ghost predicate RealConflict(a: Instruction, b: Instruction)
    requires a.Encodable() && b.Encodable()
  {
    !a.IsKnown() || !b.IsKnown() || exists l: nat :: ClashAt(a, b, l)
  }

  /** Every two instructions that really conflict are linked by declared conflicts. */
  ghost predicate Ordered(block: seq<Instruction>)
    requires AllEncodable(block)
  {
    forall i: nat, j: nat :: i < j < |block| && RealConflict(block[i], block[j]) ==>
      ConflictChain(DeclaredBlock(block), j, i)
  }

  /** The accesses below `n` as a list of declarations. */
  function Listed(loads: set<nat>, stores: set<nat>, n: nat): (list: seq<Access>)
    ensures forall l: nat :: Read(l) in list <==> l < n && l in loads
    ensures forall l: nat :: Write(l) in list <==> l < n && l in stores
  {
    if n == 0 then []
    else
      (if n - 1 in loads then [Read(n - 1)] else []) + (if n - 1 in stores then [Write(n - 1)] else [])
      + Listed(loads, stores, n - 1)
  }

  /** What a handler should declare. */
  function RealFootprint(instr: Instruction): Footprint
    requires instr.Encodable()
  {
    if !instr.IsKnown() then Barrier
    else Accesses(Listed(instr.LoadSet(), instr.StoreSet(), LOCATIONS))
  }

  lemma RealIsAdequate<V(!new)>(instr: Instruction, run: seq<V> -> seq<V>)
    requires instr.Encodable() && RealEffect(instr, run)
    ensures Adequate(RealFootprint(instr), run)
  {
    var fp := RealFootprint(instr);
    if fp.Accesses? {
      forall s, t, l | IsState(s) && IsState(t) && AgreeOn(fp, s, t) && 0 <= l < LOCATIONS && Writes(fp, l)
        ensures run(s)[l] == run(t)[l]
      {
        assert SameAt(instr.LoadSet() + instr.StoreSet(), s, t) by {
          assert forall q: nat :: q in instr.LoadSet() + instr.StoreSet() && q < LOCATIONS ==> Touches(fp, q);
        }
      }
    }
  }

  lemma ListedClash(loads: set<nat>, stores: set<nat>, loads': set<nat>, stores': set<nat>, l: nat)
    requires Clash(Accesses(Listed(loads, stores, LOCATIONS)), Accesses(Listed(loads', stores', LOCATIONS)), l)
    ensures l < LOCATIONS && ((l in stores && l in loads' + stores') || (l in loads + stores && l in stores'))
  {
  }

  lemma ConflictIsReal(a: Instruction, b: Instruction)
    requires a.Encodable() && b.Encodable() && Conflict(RealFootprint(a), RealFootprint(b))
    ensures RealConflict(a, b)
  {
    if a.IsKnown() && b.IsKnown() {
      var l: nat :| Clash(RealFootprint(a), RealFootprint(b), l);
      RealClash(a, b, l);
    }
  }

  lemma RealClash(a: Instruction, b: Instruction, l: nat)
    requires Clash(Accesses(Listed(a.LoadSet(), a.StoreSet(), LOCATIONS)),
                   Accesses(Listed(b.LoadSet(), b.StoreSet(), LOCATIONS)), l)
    ensures ClashAt(a, b, l)
  {
    ListedClash(a.LoadSet(), a.StoreSet(), b.LoadSet(), b.StoreSet(), l);
  }

  // ---- Ordered blocks keep their meaning ----

  lemma OrderedIsSafe(block: seq<Instruction>, order: seq<nat>, actual: seq<Footprint>)
    requires AllEncodable(block) && Ordered(block) && SafeOrder(DeclaredBlock(block), order)
    requires |actual| == |block| && forall i :: 0 <= i < |block| ==> actual[i] == RealFootprint(block[i])
    ensures SafeOrder(actual, order)
  {
    var fps := DeclaredBlock(block);
    forall a, b | 0 <= a < b < |order| && order[b] < order[a] ensures !Conflict(actual[order[b]], actual[order[a]]) {
      var x, y := order[a], order[b];
      if Conflict(actual[y], actual[x]) {
        ConflictIsReal(block[y], block[x]);
        ChainPrecedes(fps, order, x, y);
      }
    }
  }

  lemma OrderedKeepsMeaning<V(!new)>(block: seq<Instruction>, order: seq<nat>)
    requires AllEncodable(block) && Ordered(block) && SafeOrder(DeclaredBlock(block), order)
    ensures KeepsMeaning<V>(block, order)
  {
    var actual := seq(|block|, i requires 0 <= i < |block| => RealFootprint(block[i]));
    OrderedIsSafe(block, order, actual);
    forall runs: seq<seq<V> -> seq<V>>, s: seq<V> | RealEffects(block, runs) && IsState(s)
      ensures Execute(runs, order, s) == Execute(runs, Original(|block|), s)
    {
      forall i | 0 <= i < |block| ensures Adequate(actual[i], runs[i]) {
        RealIsAdequate(block[i], runs[i]);
      }
      SafeOrderKeepsMeaning(actual, order, runs, s);
    }
  }

  // ---- Other blocks do not ----

  ghost predicate LinkedTo(fps: seq<Footprint>, j: nat, k: nat)
    requires j < |fps|
  {
    k < j && ConflictChain(fps, j, k)
  }

  /** The ids below `n` other than `j` that are linked to `j` by conflicts, or those that are not. */
  ghost function Those(fps: seq<Footprint>, j: nat, linked: bool, n: nat): (q: seq<nat>)
    requires j < |fps|
    ensures Ascending(q) && forall k: nat :: k in q <==> k < n && k != j && LinkedTo(fps, j, k) == linked
  {
    if n == 0 then []
    else
      var q := Those(fps, j, linked, n - 1);
      assert forall a :: 0 <= a < |q| ==> q[a] in q;
      if n - 1 != j && LinkedTo(fps, j, n - 1) == linked then q + [n - 1] else q
  }

  /** First what `j` is linked to by conflicts, then `j`, then the rest. */
  ghost function Early(fps: seq<Footprint>, j: nat): (order: seq<nat>)
    requires j < |fps|
  {
    Those(fps, j, true, |fps|) + [j] + Those(fps, j, false, |fps|)
  }

  /** A conflict with something `j` is linked to is a link to `j`. */
  lemma {:induction false} ChainExtends(fps: seq<Footprint>, j: nat, k: nat, r: nat)
    requires r < k < j < |fps| && ConflictChain(fps, j, k) && Conflict(fps[r], fps[k])
    ensures ConflictChain(fps, j, r)
    decreases j
  {
    var m :| 0 <= m < j && Conflict(fps[m], fps[j]) && (m == k || ConflictChain(fps, m, k));
    if m != k {
      ChainBackward(fps, m, k);
      ChainExtends(fps, m, k, r);
    } else {
      assert ConflictChain(fps, k, r);
    }
  }

  lemma {:induction false} ChainBackward(fps: seq<Footprint>, j: nat, k: nat)
    requires j < |fps| && ConflictChain(fps, j, k)
    ensures k < j
    decreases j
  {
    var m :| 0 <= m < j && Conflict(fps[m], fps[j]) && (m == k || ConflictChain(fps, m, k));
    if m != k {
      ChainBackward(fps, m, k);
    }
  }

  /** Where an element of a list in three parts comes from. */
  lemma ThreeParts(before: seq<nat>, j: nat, after: seq<nat>, a: nat)
    requires a < |before| + 1 + |after|
    ensures var order := before + [j] + after;
            if a < |before| then order[a] == before[a] && order[a] in before
            else if a == |before| then order[a] == j
            else order[a] == after[a - |before| - 1] && order[a] in after
  {
  }

  lemma PartsDistinct(before: seq<nat>, j: nat, after: seq<nat>)
    requires Ascending(before) && Ascending(after) && j !in before && j !in after
    requires forall k: nat :: k in before ==> k !in after
    ensures Distinct(before + [j] + after)
  {
    var order := before + [j] + after;
    forall a, b | 0 <= a < b < |order| ensures order[a] != order[b] {
      ThreeParts(before, j, after, a);
      ThreeParts(before, j, after, b);
    }
  }

  lemma EarlyIsPermutation(fps: seq<Footprint>, j: nat)
    requires j < |fps|
    ensures Distinct(Early(fps, j)) && Elements(Early(fps, j)) == Ids(|fps|) && Within(Early(fps, j), |fps|)
  {
    var before, after := Those(fps, j, true, |fps|), Those(fps, j, false, |fps|);
    PartsDistinct(before, j, after);
    forall a: nat | a < |Early(fps, j)| ensures Early(fps, j)[a] < |fps| {
      ThreeParts(before, j, after, a);
    }
  }

  lemma EarlyIsSafe(fps: seq<Footprint>, j: nat)
    requires j < |fps|
    ensures SafeOrder(fps, Early(fps, j))
  {
    var before, after := Those(fps, j, true, |fps|), Those(fps, j, false, |fps|);
    var order := Early(fps, j);
    EarlyIsPermutation(fps, j);
    forall a, b | 0 <= a < b < |order| && order[b] < order[a] ensures !Conflict(fps[order[b]], fps[order[a]]) {
      ThreeParts(before, j, after, a);
      ThreeParts(before, j, after, b);
      assert order[a] == j || LinkedTo(fps, j, order[a]);
      assert !LinkedTo(fps, j, order[b]);
      NotLinked(fps, j, order[a], order[b]);
    }
  }

  lemma NotLinked(fps: seq<Footprint>, j: nat, x: nat, y: nat)
    requires y < x <= j < |fps| && (x == j || LinkedTo(fps, j, x)) && !LinkedTo(fps, j, y)
    ensures !Conflict(fps[y], fps[x])
  {
    if Conflict(fps[y], fps[x]) && x != j {
      ChainExtends(fps, j, x, y);
    }
  }

  lemma EarlyPutsFirst(fps: seq<Footprint>, i: nat, j: nat)
    requires i < j < |fps| && !ConflictChain(fps, j, i)
    ensures Precedes(Early(fps, j), j, i)
  {
    var before, after := Those(fps, j, true, |fps|), Those(fps, j, false, |fps|);
    assert i in after;
    var a :| 0 <= a < |after| && after[a] == i;
    assert Early(fps, j)[|before|] == j && Early(fps, j)[|before| + 1 + a] == i;
  }

  // ---- Running two instructions among idle ones ----

  ghost predicate Idle<V(!new)>(run: seq<V> -> seq<V>) {
    forall s :: run(s) == s
  }

  lemma {:induction false} IdleDoesNothing<V(!new)>(runs: seq<seq<V> -> seq<V>>, p: seq<nat>, s: seq<V>)
    requires Within(p, |runs|) && forall k :: 0 <= k < |p| ==> Idle(runs[p[k]])
    ensures Execute(runs, p, s) == s
    decreases |p|
  {
    if p != [] {
      assert Idle(runs[p[0]]);
      IdleDoesNothing(runs, p[1..], s);
    }
  }

  /** Everything before place `a` is idle. */
  lemma {:induction false} RunsFrom<V(!new)>(runs: seq<seq<V> -> seq<V>>, order: seq<nat>, a: nat, s: seq<V>)
    requires Within(order, |runs|) && a < |order| && forall k :: 0 <= k < a ==> Idle(runs[order[k]])
    ensures Execute(runs, order, s) == Execute(runs, order[a + 1..], runs[order[a]](s))
    decreases a
  {
    if a > 0 {
      var tail := order[1..];
      assert Idle(runs[order[0]]) && tail[a - 1] == order[a] && tail[a..] == order[a + 1..];
      RunsFrom(runs, tail, a - 1, s);
    }
  }

  lemma OnlyOneRuns<V(!new)>(runs: seq<seq<V> -> seq<V>>, order: seq<nat>, a: nat, s: seq<V>)
    requires Within(order, |runs|) && a < |order| && forall k :: 0 <= k < |order| && k != a ==> Idle(runs[order[k]])
    ensures Execute(runs, order, s) == runs[order[a]](s)
  {
    RunsFrom(runs, order, a, s);
    IdleDoesNothing(runs, order[a + 1..], runs[order[a]](s));
  }

  ghost predicate IdleExcept<V(!new)>(runs: seq<seq<V> -> seq<V>>, i: nat, j: nat) {
    i < |runs| && j < |runs| && forall k: nat :: k < |runs| && k != i && k != j ==> Idle(runs[k])
  }

  /** Only `i` and `j` do something, and `i` comes first. */
  lemma OnlyTwoRun<V(!new)>(runs: seq<seq<V> -> seq<V>>, order: seq<nat>, i: nat, j: nat, s: seq<V>)
    requires Distinct(order) && Within(order, |runs|) && Precedes(order, i, j) && IdleExcept(runs, i, j)
    ensures Execute(runs, order, s) == runs[j](runs[i](s))
  {
    var a, b :| 0 <= a < b < |order| && order[a] == i && order[b] == j;
    forall k | 0 <= k < |order| && k != a && k != b ensures Idle(runs[order[k]]) {
    }
    TwoRunAt(runs, order, a, b, s);
  }

  lemma TwoRunAt<V(!new)>(runs: seq<seq<V> -> seq<V>>, order: seq<nat>, a: nat, b: nat, s: seq<V>)
    requires Within(order, |runs|) && a < b < |order|
    requires forall k :: 0 <= k < |order| && k != a && k != b ==> Idle(runs[order[k]])
    ensures Execute(runs, order, s) == runs[order[b]](runs[order[a]](s))
  {
    var rest, c := order[a + 1..], b - a - 1;
    RunsFrom(runs, order, a, s);
    forall k | 0 <= k < |rest| && k != c ensures Idle(runs[rest[k]]) {
      assert rest[k] == order[a + 1 + k];
    }
    OnlyOneRuns(runs, rest, c, runs[order[a]](s));
  }

  // ---- Effects that show a conflict ----

  /** Puts `v` at `l`. */
  ghost function Put<V>(l: nat, v: V): seq<V> -> seq<V> {
    (s: seq<V>) => if l < |s| then s[l := v] else s
  }

  /** Copies `from` to `to`. */
  ghost function Copy<V>(from: nat, to: nat): seq<V> -> seq<V> {
    (s: seq<V>) => if from < |s| && to < |s| then s[to := s[from]] else s
  }

  lemma PutIsReal<V(!new)>(instr: Instruction, l: nat, v: V)
    requires instr.Encodable() && l in instr.StoreSet()
    ensures RealEffect(instr, Put(l, v))
  {
  }

  lemma CopyIsReal<V(!new)>(instr: Instruction, from: nat, to: nat)
    requires instr.Encodable() && from in instr.LoadSet() && to in instr.StoreSet()
    ensures RealEffect(instr, Copy<V>(from, to))
  {
    var run := Copy<V>(from, to);
    forall s: seq<V>, t: seq<V>, l: nat
      | IsState(s) && IsState(t) && l < LOCATIONS && l in instr.StoreSet() &&
          SameAt(instr.LoadSet() + instr.StoreSet(), s, t)
      ensures run(s)[l] == run(t)[l]
    {
      assert l in instr.LoadSet() + instr.StoreSet() && from in instr.LoadSet() + instr.StoreSet();
    }
  }

  /** Two effects whose order can be told from the state they leave. */
  ghost predicate Differ<V(!new)>(a: Instruction, b: Instruction, runA: seq<V> -> seq<V>, runB: seq<V> -> seq<V>,
                                  s: seq<V>)
    requires a.Encodable() && b.Encodable()
  {
    RealEffect(a, runA) && RealEffect(b, runB) && IsState(s) && runB(runA(s)) != runA(runB(s))
  }

  /** Both store `l`. */
  lemma StoreStoreDiffers<V(!new)>(a: Instruction, b: Instruction, l: nat, x: V, y: V, s: seq<V>)
    requires a.Encodable() && b.Encodable() && l < LOCATIONS && l in a.StoreSet() && l in b.StoreSet()
    requires x != y && IsState(s)
    ensures Differ(a, b, Put(l, x), Put(l, y), s)
  {
    PutIsReal(a, l, x);
    PutIsReal(b, l, y);
    assert Put(l, y)(Put(l, x)(s))[l] == y && Put(l, x)(Put(l, y)(s))[l] == x;
  }

  /** One stores `l`, the other loads it and stores `to`. */
  lemma StoreLoadDiffers<V(!new)>(a: Instruction, b: Instruction, l: nat, to: nat, x: V, s: seq<V>)
    requires a.Encodable() && b.Encodable() && l < LOCATIONS && to < LOCATIONS && l != to
    requires l in a.StoreSet() && l in b.LoadSet() && to in b.StoreSet() && IsState(s) && s[l] != x
    ensures Differ(a, b, Put(l, x), Copy(l, to), s) && Differ(b, a, Copy(l, to), Put(l, x), s)
  {
    PutIsReal(a, l, x);
    CopyIsReal<V>(b, l, to);
    assert Copy(l, to)(Put(l, x)(s))[to] == x && Put(l, x)(Copy(l, to)(s))[to] == s[l];
  }

  /** Any two that really conflict, and are known, can be told apart. */
  lemma ConflictDiffers<V(!new)>(a: Instruction, b: Instruction, x: V, y: V)
    returns (runA: seq<V> -> seq<V>, runB: seq<V> -> seq<V>, s: seq<V>)
    requires a.Encodable() && b.Encodable() && a.IsKnown() && b.IsKnown() && x != y
    requires RealConflict(a, b)
    ensures Differ(a, b, runA, runB, s)
  {
    var l: nat :| ClashAt(a, b, l);
    s := seq(LOCATIONS, _ => y);
    if common: nat :| common < LOCATIONS && common in a.StoreSet() && common in b.StoreSet() {
      runA, runB := Put(common, x), Put(common, y);
      StoreStoreDiffers(a, b, common, x, y, s);
    } else if l in a.StoreSet() {
      var to := SomethingIsStored(b.op, b.operands);
      runA, runB := Put(l, x), Copy(l, to);
      StoreLoadDiffers(a, b, l, to, x, s);
    } else {
      var to := SomethingIsStored(a.op, a.operands);
      runA, runB := Copy(l, to), Put(l, x);
      StoreLoadDiffers(b, a, l, to, x, s);
    }
  }

  /** The two effects at `i` and `j`, and nothing elsewhere. */
  ghost function TwoEffects<V>(n: nat, i: nat, j: nat, runI: seq<V> -> seq<V>,
                               runJ: seq<V> -> seq<V>): (runs: seq<seq<V> -> seq<V>>)
    ensures |runs| == n
    ensures forall k :: 0 <= k < n ==> runs[k] == if k == i then runI else if k == j then runJ else ((s: seq<V>) => s)
  {
    seq(n, k => if k == i then runI else if k == j then runJ else ((s: seq<V>) => s))
  }

  lemma IdleIsReal<V(!new)>(instr: Instruction)
    requires instr.Encodable()
    ensures RealEffect(instr, (s: seq<V>) => s)
  {
    var stores, all := instr.StoreSet(), instr.LoadSet() + instr.StoreSet();
    forall s: seq<V>, t: seq<V>, l: nat | IsState(s) && IsState(t) && l < LOCATIONS && l in stores && SameAt(all, s, t)
      ensures s[l] == t[l]
    {
      assert l in all;
    }
  }

  /** Two instructions that really conflict but are not linked: the later one can run first, and
      then the block computes something else. */
  lemma UnlinkedBreaks<V(!new)>(block: seq<Instruction>, i: nat, j: nat, x: V, y: V)
    requires AllEncodable(block) && i < j < |block| && RealConflict(block[i], block[j]) && x != y
    requires !ConflictChain(DeclaredBlock(block), j, i)
    ensures SafeOrder(DeclaredBlock(block), Early(DeclaredBlock(block), j))
    ensures !KeepsMeaning<V>(block, Early(DeclaredBlock(block), j))
  {
    var fps := DeclaredBlock(block);
    EarlyIsSafe(fps, j);
    EarlyPutsFirst(fps, i, j);
    NoBarrier(block, i, j);
    var runI, runJ, s := ConflictDiffers(block[i], block[j], x, y);
    TwoEffectsReal(block, i, j, runI, runJ);
    TwoEffectsDiffer(|block|, Early(fps, j), i, j, runI, runJ, s);
  }

  lemma TwoEffectsReal<V(!new)>(block: seq<Instruction>, i: nat, j: nat, runI: seq<V> -> seq<V>, runJ: seq<V> -> seq<V>)
    requires AllEncodable(block) && i < j < |block| && RealEffect(block[i], runI) && RealEffect(block[j], runJ)
    ensures RealEffects(block, TwoEffects(|block|, i, j, runI, runJ))
  {
    var runs := TwoEffects(|block|, i, j, runI, runJ);
    forall k | 0 <= k < |block| ensures RealEffect(block[k], runs[k]) {
      IdleIsReal<V>(block[k]);
    }
  }

  lemma TwoEffectsDiffer<V(!new)>(n: nat, order: seq<nat>, i: nat, j: nat, runI: seq<V> -> seq<V>,
                                  runJ: seq<V> -> seq<V>, s: seq<V>)
    requires i < j < n && Distinct(order) && Within(order, n) && Precedes(order, j, i) && runJ(runI(s)) != runI(runJ(s))
    ensures var runs := TwoEffects(n, i, j, runI, runJ);
            Execute(runs, order, s) != Execute(runs, Original(n), s)
  {
    var runs := TwoEffects(n, i, j, runI, runJ);
    assert IdleExcept(runs, i, j) && IdleExcept(runs, j, i);
    OriginalPrecedes(n, i, j);
    OnlyTwoRun(runs, order, j, i, s);
    OnlyTwoRun(runs, Original(n), i, j, s);
  }

  lemma OriginalPrecedes(n: nat, i: nat, j: nat)
    requires i < j < n
    ensures Precedes(Original(n), i, j) && Distinct(Original(n)) && Within(Original(n), n)
  {
    assert Original(n)[i] == i && Original(n)[j] == j;
  }

  /** With a barrier the conflict is declared. */
  lemma NoBarrier(block: seq<Instruction>, i: nat, j: nat)
    requires AllEncodable(block) && i < j < |block| && !ConflictChain(DeclaredBlock(block), j, i)
    ensures block[i].IsKnown() && block[j].IsKnown()
  {
    var fps := DeclaredBlock(block);
    assert !Conflict(fps[i], fps[j]);
    KnownIsDeclared(block[i].op, block[i].operands);
    KnownIsDeclared(block[j].op, block[j].operands);
    if block[j].IsKnown() {
      var _ := SomethingIsStored(block[j].op, block[j].operands);
    }
  }

  /** Exactly the ordered blocks keep their meaning in every safe order. */
  lemma MeaningExactly<V(!new)>(block: seq<Instruction>, x: V, y: V)
    requires AllEncodable(block) && x != y
    ensures (forall order :: SafeOrder(DeclaredBlock(block), order) ==> KeepsMeaning<V>(block, order))
       <==> Ordered(block)
  {
    if Ordered(block) {
      forall order | SafeOrder(DeclaredBlock(block), order) ensures KeepsMeaning<V>(block, order) {
        OrderedKeepsMeaning<V>(block, order);
      }
    } else {
      var i: nat, j: nat :| i < j < |block| && RealConflict(block[i], block[j]) &&
        !ConflictChain(DeclaredBlock(block), j, i);
      UnlinkedBreaks(block, i, j, x, y);
    }
  }

  // ---- Only pops into memory matter ----

  /** A real conflict that is not declared is at memory, and one of the two pops into it. */
  lemma OnlyPopsAreNotDeclared(a: Instruction, b: Instruction)
    requires a.Encodable() && b.Encodable() && RealConflict(a, b) && !Conflict(a.Footprint(), b.Footprint())
    ensures a.PopsToMemory() || b.PopsToMemory()
    ensures forall l: nat :: ClashAt(a, b, l) ==> l == MEMORY_REG
  {
    KnownIsDeclared(a.op, a.operands);
    KnownIsDeclared(b.op, b.operands);
    forall l: nat | ClashAt(a, b, l) && l != MEMORY_REG ensures false {
      AccessIsDeclared(a, l);
      AccessIsDeclared(b, l);
      UndeclaredNoClash(a, b, l);
    }
    if a.Footprint().Barrier? {
      if b.IsKnown() {
        var _ := SomethingIsStored(b.op, b.operands);
      }
    } else {
      var l: nat :| ClashAt(a, b, l);
      AccessIsDeclared(a, l);
      AccessIsDeclared(b, l);
      UndeclaredNoClash(a, b, l);
    }
  }

  ghost predicate DeclaredAt(i: Instruction, l: nat)
    requires i.Encodable()
  {
    i.Footprint().Accesses? ==>
      (l in i.StoreSet() ==> Writes(i.Footprint(), l)) && (l in i.LoadSet() ==> Touches(i.Footprint(), l))
  }

  lemma AccessIsDeclared(i: Instruction, l: nat)
    requires i.Encodable()
    ensures !i.PopsToMemory() || l != MEMORY_REG ==> DeclaredAt(i, l)
  {
    OnlyPopToMemoryIsNotCovered(i.op, i.operands);
    if i.PopsToMemory() {
      AddressCovered(i.operands.mem);
    }
  }

  lemma UndeclaredNoClash(a: Instruction, b: Instruction, l: nat)
    requires a.Encodable() && b.Encodable() && !Conflict(a.Footprint(), b.Footprint()) && ClashAt(a, b, l)
    requires a.Footprint().Accesses? && b.Footprint().Accesses?
    ensures !DeclaredAt(a, l) || !DeclaredAt(b, l)
  {
    assert !Clash(a.Footprint(), b.Footprint(), l);
  }

  /** So a block that never pops into memory keeps its meaning in every order the pass can produce. */
  lemma BlockKeepsMeaning<V(!new)>(block: seq<Instruction>, order: seq<nat>)
    requires AllEncodable(block) && SafeOrder(DeclaredBlock(block), order)
    requires forall i :: 0 <= i < |block| ==> !block[i].PopsToMemory()
    ensures Ordered(block) && KeepsMeaning<V>(block, order)
  {
    var fps := DeclaredBlock(block);
    forall i: nat, j: nat | i < j < |block| && RealConflict(block[i], block[j]) ensures ConflictChain(fps, j, i) {
      if !Conflict(fps[i], fps[j]) {
        OnlyPopsAreNotDeclared(block[i], block[j]);
      }
    }
    OrderedKeepsMeaning<V>(block, order);
  }

  /** Memory that is addressed without the stack pointer and without `d`. */
  predicate Apart(m: Memory, d: nat) {
    MemoryFits(m) && IsRegister(d) && d != SP && Read(d) !in AddressReads(m) && Read(SP) !in AddressReads(m)
  }

  function PopThenLoad(m: Memory, d: nat): (block: seq<Instruction>)
    requires Apart(m, d)
    ensures AllEncodable(block)
  {
    [Instruction(Pop, OneMem(m)), Instruction(Mov, MemReg(m, d))]
  }

  lemma PopThenLoadIsFree(m: Memory, d: nat)
    requires Apart(m, d)
    ensures SafeOrder(DeclaredBlock(PopThenLoad(m, d)), [1, 0])
  {
    var fps := DeclaredBlock(PopThenLoad(m, d));
    forall l: nat ensures !Clash(fps[0], fps[1], l) {
      PopThenLoadNoClash(m, d, l);
    }
    assert !Conflict(fps[0], fps[1]);
    assert Elements([1, 0]) == Ids(2);
  }

  /** A load moves before a pop into the memory it loads: the pass may choose that order, and with
      these effects of the two instructions every start leads to another result. */
  lemma PopThenLoadBreaks(m: Memory, d: nat, s: seq<int>)
    requires Apart(m, d) && IsState(s)
    ensures SafeOrder(DeclaredBlock(PopThenLoad(m, d)), [1, 0])
    ensures var runs := TwoEffects(2, 0, 1, Put(MEMORY_REG, s[MEMORY_REG] + 1), Copy(MEMORY_REG, d));
            RealEffects(PopThenLoad(m, d), runs) && Execute(runs, [1, 0], s) != Execute(runs, Original(2), s)
  {
    var block, store, load := PopThenLoad(m, d), Put(MEMORY_REG, s[MEMORY_REG] + 1), Copy<int>(MEMORY_REG, d);
    PopThenLoadIsFree(m, d);
    StoreLoadDiffers(block[0], block[1], MEMORY_REG, d, s[MEMORY_REG] + 1, s);
    TwoEffectsReal(block, 0, 1, store, load);
    assert [1, 0][0] == 1 && [1, 0][1] == 0;
    TwoEffectsDiffer(2, [1, 0], 0, 1, store, load, s);
  }

  lemma PopThenLoadNoClash(m: Memory, d: nat, l: nat)
    requires Apart(m, d)
    ensures !Clash(Declared(Pop, OneMem(m)), Declared(Mov, MemReg(m, d)), l)
  {
  }

  /** Yet a pop into memory does no harm where other conflicts keep its place: here the loaded
      register is also the address of the pop. */
  lemma PopCanBeOrdered(block: seq<Instruction>, d: nat)
    requires IsRegister(d) && d != SP
    requires block == [Instruction(Pop, OneMem(Memory([], Base(d)))), Instruction(Mov, MemReg(Memory([], Base(d)), d))]
    ensures AllEncodable(block) && Ordered(block)
  {
    var fps := DeclaredBlock(block);
    assert fps[0].list[0] == Read(d) && Write(d) in fps[1].list;
    assert Clash(fps[0], fps[1], d);
    assert Conflict(fps[0], fps[1]);
  }

  // ---- Barriers ----

  /** An instruction whose accesses are not known keeps its place in every order the pass can produce. */
  lemma BarriersStay(block: seq<Instruction>, order: seq<nat>, b: nat)
    requires AllEncodable(block) && SafeOrder(DeclaredBlock(block), order)
    requires b < |block| && !block[b].IsKnown()
    ensures |order| == |block| && order[b] == b
  {
    var fps := DeclaredBlock(block);
    assert b in Elements(order);
    var p :| 0 <= p < |order| && order[p] == b;
    forall k: nat ensures k in order[..p] <==> k < b {
      BarrierSplits(block, order, b, p, k);
    }
    assert Elements(order[..p]) == Ids(b);
    DistinctSize(order[..p]);
    DistinctSize(order);
  }

  lemma BarrierSplits(block: seq<Instruction>, order: seq<nat>, b: nat, p: nat, k: nat)
    requires AllEncodable(block) && SafeOrder(DeclaredBlock(block), order)
    requires b < |block| && !block[b].IsKnown() && p < |order| && order[p] == b
    ensures k in order[..p] <==> k < b
  {
    var fps := DeclaredBlock(block);
    KnownIsDeclared(block[b].op, block[b].operands);
    if k < b {
      ConflictPrecedes(fps, order, k, b);
      var i, j :| 0 <= i < j < |order| && order[i] == k && order[j] == b;
      assert order[..p][i] == k;
    } else if b < k < |block| {
      if block[k].IsKnown() {
        var _ := SomethingIsStored(block[k].op, block[k].operands);
      }
      KnownIsDeclared(block[k].op, block[k].operands);
      ConflictPrecedes(fps, order, b, k);
    } else if k >= |block| {
      assert k !in Elements(order);
    }
  }

  // ---- The pass ----

  /** From the instructions of a block to the order in which the pass leaves them: rejected exactly
      when one of them pops into the stack pointer, and an ordered block computes the same state,
      whatever the callback, the effects and the start. */
  method RescheduleBlock<V(!new)>(block: seq<Instruction>, close: bool, pick: (seq<nat>, seq<nat>) -> nat)
    returns (ok: bool, order: seq<nat>)
    requires AllEncodable(block) && Chooses(pick)
    ensures ok <==> Instruction(Pop, OneReg(SP)) !in block
    ensures ok ==> SafeOrder(DeclaredBlock(block), order) && KeepsNoticed(block, order)
    ensures ok && Ordered(block) ==> KeepsMeaning<V>(block, order)
    ensures ok && (forall i :: 0 <= i < |block| ==> !block[i].PopsToMemory()) ==> KeepsMeaning<V>(block, order)
  {
    OnlyPopSpIsRejected(block);
    ok, order := Reschedule(DeclaredBlock(block), close, pick);
    SafeExactly(block, order);
    if ok && Ordered(block) {
      OrderedKeepsMeaning<V>(block, order);
    }
    if ok && forall i :: 0 <= i < |block| ==> !block[i].PopsToMemory() {
      BlockKeepsMeaning<V>(block, order);
    }
  }

  /** Where two instructions that really conflict are not linked, the pass has a callback for which it
      leaves an order that computes something else. `early` is that order. */
  method PassBreaks<V(!new)>(block: seq<Instruction>, close: bool, ghost i: nat, j: nat, early: seq<nat>,
                             ghost x: V, ghost y: V)
    returns (ok: bool, order: seq<nat>)
    requires AllEncodable(block) && i < j < |block| && RealConflict(block[i], block[j]) && x != y
    requires !ConflictChain(DeclaredBlock(block), j, i) && early == Early(DeclaredBlock(block), j)
    ensures ok <==> Instruction(Pop, OneReg(SP)) !in block
    ensures ok ==> order == early && SafeOrder(DeclaredBlock(block), order) && !KeepsMeaning<V>(block, order)
  {
    OnlyPopSpIsRejected(block);
    UnlinkedBreaks(block, i, j, x, y);
    ok, order := RescheduleAs(DeclaredBlock(block), close, early);
  }

  // ---- Declared conflicts ----

  /** The stores that the pass takes into account: all but that of a pop into memory. */
  function NoticedStores(instr: Instruction): set<nat> {
    if instr.PopsToMemory() then instr.StoreSet() - {MEMORY_REG} else instr.StoreSet()
  }

  ghost predicate NoticedAt(a: Instruction, b: Instruction, l: nat) {
    || (l in NoticedStores(a) && l in b.LoadSet() + NoticedStores(b))
    || (l in a.LoadSet() + NoticedStores(a) && l in NoticedStores(b))
  }

  lemma DeclaredStores(a: Instruction, l: nat)
    requires a.Encodable() && a.IsKnown()
    ensures a.Footprint().Accesses? && (Writes(a.Footprint(), l) <==> l in NoticedStores(a))
  {
    KnownIsDeclared(a.op, a.operands);
    NothingElseDeclared(a.op, a.operands);
    AccessIsDeclared(a, l);
    if a.PopsToMemory() {
      PopDeclaresNoStore(a.operands.mem);
    }
  }

  lemma PopDeclaresNoStore(m: Memory)
    ensures !Writes(Declared(Pop, OneMem(m)), MEMORY_REG)
  {
    AddressIsRead(m);
  }

  lemma DeclaredTouches(a: Instruction, l: nat)
    requires a.Encodable() && a.IsKnown()
    ensures Touches(a.Footprint(), l) <==> l in a.LoadSet() + NoticedStores(a)
  {
    DeclaredStores(a, l);
    NothingElseDeclared(a.op, a.operands);
    if a.PopsToMemory() {
      assert MEMORY_REG in a.LoadSet() && Read(MEMORY_REG) in a.Footprint().list;
      AddressCovered(a.operands.mem);
    }
    AccessIsDeclared(a, l);
  }

  /** Conflicts are declared exactly between instructions that clash as noticed, and around those
      whose accesses are not known. */
  lemma DeclaredExactly(a: Instruction, b: Instruction)
    requires a.Encodable() && b.Encodable()
    ensures Conflict(a.Footprint(), b.Footprint()) <==>
            !a.IsKnown() || !b.IsKnown() || exists l: nat :: NoticedAt(a, b, l)
  {
    KnownIsDeclared(a.op, a.operands);
    KnownIsDeclared(b.op, b.operands);
    if a.IsKnown() && b.IsKnown() {
      forall l: nat ensures Clash(a.Footprint(), b.Footprint(), l) <==> NoticedAt(a, b, l) {
        ClashIsNoticed(a, b, l);
      }
    } else if b.IsKnown() {
      var _ := SomethingIsStored(b.op, b.operands);
    }
  }

  lemma ClashIsNoticed(a: Instruction, b: Instruction, l: nat)
    requires a.Encodable() && b.Encodable() && a.IsKnown() && b.IsKnown()
    ensures Clash(a.Footprint(), b.Footprint(), l) <==> NoticedAt(a, b, l)
  {
    DeclaredStores(a, l);
    DeclaredTouches(a, l);
    DeclaredStores(b, l);
    DeclaredTouches(b, l);
  }

  /** Where nothing pops into memory, conflicts are declared exactly where they are. */
  lemma DeclaredIsReal(a: Instruction, b: Instruction)
    requires a.Encodable() && b.Encodable() && !a.PopsToMemory() && !b.PopsToMemory()
    ensures Conflict(a.Footprint(), b.Footprint()) <==> RealConflict(a, b)
  {
    DeclaredExactly(a, b);
    if a.IsKnown() && b.IsKnown() {
      if l: nat :| NoticedAt(a, b, l) {
        NoticedIsClash(a, b, l);
      }
      if l: nat :| ClashAt(a, b, l) {
        assert NoticedAt(a, b, l);
      }
    }
  }

  lemma NoticedIsClash(a: Instruction, b: Instruction, l: nat)
    requires a.Encodable() && b.Encodable() && a.IsKnown() && b.IsKnown() && NoticedAt(a, b, l)
    ensures ClashAt(a, b, l)
  {
    if l in a.StoreSet() {
      StoresInRange(a, l);
    } else {
      StoresInRange(b, l);
    }
  }

  lemma StoresInRange(a: Instruction, l: nat)
    requires a.Encodable() && a.IsKnown() && l in a.StoreSet()
    ensures l < LOCATIONS
  {
  }

  // ---- The orders of the pass ----

  /** A permutation of the block that swaps no two instructions that clash as noticed, and moves nothing
      past one whose accesses are not known. */
  ghost predicate KeepsNoticed(block: seq<Instruction>, order: seq<nat>) {
    && Distinct(order) && Elements(order) == Ids(|block|) && Within(order, |block|)
    && forall a, b :: 0 <= a < b < |order| && order[b] < order[a] ==> Free(block[order[b]], block[order[a]])
  }

  ghost predicate Free(a: Instruction, b: Instruction) {
    a.IsKnown() && b.IsKnown() && forall l: nat :: !NoticedAt(a, b, l)
  }

  lemma SafeExactly(block: seq<Instruction>, order: seq<nat>)
    requires AllEncodable(block)
    ensures SafeOrder(DeclaredBlock(block), order) <==> KeepsNoticed(block, order)
  {
    var fps := DeclaredBlock(block);
    forall x: nat, y: nat | x < |block| && y < |block| ensures Conflict(fps[x], fps[y]) <==> !Free(block[x], block[y]) {
      DeclaredExactly(block[x], block[y]);
    }
  }

  /** The pass produces exactly the orders that keep what it notices: `target` comes out for some
      callback if it is one. */
  method RescheduleTo(block: seq<Instruction>, close: bool, target: seq<nat>) returns (ok: bool, order: seq<nat>)
    requires AllEncodable(block) && KeepsNoticed(block, target)
    ensures ok <==> Instruction(Pop, OneReg(SP)) !in block
    ensures ok ==> order == target
  {
    OnlyPopSpIsRejected(block);
    SafeExactly(block, target);
    ok, order := RescheduleAs(DeclaredBlock(block), close, target);
  }

  /** Two known instructions that do not clash can be swapped. */
  method SwapPair(a: Instruction, b: Instruction, close: bool) returns (ok: bool, order: seq<nat>)
    requires a.Encodable() && b.Encodable() && a.IsKnown() && b.IsKnown() && forall l: nat :: !ClashAt(a, b, l)
    ensures ok <==> a != Instruction(Pop, OneReg(SP)) && b != Instruction(Pop, OneReg(SP))
    ensures ok ==> order == [1, 0]
  {
    forall l: nat ensures !NoticedAt(a, b, l) {
      if NoticedAt(a, b, l) {
        NoticedIsClash(a, b, l);
      }
    }
    assert Elements([1, 0]) == Ids(2);
    ok, order := RescheduleTo([a, b], close, [1, 0]);
  }
}
