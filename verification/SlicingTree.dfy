/** Expression trees and their comparison, src/analysis/slicingtree.h and slicingtree.cpp. */
module SlicingTree {
  /** Number of the instruction pointer among the registers of Capstone. */
  const X86_REG_RIP := 41

  datatype Tree =
    | Constant(value: int)
    | Address(address: nat)
    | Register(reg: nat)
    | Rip(target: nat)  // a Register too, with number X86_REG_RIP
    | Physical(number: nat, width: nat)
    | Unary(name: string, child: Tree)
    | Binary(op: string, left: Tree, right: Tree)
    | Comparison(left: Tree, right: Tree)
    | Multiple(parents: seq<Tree>)

  ghost function Size(t: Tree): (n: nat)
    ensures n >= 1
  {
    match t
    case Unary(_, c) => 1 + Size(c)
    case Binary(_, l, r) => 1 + Size(l) + Size(r)
    case Comparison(l, r) => 1 + Size(l) + Size(r)
    case Multiple(ps) => 1 + Sizes(ps)
    case _ => 1
  }

  ghost function Sizes(ts: seq<Tree>): nat {
    if ts == [] then 0 else Size(ts[0]) + Sizes(ts[1..])
  }

  lemma {:induction false} SizeOfParent(ts: seq<Tree>, i: nat)
    requires i < |ts|
    ensures Size(ts[i]) <= Sizes(ts)
    decreases ts
  {
    if i > 0 {
      SizeOfParent(ts[1..], i - 1);
    }
  }

  /** `a->equal(b)`. The operands of any operator may be swapped. The parents of a `Multiple` are
      compared from the other side. */
  predicate Equal(a: Tree, b: Tree)
    decreases Size(a) + Size(b)
  {
    match a
    case Constant(v) => b == Constant(v)
    case Address(v) => b == Address(v)
    case Register(r) => b == Register(r) || (b.Rip? && r == X86_REG_RIP)
    case Rip(v) => b == Rip(v)
    case Physical(r, _) => b.Physical? && b.number == r
    case Unary(n, c) => b.Unary? && b.name == n && Equal(c, b.child)
    case Binary(o, l, r) =>
      b.Binary? && b.op == o && OperandsEqual(l, r, b.left, b.right)
    case Comparison(l, r) =>
      b.Comparison? && OperandsEqual(l, r, b.left, b.right)
    case Multiple(ps) =>
      b.Multiple? && |b.parents| == |ps| && forall i :: 0 <= i < |ps| ==>
        (SizeOfParent(ps, i); SizeOfParent(b.parents, i); Equal(b.parents[i], ps[i]))
  }

  predicate OperandsEqual(l1: Tree, r1: Tree, l2: Tree, r2: Tree)
    decreases Size(l1) + Size(r1) + Size(l2) + Size(r2)
  {
    (Equal(l1, l2) && Equal(r1, r2)) || (Equal(r1, l2) && Equal(l1, r2))
  }

  lemma {:induction false} EqualReflexive(a: Tree)
    ensures Equal(a, a)
  {
    match a
    case Unary(_, c) => EqualReflexive(c);
    case Binary(_, l, r) => EqualReflexive(l); EqualReflexive(r);
    case Comparison(l, r) => EqualReflexive(l); EqualReflexive(r);
    case Multiple(ps) =>
      forall i | 0 <= i < |ps| ensures Equal(ps[i], ps[i]) {
        EqualReflexive(ps[i]);
      }
    case _ =>
  }

  lemma {:induction false} EqualTransitive(a: Tree, b: Tree, c: Tree)
    requires Equal(a, b) && Equal(b, c)
    ensures Equal(a, c)
    decreases Size(a) + Size(b) + Size(c)
  {
    match a
    case Unary(_, t) => EqualTransitive(t, b.child, c.child);
    case Binary(_, l, r) => OperandsTransitive(l, r, b.left, b.right, c.left, c.right);
    case Comparison(l, r) => OperandsTransitive(l, r, b.left, b.right, c.left, c.right);
    case Multiple(ps) =>
      forall i | 0 <= i < |ps| ensures Equal(c.parents[i], ps[i]) {
        SizeOfParent(ps, i);
        SizeOfParent(b.parents, i);
        SizeOfParent(c.parents, i);
        EqualTransitive(c.parents[i], b.parents[i], ps[i]);
      }
    case _ =>
  }

  lemma {:induction false} OperandsTransitive(l1: Tree, r1: Tree, l2: Tree, r2: Tree, l3: Tree, r3: Tree)
    requires OperandsEqual(l1, r1, l2, r2) && OperandsEqual(l2, r2, l3, r3)
    ensures OperandsEqual(l1, r1, l3, r3)
    decreases Size(l1) + Size(r1) + Size(l2) + Size(r2) + Size(l3) + Size(r3), 1
  {
    var straight1, straight2 := Equal(l1, l2) && Equal(r1, r2), Equal(l2, l3) && Equal(r2, r3);
    PairTransitive(if straight1 then l1 else r1, if straight1 then r1 else l1, l2, r2,
                   if straight2 then l3 else r3, if straight2 then r3 else l3);
  }

  lemma {:induction false} PairTransitive(x1: Tree, y1: Tree, x2: Tree, y2: Tree, x3: Tree, y3: Tree)
    requires Equal(x1, x2) && Equal(y1, y2) && Equal(x2, x3) && Equal(y2, y3)
    ensures Equal(x1, x3) && Equal(y1, y3)
    decreases Size(x1) + Size(y1) + Size(x2) + Size(y2) + Size(x3) + Size(y3), 0
  {
    EqualTransitive(x1, x2, x3);
    EqualTransitive(y1, y2, y3);
  }

  // ---- When it is symmetric ----

  /** How many nodes of `t` equal something that does not equal them: plain registers that are the
      instruction pointer, or instruction pointers with a target, depending on the side on which
      the comparison meets them. */
  ghost function OneWay(t: Tree, side: bool): nat {
    match t
    case Register(r) => if side && r == X86_REG_RIP then 1 else 0
    case Rip(_) => if side then 0 else 1
    case Unary(_, c) => OneWay(c, side)
    case Binary(_, l, r) => OneWay(l, side) + OneWay(r, side)
    case Comparison(l, r) => OneWay(l, side) + OneWay(r, side)
    case Multiple(ps) => OneWays(ps, !side)
    case _ => 0
  }

  ghost function OneWays(ts: seq<Tree>, side: bool): nat {
    if ts == [] then 0 else OneWay(ts[0], side) + OneWays(ts[1..], side)
  }

  lemma {:induction false} OneWaysAtMost(few: seq<Tree>, many: seq<Tree>, side: bool)
    requires |few| == |many| && forall i :: 0 <= i < |few| ==> OneWay(few[i], side) <= OneWay(many[i], side)
    ensures OneWays(few, side) <= OneWays(many, side)
    decreases |few|
  {
    if few != [] {
      OneWaysAtMost(few[1..], many[1..], side);
    }
  }

  lemma {:induction false} OneWaysNone(ts: seq<Tree>, side: bool)
    ensures OneWays(ts, side) == 0 <==> forall i :: 0 <= i < |ts| ==> OneWay(ts[i], side) == 0
    decreases |ts|
  {
    if ts != [] {
      OneWaysNone(ts[1..], side);
      assert ts == [ts[0]] + ts[1..];
    }
  }

  /** Going from a tree to one that it equals, one-way nodes can only get lost. */
  lemma {:induction false} OneWayLost(a: Tree, b: Tree)
    requires Equal(a, b)
    ensures OneWay(b, true) <= OneWay(a, true) && OneWay(a, false) <= OneWay(b, false)
    decreases Size(a) + Size(b)
  {
    match a
    case Unary(_, c) => OneWayLost(c, b.child);
    case Binary(_, l, r) => OperandsLost(l, r, b.left, b.right);
    case Comparison(l, r) => OperandsLost(l, r, b.left, b.right);
    case Multiple(ps) =>
      forall i | 0 <= i < |ps|
        ensures OneWay(ps[i], true) <= OneWay(b.parents[i], true) && OneWay(b.parents[i], false) <= OneWay(ps[i], false)
      {
        SizeOfParent(ps, i);
        SizeOfParent(b.parents, i);
        OneWayLost(b.parents[i], ps[i]);
      }
      OneWaysAtMost(ps, b.parents, true);
      OneWaysAtMost(b.parents, ps, false);
    case _ =>
  }

  lemma {:induction false} OperandsLost(l1: Tree, r1: Tree, l2: Tree, r2: Tree)
    requires OperandsEqual(l1, r1, l2, r2)
    ensures OneWay(l2, true) + OneWay(r2, true) <= OneWay(l1, true) + OneWay(r1, true)
    ensures OneWay(l1, false) + OneWay(r1, false) <= OneWay(l2, false) + OneWay(r2, false)
    decreases Size(l1) + Size(r1) + Size(l2) + Size(r2)
  {
    if Equal(l1, l2) && Equal(r1, r2) {
      OneWayLost(l1, l2);
      OneWayLost(r1, r2);
    } else {
      OneWayLost(r1, l2);
      OneWayLost(l1, r2);
    }
  }

  /** `a` and `b` compared from one side or the other. */
  ghost predicate EqualFrom(a: Tree, b: Tree, side: bool) {
    if side then Equal(a, b) else Equal(b, a)
  }

  lemma {:induction false} NoneIsSymmetric(a: Tree, b: Tree, side: bool)
    requires EqualFrom(a, b, side) && OneWay(a, side) == 0
    ensures EqualFrom(a, b, !side)
    decreases Size(a) + Size(b)
  {
    match a
    case Unary(_, c) => NoneIsSymmetric(c, b.child, side);
    case Binary(_, l, r) => OperandsSymmetric(l, r, b.left, b.right, side);
    case Comparison(l, r) => OperandsSymmetric(l, r, b.left, b.right, side);
    case Multiple(ps) =>
      OneWaysNone(ps, !side);
      forall i | 0 <= i < |ps| ensures EqualFrom(ps[i], b.parents[i], side) {
        SizeOfParent(ps, i);
        SizeOfParent(b.parents, i);
        NoneIsSymmetric(ps[i], b.parents[i], !side);
      }
    case _ =>
  }

  lemma {:induction false} OperandsSymmetric(l1: Tree, r1: Tree, l2: Tree, r2: Tree, side: bool)
    requires if side then OperandsEqual(l1, r1, l2, r2) else OperandsEqual(l2, r2, l1, r1)
    requires OneWay(l1, side) == 0 && OneWay(r1, side) == 0
    ensures if side then OperandsEqual(l2, r2, l1, r1) else OperandsEqual(l1, r1, l2, r2)
    decreases Size(l1) + Size(r1) + Size(l2) + Size(r2)
  {
    if EqualFrom(l1, l2, side) && EqualFrom(r1, r2, side) {
      NoneIsSymmetric(l1, l2, side);
      NoneIsSymmetric(r1, r2, side);
    } else {
      NoneIsSymmetric(r1, l2, side);
      NoneIsSymmetric(l1, r2, side);
    }
  }

  /** `t` with its one-way nodes replaced by what they equal. */
  ghost function Replaced(t: Tree, side: bool): Tree {
    match t
    case Register(r) => if side && r == X86_REG_RIP then Rip(0) else t
    case Rip(_) => if side then t else Register(X86_REG_RIP)
    case Unary(n, c) => Unary(n, Replaced(c, side))
    case Binary(o, l, r) => Binary(o, Replaced(l, side), Replaced(r, side))
    case Comparison(l, r) => Comparison(Replaced(l, side), Replaced(r, side))
    case Multiple(ps) => Multiple(seq(|ps|, i requires 0 <= i < |ps| => Replaced(ps[i], !side)))
    case _ => t
  }

  lemma {:induction false} ReplacedEqual(t: Tree, side: bool)
    ensures EqualFrom(t, Replaced(t, side), side) && OneWay(Replaced(t, side), side) == 0
  {
    match t
    case Unary(_, c) => ReplacedEqual(c, side);
    case Binary(_, l, r) => ReplacedEqual(l, side); ReplacedEqual(r, side);
    case Comparison(l, r) => ReplacedEqual(l, side); ReplacedEqual(r, side);
    case Multiple(ps) =>
      var rs := Replaced(t, side).parents;
      forall i | 0 <= i < |ps| ensures EqualFrom(ps[i], rs[i], !side) && OneWay(rs[i], !side) == 0 {
        ReplacedEqual(ps[i], !side);
      }
      OneWaysNone(rs, !side);
    case _ =>
  }

  /** Comparison with `a` is symmetric exactly when `a` has no one-way node. */
  lemma SymmetricExactly(a: Tree)
    ensures (forall b :: Equal(a, b) ==> Equal(b, a)) <==> OneWay(a, true) == 0
  {
    if OneWay(a, true) == 0 {
      forall b | Equal(a, b) ensures Equal(b, a) {
        NoneIsSymmetric(a, b, true);
      }
    } else {
      var b := Replaced(a, true);
      ReplacedEqual(a, true);
      assert !Equal(b, a) by {
        if Equal(b, a) {
          OneWayLost(b, a);
        }
      }
    }
  }

  // ---- When equal trees have equal values ----

  /** Values for the leaves and operators of trees. */
  datatype Meaning = Meaning(register: nat -> int, physical: nat -> int, unary: (string, int) -> int,
                             binary: (string, int, int) -> int, compare: (int, int) -> int, merge: seq<int> -> int)

  ghost function Eval(t: Tree, m: Meaning): int {
    match t
    case Constant(v) => v
    case Address(v) => v
    case Register(r) => m.register(r)
    case Rip(v) => v
    case Physical(r, _) => m.physical(r)
    case Unary(n, c) => m.unary(n, Eval(c, m))
    case Binary(o, l, r) => m.binary(o, Eval(l, m), Eval(r, m))
    case Comparison(l, r) => m.compare(Eval(l, m), Eval(r, m))
    case Multiple(ps) => m.merge(seq(|ps|, i requires 0 <= i < |ps| => Eval(ps[i], m)))
  }

  ghost predicate Commutes(m: Meaning, op: string) {
    forall x: int, y: int :: m.binary(op, x, y) == m.binary(op, y, x)
  }

  /** All operators in `t` commute. */
  ghost predicate AllCommute(t: Tree, m: Meaning) {
    match t
    case Unary(_, c) => AllCommute(c, m)
    case Binary(o, l, r) => Commutes(m, o) && AllCommute(l, m) && AllCommute(r, m)
    case Comparison(l, r) => (forall x: int, y: int :: m.compare(x, y) == m.compare(y, x)) && AllCommute(l, m) &&
      AllCommute(r, m)
    case Multiple(ps) => forall i :: 0 <= i < |ps| ==> AllCommute(ps[i], m)
    case _ => true
  }

  lemma {:induction false} EqualSameValue(a: Tree, b: Tree, m: Meaning, side: bool)
    requires EqualFrom(a, b, side) && OneWay(a, side) == 0 && AllCommute(a, m)
    ensures Eval(a, m) == Eval(b, m)
    decreases Size(a) + Size(b)
  {
    match a
    case Unary(_, c) => EqualSameValue(c, b.child, m, side);
    case Binary(o, l, r) =>
      OperandValues(l, r, b.left, b.right, m, side);
    case Comparison(l, r) =>
      OperandValues(l, r, b.left, b.right, m, side);
    case Multiple(ps) =>
      OneWaysNone(ps, !side);
      forall i | 0 <= i < |ps| ensures Eval(ps[i], m) == Eval(b.parents[i], m) {
        SizeOfParent(ps, i);
        SizeOfParent(b.parents, i);
        EqualSameValue(ps[i], b.parents[i], m, !side);
      }
      assert seq(|ps|, i requires 0 <= i < |ps| => Eval(ps[i], m))
          == seq(|b.parents|, i requires 0 <= i < |b.parents| => Eval(b.parents[i], m));
    case _ =>
  }

  lemma {:induction false} OperandValues(l1: Tree, r1: Tree, l2: Tree, r2: Tree, m: Meaning, side: bool)
    requires if side then OperandsEqual(l1, r1, l2, r2) else OperandsEqual(l2, r2, l1, r1)
    requires OneWay(l1, side) == 0 && OneWay(r1, side) == 0 && AllCommute(l1, m) && AllCommute(r1, m)
    ensures || (Eval(l1, m) == Eval(l2, m) && Eval(r1, m) == Eval(r2, m))
            || (Eval(r1, m) == Eval(l2, m) && Eval(l1, m) == Eval(r2, m))
    decreases Size(l1) + Size(r1) + Size(l2) + Size(r2)
  {
    if EqualFrom(l1, l2, side) && EqualFrom(r1, r2, side) {
      EqualSameValue(l1, l2, m, side);
      EqualSameValue(r1, r2, m, side);
    } else {
      EqualSameValue(r1, l2, m, side);
      EqualSameValue(l1, r2, m, side);
    }
  }

  /** Swapped operands are equal trees whatever the operator, so an operator keeps values apart
      from their order exactly when it commutes. */
  lemma CommutesExactly(op: string, m: Meaning)
    ensures Commutes(m, op) <==>
            forall a, b :: UsesOnly(a, op) && Equal(a, b) ==> Eval(a, m) == Eval(b, m)
  {
    if Commutes(m, op) {
      forall a, b | UsesOnly(a, op) && Equal(a, b) ensures Eval(a, m) == Eval(b, m) {
        UsesOnlyCommutes(a, op, m);
        EqualSameValue(a, b, m, true);
      }
    } else {
      var x: int, y: int :| m.binary(op, x, y) != m.binary(op, y, x);
      var a, b := Binary(op, Constant(x), Constant(y)), Binary(op, Constant(y), Constant(x));
      EqualReflexive(Constant(x));
      EqualReflexive(Constant(y));
      assert OperandsEqual(a.left, a.right, b.left, b.right);
      assert UsesOnly(a, op) && Equal(a, b);
      assert Eval(a, m) == m.binary(op, x, y) && Eval(b, m) == m.binary(op, y, x);
    }
  }

  /** Built from constants, registers and the operator `op`. */
  ghost predicate UsesOnly(t: Tree, op: string) {
    match t
    case Constant(_) => true
    case Physical(_, _) => true
    case Binary(o, l, r) => o == op && UsesOnly(l, op) && UsesOnly(r, op)
    case _ => false
  }

  lemma {:induction false} UsesOnlyCommutes(t: Tree, op: string, m: Meaning)
    requires UsesOnly(t, op) && Commutes(m, op)
    ensures AllCommute(t, m) && OneWay(t, true) == 0
  {
    if t.Binary? {
      UsesOnlyCommutes(t.left, op, m);
      UsesOnlyCommutes(t.right, op, m);
    }
  }

  // ---- What equal trees look like ----

  /** Where operands are swapped, at a node and below it, and where a one-way node is turned into what
      it equals. */
  datatype Plan = Plan(swap: bool, below: seq<Plan>) | Turn(target: nat) | Keep

  function Below(plan: Plan, i: nat): (sub: Plan)
    ensures plan.Plan? && i < |plan.below| ==> sub == plan.below[i]
  {
    if plan.Plan? && i < |plan.below| then plan.below[i] else Keep
  }

  /** `t` with the operands of its operators and comparisons swapped and its one-way nodes turned where
      the plan says so, and nothing else changed but the widths of registers, which are dropped. */
  ghost function Rearranged(t: Tree, plan: Plan, side: bool): Tree {
    match t
    case Register(r) => if plan.Turn? && side && r == X86_REG_RIP then Rip(plan.target) else t
    case Rip(_) => if plan.Turn? && !side then Register(X86_REG_RIP) else t
    case Physical(r, _) => Physical(r, 0)
    case Unary(n, c) => Unary(n, Rearranged(c, Below(plan, 0), side))
    case Binary(o, l, r) =>
      var x, y := Rearranged(l, Below(plan, 0), side), Rearranged(r, Below(plan, 1), side);
      if plan.Plan? && plan.swap then Binary(o, y, x) else Binary(o, x, y)
    case Comparison(l, r) =>
      var x, y := Rearranged(l, Below(plan, 0), side), Rearranged(r, Below(plan, 1), side);
      if plan.Plan? && plan.swap then Comparison(y, x) else Comparison(x, y)
    case Multiple(ps) => Multiple(seq(|ps|, i requires 0 <= i < |ps| => Rearranged(ps[i], Below(plan, i), !side)))
    case _ => t
  }

  ghost predicate Rearrangement(a: Tree, b: Tree, plan: Plan, side: bool) {
    Rearranged(a, plan, side) == Rearranged(b, Keep, side)
  }

  /** A tree equals its rearrangements. */
  lemma {:induction false} RearrangedIsEqual(a: Tree, b: Tree, plan: Plan, side: bool)
    requires Rearrangement(a, b, plan, side)
    ensures EqualFrom(a, b, side)
    decreases Size(a)
  {
    match a
    case Unary(_, c) => RearrangedIsEqual(c, b.child, Below(plan, 0), side);
    case Binary(_, l, r) =>
      var swap := plan.Plan? && plan.swap;
      RearrangedIsEqual(l, if swap then b.right else b.left, Below(plan, 0), side);
      RearrangedIsEqual(r, if swap then b.left else b.right, Below(plan, 1), side);
    case Comparison(l, r) =>
      var swap := plan.Plan? && plan.swap;
      RearrangedIsEqual(l, if swap then b.right else b.left, Below(plan, 0), side);
      RearrangedIsEqual(r, if swap then b.left else b.right, Below(plan, 1), side);
    case Multiple(ps) =>
      forall i | 0 <= i < |ps| ensures EqualFrom(ps[i], b.parents[i], !side) {
        SizeOfParent(ps, i);
        assert Rearranged(a, plan, side).parents[i] == Rearranged(b, Keep, side).parents[i];
        RearrangedIsEqual(ps[i], b.parents[i], Below(plan, i), !side);
      }
    case _ =>
  }

  lemma EqualParents(ps: seq<Tree>, qs: seq<Tree>, side: bool)
    requires EqualFrom(Multiple(ps), Multiple(qs), side)
    ensures |ps| == |qs| && forall i :: 0 <= i < |ps| ==> EqualFrom(ps[i], qs[i], !side)
  {
  }

  lemma MultipleRearranged(ps: seq<Tree>, qs: seq<Tree>, below: seq<Plan>, side: bool)
    requires |ps| == |qs| == |below| && forall i :: 0 <= i < |ps| ==> Rearrangement(ps[i], qs[i], below[i], !side)
    ensures Rearrangement(Multiple(ps), Multiple(qs), Plan(false, below), side)
  {
    var r, s := Rearranged(Multiple(ps), Plan(false, below), side), Rearranged(Multiple(qs), Keep, side);
    assert forall i :: 0 <= i < |ps| ==> r.parents[i] == s.parents[i];
  }

  /** And nothing else. */
  lemma {:induction false} EqualIsRearranged(a: Tree, b: Tree, side: bool) returns (plan: Plan)
    requires EqualFrom(a, b, side)
    ensures Rearrangement(a, b, plan, side)
    decreases Size(a) + Size(b), 0
  {
    match a
    case Unary(_, c) =>
      var sub := EqualIsRearranged(c, b.child, side);
      plan := Plan(false, [sub]);
    case Binary(_, l, r) =>
      plan := OperandsRearranged(l, r, b.left, b.right, side);
    case Comparison(l, r) =>
      plan := OperandsRearranged(l, r, b.left, b.right, side);
    case Multiple(ps) =>
      EqualParents(ps, b.parents, side);
      var below := ParentsRearranged(ps, b.parents, !side);
      plan := Plan(false, below);
      MultipleRearranged(ps, b.parents, below, side);
    case Register(_) =>
      plan := if b.Rip? then Turn(b.target) else Keep;
    case Rip(_) =>
      plan := Turn(0);
      if b == a {
        plan := Keep;
      }
    case _ =>
      plan := Keep;
  }

  lemma {:induction false} OperandsRearranged(l1: Tree, r1: Tree, l2: Tree, r2: Tree, side: bool) returns (plan: Plan)
    requires if side then OperandsEqual(l1, r1, l2, r2) else OperandsEqual(l2, r2, l1, r1)
    ensures plan.Plan? && |plan.below| == 2
    ensures Rearrangement(l1, if plan.swap then r2 else l2, plan.below[0], side)
    ensures Rearrangement(r1, if plan.swap then l2 else r2, plan.below[1], side)
    decreases Size(l1) + Size(r1) + Size(l2) + Size(r2), 1
  {
    if EqualFrom(l1, l2, side) && EqualFrom(r1, r2, side) {
      var x := EqualIsRearranged(l1, l2, side);
      var y := EqualIsRearranged(r1, r2, side);
      plan := Plan(false, [x, y]);
    } else {
      var x := EqualIsRearranged(l1, r2, side);
      var y := EqualIsRearranged(r1, l2, side);
      plan := Plan(true, [x, y]);
    }
  }

  lemma {:induction false} ParentsRearranged(ps: seq<Tree>, qs: seq<Tree>, side: bool) returns (below: seq<Plan>)
    requires |ps| == |qs|
    requires forall i :: 0 <= i < |ps| ==> EqualFrom(ps[i], qs[i], side)
    ensures |below| == |ps| && forall i :: 0 <= i < |ps| ==> Rearrangement(ps[i], qs[i], below[i], side)
    decreases Sizes(ps) + Sizes(qs), 1
  {
    if ps == [] {
      below := [];
    } else {
      var first := EqualIsRearranged(ps[0], qs[0], side);
      var rest := ParentsRearranged(ps[1..], qs[1..], side);
      below := [first] + rest;
    }
  }

  /** The trees that a tree equals are exactly its rearrangements: the same up to the order of operands,
      the widths of registers, and the one-way nodes. */
  lemma EqualExactly(a: Tree, b: Tree)
    ensures Equal(a, b) <==> exists plan :: Rearrangement(a, b, plan, true)
  {
    if Equal(a, b) {
      var plan := EqualIsRearranged(a, b, true);
    }
    if plan :| Rearrangement(a, b, plan, true) {
      RearrangedIsEqual(a, b, plan, true);
    }
  }

  /** Swapped operands are equal, whatever the operator and the operands. */
  lemma SwappedIsEqual(op: string, l: Tree, r: Tree)
    ensures Equal(Binary(op, l, r), Binary(op, r, l)) && Equal(Comparison(l, r), Comparison(r, l))
  {
    var plan := Plan(true, []);
    assert Rearrangement(Binary(op, l, r), Binary(op, r, l), plan, true);
    RearrangedIsEqual(Binary(op, l, r), Binary(op, r, l), plan, true);
    assert Rearrangement(Comparison(l, r), Comparison(r, l), plan, true);
    RearrangedIsEqual(Comparison(l, r), Comparison(r, l), plan, true);
  }

  /** Comparisons keep values apart from the order of operands exactly when comparing commutes. */
  lemma ComparesExactly(m: Meaning)
    ensures (forall x: int, y: int :: m.compare(x, y) == m.compare(y, x)) <==>
            forall a, b :: OneComparison(a) && Equal(a, b) ==> Eval(a, m) == Eval(b, m)
  {
    if forall x: int, y: int :: m.compare(x, y) == m.compare(y, x) {
      forall a, b | OneComparison(a) && Equal(a, b) ensures Eval(a, m) == Eval(b, m) {
        EqualSameValue(a, b, m, true);
      }
    } else {
      var x: int, y: int :| m.compare(x, y) != m.compare(y, x);
      var a, b := Comparison(Constant(x), Constant(y)), Comparison(Constant(y), Constant(x));
      SwappedIsEqual("", Constant(x), Constant(y));
      assert OneComparison(a) && Equal(a, b);
      assert Eval(a, m) == m.compare(x, y) && Eval(b, m) == m.compare(y, x);
    }
  }

  /** A comparison of constants and registers. */
  ghost predicate OneComparison(t: Tree) {
    t.Comparison? && (t.left.Constant? || t.left.Physical?) && (t.right.Constant? || t.right.Physical?)
  }
}
