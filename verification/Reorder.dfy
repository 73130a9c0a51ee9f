/** Rescheduling a block keeps its meaning: every order that src/analysis/reachingdef.cpp lets the
    callback choose computes the same state as the original order. */
module Reorder {
  import opened Graphs
  import opened Footprints
  import opened KillMap
  import opened KillProof
  import opened ReachingDef

  // ---- What instructions do ----

  /** One value per register, one for the flags, one for all of memory. */
  ghost predicate IsState<V>(s: seq<V>) {
    |s| == LOCATIONS
  }

  ghost predicate AgreeOn<V>(fp: Footprint, s: seq<V>, t: seq<V>)
    requires IsState(s) && IsState(t)
  {
    forall l :: 0 <= l < LOCATIONS && Touches(fp, l) ==> s[l] == t[l]
  }

  /** The effect of an instruction stays within its declarations: it changes only locations
      declared as written, and what it puts there depends only on declared locations. A barrier
      may do anything. */
  ghost predicate Adequate<V(!new)>(fp: Footprint, run: seq<V> -> seq<V>) {
    && (forall s :: IsState(s) ==> IsState(run(s)))
    && (fp.Accesses? ==>
          && (forall s, l :: IsState(s) && 0 <= l < LOCATIONS && !Writes(fp, l) ==> run(s)[l] == s[l])
          && (forall s, t, l :: IsState(s) && IsState(t) && AgreeOn(fp, s, t) && 0 <= l < LOCATIONS && Writes(fp, l)
                ==> run(s)[l] == run(t)[l]))
  }

  ghost predicate AllAdequate<V(!new)>(fps: seq<Footprint>, runs: seq<seq<V> -> seq<V>>) {
    |runs| == |fps| && forall i :: 0 <= i < |fps| ==> Adequate(fps[i], runs[i])
  }

  /** The state after executing the instructions in this order. */
  ghost function Execute<V>(runs: seq<seq<V> -> seq<V>>, order: seq<nat>, s: seq<V>): seq<V>
    requires forall k :: 0 <= k < |order| ==> order[k] < |runs|
  {
    if order == [] then s else Execute(runs, order[1..], runs[order[0]](s))
  }

  // ---- Instructions that do not conflict commute ----

  lemma WriterUndisturbed<V(!new)>(f: Footprint, g: Footprint, runF: seq<V> -> seq<V>, runG: seq<V> -> seq<V>,
                                   s: seq<V>, l: nat)
    requires f.Accesses? && g.Accesses? && Adequate(f, runF) && Adequate(g, runG) && IsState(s) && l < LOCATIONS
    requires (forall q: nat :: !Clash(f, g, q)) && Writes(g, l)
    ensures runG(runF(s))[l] == runG(s)[l] == runF(runG(s))[l]
  {
    assert !Clash(f, g, l);
    forall q | 0 <= q < LOCATIONS && Touches(g, q) ensures runF(s)[q] == s[q] {
      assert !Clash(f, g, q);
    }
    assert AgreeOn(g, runF(s), s);
    assert IsState(runG(s)) && !Writes(f, l);
  }

  lemma ClashSymmetric(f: Footprint, g: Footprint)
    requires forall q: nat :: !Clash(f, g, q)
    ensures forall q: nat :: !Clash(g, f, q)
  {
    forall q: nat ensures !Clash(g, f, q) {
      assert !Clash(f, g, q);
    }
  }

  lemma WritesNothing<V(!new)>(fp: Footprint, run: seq<V> -> seq<V>, s: seq<V>)
    requires fp == Accesses([]) && Adequate(fp, run) && IsState(s)
    ensures run(s) == s
  {
    assert IsState(run(s));
    forall l | 0 <= l < LOCATIONS ensures run(s)[l] == s[l] {
      assert !Writes(fp, l);
    }
  }

  lemma Commute<V(!new)>(f: Footprint, g: Footprint, runF: seq<V> -> seq<V>, runG: seq<V> -> seq<V>, s: seq<V>)
    requires Adequate(f, runF) && Adequate(g, runG) && IsState(s) && !Conflict(f, g)
    ensures IsState(runF(s)) && IsState(runG(s))
    ensures runG(runF(s)) == runF(runG(s))
  {
    assert IsState(runF(s)) && IsState(runG(s));
    if f.Barrier? {
      WritesNothing(g, runG, s);
      WritesNothing(g, runG, runF(s));
    } else {
      ClashSymmetric(f, g);
      forall l | 0 <= l < LOCATIONS ensures runG(runF(s))[l] == runF(runG(s))[l] {
        if Writes(g, l) {
          WriterUndisturbed(f, g, runF, runG, s, l);
        } else if Writes(f, l) {
          WriterUndisturbed(g, f, runG, runF, s, l);
        }
      }
    }
  }

  // ---- Any order that keeps conflicting pairs keeps the result ----

  ghost predicate Within(order: seq<nat>, n: nat) {
    forall k :: 0 <= k < |order| ==> order[k] < n
  }

  function Without(q: seq<nat>, k: nat): seq<nat>
    requires k < |q|
  {
    q[..k] + q[k + 1..]
  }

  lemma StaysState<V(!new)>(fps: seq<Footprint>, runs: seq<seq<V> -> seq<V>>, x: nat, s: seq<V>)
    requires AllAdequate(fps, runs) && IsState(s) && x < |fps|
    ensures IsState(runs[x](s))
  {
    assert Adequate(fps[x], runs[x]);
  }

  lemma Swap<V(!new)>(fps: seq<Footprint>, runs: seq<seq<V> -> seq<V>>, y: nat, x: nat, s: seq<V>)
    requires AllAdequate(fps, runs) && IsState(s) && x < |fps| && y < |fps| && !Conflict(fps[y], fps[x])
    ensures runs[x](runs[y](s)) == runs[y](runs[x](s))
  {
    assert Adequate(fps[x], runs[x]) && Adequate(fps[y], runs[y]);
    Commute(fps[y], fps[x], runs[y], runs[x], s);
  }

  /** An instruction that does not conflict with those before it may run first. */
  lemma {:induction false} RunFirst<V(!new)>(fps: seq<Footprint>, runs: seq<seq<V> -> seq<V>>, q: seq<nat>, k: nat,
                                             s: seq<V>)
    requires AllAdequate(fps, runs) && IsState(s) && Within(q, |fps|) && k < |q|
    requires forall i :: 0 <= i < k ==> !Conflict(fps[q[i]], fps[q[k]])
    ensures Execute(runs, q, s) == Execute(runs, Without(q, k), runs[q[k]](s))
    decreases k
  {
    if k == 0 {
      assert Without(q, 0) == q[1..];
    } else {
      var x, y, tail := q[k], q[0], q[1..];
      assert tail[k - 1] == x && forall i :: 0 <= i < k - 1 ==> tail[i] == q[i + 1];
      StaysState(fps, runs, y, s);
      RunFirst(fps, runs, tail, k - 1, runs[y](s));
      Swap(fps, runs, y, x, s);
      assert Without(q, k)[0] == y && Without(q, k)[1..] == Without(tail, k - 1);
    }
  }

  ghost predicate Ascending(q: seq<nat>) {
    forall a, b :: 0 <= a < b < |q| ==> q[a] < q[b]
  }

  /** No two conflicting instructions have changed places. */
  ghost predicate KeepsConflicts(fps: seq<Footprint>, order: seq<nat>)
    requires Within(order, |fps|)
  {
    forall a, b :: 0 <= a < b < |order| && order[b] < order[a] ==> !Conflict(fps[order[b]], fps[order[a]])
  }

  lemma TakeOut(q: seq<nat>, k: nat)
    requires k < |q| && Ascending(q)
    ensures Ascending(Without(q, k)) && Elements(Without(q, k)) == Elements(q) - {q[k]}
  {
    var rest := Without(q, k);
    forall x | x in Elements(q) - {q[k]} ensures x in Elements(rest) {
      var i :| 0 <= i < |q| && q[i] == x;
      assert rest[if i < k then i else i - 1] == x;
    }
  }

  /** Whatever stood before the instruction that now comes first does not conflict with it. */
  lemma FirstIsFree(fps: seq<Footprint>, p: seq<nat>, q: seq<nat>, k: nat)
    requires Within(p, |fps|) && Within(q, |fps|) && p != []
    requires Ascending(q) && Elements(p) == Elements(q) && KeepsConflicts(fps, p) && k < |q| && q[k] == p[0]
    ensures forall i :: 0 <= i < k ==> !Conflict(fps[q[i]], fps[p[0]])
  {
    forall i | 0 <= i < k ensures !Conflict(fps[q[i]], fps[p[0]]) {
      assert q[i] in Elements(p);
      var b :| 0 <= b < |p| && p[b] == q[i];
      assert p[b] < p[0];
    }
  }

  lemma TakeFirst(p: seq<nat>)
    requires p != [] && Distinct(p)
    ensures Distinct(p[1..]) && Elements(p[1..]) == Elements(p) - {p[0]}
  {
    forall x | x in Elements(p) - {p[0]} ensures x in Elements(p[1..]) {
      var i :| 0 <= i < |p| && p[i] == x;
      assert p[1..][i - 1] == x;
    }
  }

  lemma {:induction false} SameResult<V(!new)>(fps: seq<Footprint>, runs: seq<seq<V> -> seq<V>>, p: seq<nat>,
                                               q: seq<nat>, s: seq<V>)
    requires AllAdequate(fps, runs) && IsState(s) && Within(p, |fps|) && Within(q, |fps|)
    requires Distinct(p) && Ascending(q) && Elements(p) == Elements(q) && KeepsConflicts(fps, p)
    ensures Execute(runs, p, s) == Execute(runs, q, s)
    decreases |p|
  {
    if p == [] {
      assert forall k :: 0 <= k < |q| ==> q[k] in Elements(p);
      assert q == [];
    } else {
      var x := p[0];
      assert x in Elements(q);
      var k :| 0 <= k < |q| && q[k] == x;
      FirstIsFree(fps, p, q, k);
      RunFirst(fps, runs, q, k, s);
      TakeOut(q, k);
      TakeFirst(p);
      StaysState(fps, runs, x, s);
      SameResult(fps, runs, p[1..], Without(q, k), runs[x](s));
    }
  }

  function Original(n: nat): (order: seq<nat>)
    ensures |order| == n && forall k :: 0 <= k < n ==> order[k] == k
  {
    seq(n, i => i)
  }

  /** A permutation of the block in which no two conflicting instructions have changed places. */
  ghost predicate SafeOrder(fps: seq<Footprint>, order: seq<nat>) {
    Distinct(order) && Elements(order) == Ids(|fps|) && Within(order, |fps|) && KeepsConflicts(fps, order)
  }

  ghost predicate ConflictsInClosure(fps: seq<Footprint>, kill: seq<set<nat>>)
    requires Backward(kill) && |kill| == |fps|
  {
    forall i, k :: 0 <= i < k < |fps| && Conflict(fps[i], fps[k]) ==> InClosure(kill, k, i)
  }

  lemma ScheduleIsSafe(fps: seq<Footprint>, kill: seq<set<nat>>, order: seq<nat>)
    requires |kill| == |fps| && Backward(kill) && ConflictsInClosure(fps, kill) && Schedule(kill, order)
    ensures SafeOrder(fps, order)
  {
    forall k | 0 <= k < |order| ensures order[k] < |fps| {
      assert order[k] in Elements(order);
    }
    forall a, b | 0 <= a < b < |order| && order[b] < order[a] ensures !Conflict(fps[order[b]], fps[order[a]]) {
      assert order[b] !in order[..a];
      assert !InClosure(kill, order[a], order[b]);
    }
  }

  /** Executing a block in a safe order ends in the same state as the block itself, from every
      state and whatever its instructions do within their declarations. */
  lemma SafeOrderKeepsMeaning<V(!new)>(fps: seq<Footprint>, order: seq<nat>, runs: seq<seq<V> -> seq<V>>, s: seq<V>)
    requires SafeOrder(fps, order) && AllAdequate(fps, runs) && IsState(s)
    ensures Execute(runs, order, s) == Execute(runs, Original(|fps|), s)
  {
    assert Elements(Original(|fps|)) == Ids(|fps|) by {
      forall x | x in Ids(|fps|) ensures x in Elements(Original(|fps|)) {
        assert Original(|fps|)[x] == x;
      }
    }
    SameResult(fps, runs, order, Original(|fps|), s);
  }

  /** How the reordering pass uses the analysis. `close` says whether the dependency closure is
      computed first. */
  method Reschedule(block: seq<Footprint>, close: bool, pick: (seq<nat>, seq<nat>) -> nat)
    returns (ok: bool, order: seq<nat>)
    requires AllInRange(block) && Chooses(pick)
    ensures ok <==> !SomeWritesTwice(block)
    ensures ok ==> SafeOrder(block, order)
  {
    var analysis := new ReachingDef(block);
    order := [];
    ok := analysis.Analyze();
    if !ok {
      return;
    }
    ghost var kill := analysis.killMap;
    if close {
      analysis.ComputeDependencyClosure();
    }
    assert ConflictsInClosure(block, analysis.killMap) by {
      assert ConflictsInClosure(block, kill);
    }
    order := analysis.VisitInstructionGroups(pick);
    ScheduleIsSafe(block, analysis.killMap, order);
  }

  // ---- The orders that can be chosen ----

  /** `x` stands before `y`. */
  ghost predicate Precedes(order: seq<nat>, x: nat, y: nat) {
    exists a, b :: 0 <= a < b < |order| && order[a] == x && order[b] == y
  }

  /** In a safe order a chain of conflicts keeps its direction. */
  lemma {:induction false} ChainPrecedes(fps: seq<Footprint>, order: seq<nat>, x: nat, y: nat)
    requires SafeOrder(fps, order) && x < |fps| && ConflictChain(fps, x, y)
    ensures y < x && Precedes(order, y, x)
    decreases x
  {
    var k :| 0 <= k < x && Conflict(fps[k], fps[x]) && (k == y || ConflictChain(fps, k, y));
    ConflictPrecedes(fps, order, k, x);
    if k != y {
      ChainPrecedes(fps, order, k, y);
      PrecedesTransitive(order, y, k, x);
    }
  }

  lemma ConflictPrecedes(fps: seq<Footprint>, order: seq<nat>, k: nat, x: nat)
    requires SafeOrder(fps, order) && k < x < |fps| && Conflict(fps[k], fps[x])
    ensures Precedes(order, k, x)
  {
    assert k in Elements(order) && x in Elements(order);
    var a :| 0 <= a < |order| && order[a] == k;
    var b :| 0 <= b < |order| && order[b] == x;
    assert !(b < a);
  }

  lemma PrecedesTransitive(order: seq<nat>, x: nat, y: nat, z: nat)
    requires Distinct(order) && Precedes(order, x, y) && Precedes(order, y, z)
    ensures Precedes(order, x, z)
  {
    var a, b :| 0 <= a < b < |order| && order[a] == x && order[b] == y;
    var c, d :| 0 <= c < d < |order| && order[c] == y && order[d] == z;
    assert b == c;
    assert order[a] == x && order[d] == z;
  }

  /** `closed` has the closure of `kill`, as the map that `computeDependencyClosure` leaves. */
  ghost predicate SameClosure(kill: seq<set<nat>>, closed: seq<set<nat>>) {
    && Backward(kill) && Backward(closed) && |closed| == |kill|
    && forall a: nat, b: nat :: a < |kill| ==> (InClosure(closed, a, b) <==> InClosure(kill, a, b))
  }

  /** Every safe order respects all dependencies that the analysis finds, closed or not. */
  lemma SafeIsSchedule(fps: seq<Footprint>, kill: seq<set<nat>>, closed: seq<set<nat>>, order: seq<nat>)
    requires Complete(fps, kill) && SameClosure(kill, closed) && SafeOrder(fps, order)
    ensures Schedule(closed, order)
  {
    forall k: nat, b: nat | k < |order| && order[k] < |closed| && InClosure(closed, order[k], b)
      ensures b in order[..k]
    {
      ClosureIsConflictChain(fps, kill, order[k], b);
      ChainPrecedes(fps, order, order[k], b);
      var i, j :| 0 <= i < j < |order| && order[i] == b && order[j] == order[k];
      assert j == k && order[..k][i] == b;
    }
  }

  /** The callback that follows `order` where it can. */
  function Follow(order: seq<nat>): (seq<nat>, seq<nat>) -> nat {
    (done: seq<nat>, group: seq<nat>) =>
      if |done| < |order| && order[|done|] in group then order[|done|] else if group == [] then 0 else group[0]
  }

  /** After the first `k` of `order` the callback can only go on with the next. */
  ghost predicate Forced(kill: seq<set<nat>>, order: seq<nat>, k: nat)
    requires Backward(kill) && k < |order|
  {
    forall x: nat :: Offered(kill, order[..k], x, Follow(order)) ==> x == order[k]
  }

  /** So the scheduler goes through the order. */
  lemma {:induction false} FollowsPrefix(kill: seq<set<nat>>, order: seq<nat>, run: seq<nat>, k: nat)
    requires Backward(kill) && k <= |run| && k <= |order| && (forall i: nat :: i < |order| ==> Forced(kill, order, i))
    requires forall i :: 0 <= i < |run| ==> Offered(kill, run[..i], run[i], Follow(order))
    ensures run[..k] == order[..k]
    decreases k
  {
    if k > 0 {
      FollowsPrefix(kill, order, run, k - 1);
      assert Forced(kill, order, k - 1);
      assert run[..k] == run[..k - 1] + [run[k - 1]] && order[..k] == order[..k - 1] + [order[k - 1]];
    }
  }

  lemma FollowsNext(kill: seq<set<nat>>, order: seq<nat>, k: nat)
    requires Backward(kill) && Schedule(kill, order) && k < |order|
    ensures Forced(kill, order, k)
  {
    var done := order[..k];
    forall x: nat | Offered(kill, done, x, Follow(order)) ensures x == order[k] {
      var group :| IsGroup(kill, Elements(done), group) && group != [] && x == Follow(order)(done, group);
      NextIsReady(kill, order, k);
      assert order[k] in group;
    }
  }

  lemma NextIsReady(kill: seq<set<nat>>, order: seq<nat>, k: nat)
    requires Backward(kill) && Schedule(kill, order) && k < |order|
    ensures order[k] < |kill| && order[k] !in order[..k]
    ensures forall b: nat :: InClosure(kill, order[k], b) ==> b in Elements(order[..k])
  {
    assert order[k] in Elements(order);
  }

  /** Every schedule is what the scheduler returns for some callback. */
  lemma EveryScheduleIsPicked(kill: seq<set<nat>>, order: seq<nat>, run: seq<nat>)
    requires Backward(kill) && Schedule(kill, order) && Schedule(kill, run) && Chosen(kill, run, Follow(order))
    ensures Chooses(Follow(order)) && run == order
  {
    SameLength(order, run);
    forall i: nat | i < |order| ensures Forced(kill, order, i) {
      FollowsNext(kill, order, i);
    }
    FollowsPrefix(kill, order, run, |run|);
    assert run[..|run|] == run && order[..|run|] == order;
  }

  /** Every safe order is what the pass produces for some callback. */
  method RescheduleAs(block: seq<Footprint>, close: bool, target: seq<nat>) returns (ok: bool, order: seq<nat>)
    requires AllInRange(block) && SafeOrder(block, target)
    ensures ok <==> !SomeWritesTwice(block)
    ensures ok ==> order == target
  {
    var analysis := new ReachingDef(block);
    order := [];
    ok := analysis.Analyze();
    if !ok {
      return;
    }
    ghost var kill := analysis.killMap;
    if close {
      analysis.ComputeDependencyClosure();
    }
    SafeIsSchedule(block, kill, analysis.killMap, target);
    order := analysis.VisitInstructionGroups(Follow(target));
    EveryScheduleIsPicked(analysis.killMap, target, order);
  }

  lemma {:induction false} DistinctSize(s: seq<nat>)
    requires Distinct(s)
    ensures |Elements(s)| == |s|
    decreases |s|
  {
    if s != [] {
      var n := |s| - 1;
      DistinctSize(s[..n]);
      assert s == s[..n] + [s[n]];
      assert Elements(s) == Elements(s[..n]) + {s[n]};
    }
  }

  lemma SameLength(p: seq<nat>, q: seq<nat>)
    requires Distinct(p) && Distinct(q) && Elements(p) == Elements(q)
    ensures |p| == |q|
  {
    DistinctSize(p);
    DistinctSize(q);
  }
}
