/** The dependency maps of `ReachingDef` and how `setRegRead`, `setRegWrite` and `setBarrier` change
    them, and the invariant that makes `killMap` record exactly the conflicts. */
module KillMap {
  import opened Graphs
  import opened Footprints

  /** `kill[i]` are the instructions that `i` must follow. */
  datatype Maps = Maps(kill: seq<set<nat>>, lastWrite: map<nat, nat>, readers: map<nat, set<nat>>) {
    function ReadersOf(r: nat): set<nat> {
      if r in readers then readers[r] else {}
    }
  }

  // ---- Dependencies ----

  ghost predicate Backward(kill: seq<set<nat>>) {
    forall a, b :: 0 <= a < |kill| && b in kill[a] ==> b < a
  }

  /** `b` is reached from `a` by one or more dependencies. */
  ghost predicate InClosure(kill: seq<set<nat>>, a: nat, b: nat)
    requires Backward(kill) && a < |kill|
    decreases a
  {
    b in kill[a] || exists k :: k in kill[a] && InClosure(kill, k, b)
  }

  ghost predicate OrInClosure(kill: seq<set<nat>>, a: nat, b: nat)
    requires Backward(kill) && a < |kill|
  {
    a == b || InClosure(kill, a, b)
  }

  lemma {:induction false} ClosureBackward(kill: seq<set<nat>>, a: nat, b: nat)
    requires Backward(kill) && a < |kill| && InClosure(kill, a, b)
    ensures b < a
    decreases a
  {
    if b !in kill[a] {
      var k :| k in kill[a] && InClosure(kill, k, b);
      ClosureBackward(kill, k, b);
    }
  }

  lemma {:induction false} ClosureTransitive(kill: seq<set<nat>>, a: nat, b: nat, c: nat)
    requires Backward(kill) && a < |kill| && b < |kill| && InClosure(kill, a, b) && InClosure(kill, b, c)
    ensures InClosure(kill, a, c)
    decreases a
  {
    if b !in kill[a] {
      var k :| k in kill[a] && InClosure(kill, k, b);
      ClosureTransitive(kill, k, b, c);
    }
  }

  /** More dependencies, larger closure. */
  lemma {:induction false} ClosureMonotone(kill: seq<set<nat>>, kill': seq<set<nat>>, a: nat, b: nat)
    requires Backward(kill) && Backward(kill') && |kill| == |kill'| && a < |kill|
    requires forall i :: 0 <= i < |kill| ==> kill[i] <= kill'[i]
    requires InClosure(kill, a, b)
    ensures InClosure(kill', a, b)
    decreases a
  {
    if b !in kill[a] {
      var k :| k in kill[a] && InClosure(kill, k, b);
      ClosureMonotone(kill, kill', k, b);
    }
  }

  // ---- The three operations ----

  function ReadStep(m: Maps, r: nat, i: nat): Maps
    requires i < |m.kill|
  {
    var more := if r in m.lastWrite && m.lastWrite[r] != i then {m.lastWrite[r]} else {};
    m.(kill := m.kill[i := m.kill[i] + more], readers := m.readers[r := m.ReadersOf(r) + {i}])
  }

  function WriteStep(m: Maps, r: nat, i: nat): Maps
    requires i < |m.kill|
  {
    var more := (if r in m.lastWrite then {m.lastWrite[r]} else {}) + (m.ReadersOf(r) - {i});
    m.(kill := m.kill[i := m.kill[i] + more], lastWrite := m.lastWrite[r := i],
       readers := m.readers[r := m.ReadersOf(r) * {i}])
  }

  function BarrierStep(m: Maps, i: nat): Maps
    requires i < |m.kill|
  {
    m.(kill := m.kill[i := m.kill[i] + Ids(i)], lastWrite := m.lastWrite + (map r | r in Ids(LOCATIONS) :: i))
  }

  // ---- The invariant ----

  /** The accesses made when the first `d` of instruction `j`, and all before it, are done. */
  ghost predicate Wrote(fps: seq<Footprint>, j: nat, d: nat, i: nat, r: nat) {
    && i < |fps|
    && ((i < j && (fps[i].Barrier? || Writes(fps[i], r)))
        || (i == j && fps[i].Accesses? && Write(r) in fps[i].list[..Upto(fps[i], d)]))
  }

  ghost predicate HasRead(fps: seq<Footprint>, j: nat, d: nat, i: nat, r: nat) {
    && i < |fps|
    && ((i < j && Reads(fps[i], r))
        || (i == j && fps[i].Accesses? && Read(r) in fps[i].list[..Upto(fps[i], d)]))
  }

  function Upto(fp: Footprint, d: nat): nat
    requires fp.Accesses?
  {
    if d <= |fp.list| then d else |fp.list|
  }

  /** `i` comes before what the next toucher of `r` will depend on. */
  ghost predicate BehindWriter(m: Maps, i: nat, r: nat)
    requires Backward(m.kill)
  {
    r in m.lastWrite && m.lastWrite[r] < |m.kill| && OrInClosure(m.kill, m.lastWrite[r], i)
  }

  ghost predicate Shape(fps: seq<Footprint>, m: Maps, j: nat) {
    && |m.kill| == |fps| && j < |fps| && Backward(m.kill)
    && (forall a :: j < a < |fps| ==> m.kill[a] == {})
  }

  /** The maps point to accesses that were made. */
  ghost predicate Honest(fps: seq<Footprint>, m: Maps, j: nat, d: nat) {
    && (forall r :: r in m.lastWrite ==> Wrote(fps, j, d, m.lastWrite[r], r))
    && (forall r, i :: i in m.ReadersOf(r) ==> HasRead(fps, j, d, i, r))
    && (forall a, b :: 0 <= a < |m.kill| && b in m.kill[a] && a < |fps| && b < |fps| ==> Conflict(fps[b], fps[a]))
  }

  /** No access is forgotten. */
  ghost predicate Tracked(fps: seq<Footprint>, m: Maps, j: nat, d: nat)
    requires Backward(m.kill)
  {
    && (forall i: nat, r: nat :: Wrote(fps, j, d, i, r) && r < LOCATIONS ==> BehindWriter(m, i, r))
    && (forall i: nat, r: nat :: HasRead(fps, j, d, i, r) && r < LOCATIONS ==>
         i in m.ReadersOf(r) || BehindWriter(m, i, r))
  }

  /** The accesses of `j` made so far put it behind everything they clash with. */
  ghost predicate Ordered(fps: seq<Footprint>, m: Maps, j: nat, d: nat)
    requires Backward(m.kill) && |m.kill| == |fps| && j < |fps|
  {
    && (forall i: nat, r: nat ::
          i < j && r < LOCATIONS && Wrote(fps, j, d, i, r) && (HasRead(fps, j, d, j, r) || Wrote(fps, j, d, j, r)) ==>
          InClosure(m.kill, j, i))
    && (forall i: nat, r: nat :: i < j && r < LOCATIONS && HasRead(fps, j, d, i, r) && Wrote(fps, j, d, j, r) ==>
          InClosure(m.kill, j, i))
  }

  ghost predicate Inv(fps: seq<Footprint>, m: Maps, j: nat, d: nat) {
    && Shape(fps, m, j)
    && Honest(fps, m, j, d)
    && Tracked(fps, m, j, d)
    && Ordered(fps, m, j, d)
    && (forall i, k :: 0 <= i < k < j && Conflict(fps[i], fps[k]) ==> InClosure(m.kill, k, i))
  }

  /** The maps when `analyze` starts. */
  function Empty(n: nat): Maps {
    Maps(seq(n, i => {}), map[], map[])
  }

  // ---- The result ----

  /** Everything before `j` that conflicts with it is behind it. */
  ghost predicate Finished(fps: seq<Footprint>, m: Maps, j: nat)
    requires Backward(m.kill) && |m.kill| == |fps| && j < |fps|
  {
    forall i: nat :: i < j && Conflict(fps[i], fps[j]) ==> InClosure(m.kill, j, i)
  }

  /** The dependencies go backward, every one of them is a conflict, and every conflict is
      in their closure. */
  ghost predicate Complete(fps: seq<Footprint>, kill: seq<set<nat>>) {
    && |kill| == |fps| && Backward(kill)
    && (forall a, b :: 0 <= a < |kill| && b in kill[a] && b < |fps| ==> Conflict(fps[b], fps[a]))
    && (forall i, k :: 0 <= i < k < |fps| && Conflict(fps[i], fps[k]) ==> InClosure(kill, k, i))
  }

  /** `b` is before `a` in the block and a chain of conflicts leads from one to the other. */
  ghost predicate ConflictChain(fps: seq<Footprint>, a: nat, b: nat)
    requires a < |fps|
    decreases a
  {
    exists k :: 0 <= k < a && Conflict(fps[k], fps[a]) && (k == b || ConflictChain(fps, k, b))
  }
}
