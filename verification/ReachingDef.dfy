/** The dependency analysis of one basic block, src/analysis/reachingdef.cpp. */
module ReachingDef {
  import opened Graphs
  import opened Footprints
  import opened KillMap
  import opened KillProof

  ghost predicate AllInRange(fps: seq<Footprint>) {
    forall i :: 0 <= i < |fps| ==> InRange(fps[i])
  }

  /** Some instruction declares two writes of one location. */
  predicate SomeWritesTwice(fps: seq<Footprint>) {
    exists i :: 0 <= i < |fps| && fps[i].Accesses? && WritesTwice(fps[i].list)
  }

  /** `dest` is not in the closure of a set that is closed under dependencies and knows no `dest`. */
  lemma {:induction false} ClosureStaysInside(kill: seq<set<nat>>, inside: set<nat>, a: nat, dest: nat)
    requires Backward(kill) && a < |kill| && a in inside
    requires forall p :: p in inside && p < |kill| ==> kill[p] <= inside && dest !in kill[p]
    ensures !InClosure(kill, a, dest)
    decreases a
  {
    forall k | k in kill[a] ensures !InClosure(kill, k, dest) {
      ClosureStaysInside(kill, inside, k, dest);
    }
  }

  lemma ClosureExtends(kill: seq<set<nat>>, a: nat, b: nat, c: nat)
    requires Backward(kill) && a < |kill| && b < |kill| && OrInClosure(kill, a, b) && c in kill[b]
    ensures InClosure(kill, a, c)
  {
    if a != b {
      assert InClosure(kill, b, c);
      ClosureTransitive(kill, a, b, c);
    }
  }

  /** How many entries of the queue have been visited before. */
  function Stale(queue: seq<nat>, visited: set<nat>): nat {
    if queue == [] then 0 else (if queue[0] in visited then 1 else 0) + Stale(queue[1..], visited)
  }

  lemma {:induction false} StaleAppend(queue: seq<nat>, visited: set<nat>, x: nat)
    requires x !in visited
    ensures Stale(queue + [x], visited) == Stale(queue, visited)
  {
    if queue == [] {
      assert [x][1..] == [];
    } else {
      assert (queue + [x])[1..] == queue[1..] + [x];
      StaleAppend(queue[1..], visited, x);
    }
  }

  /** `closed` holds exactly the closure of `kill`. */
  ghost predicate IsClosureOf(closed: seq<set<nat>>, kill: seq<set<nat>>)
    requires Backward(kill)
  {
    |closed| == |kill| && forall a: nat, b: nat :: a < |kill| ==> (b in closed[a] <==> InClosure(kill, a, b))
  }

  lemma ClosureOfClosure(closed: seq<set<nat>>, kill: seq<set<nat>>)
    requires Backward(kill) && IsClosureOf(closed, kill)
    ensures Backward(closed) && IsClosureOf(closed, closed)
  {
    forall a: nat, b: nat | a < |kill| && b in closed[a] ensures b < a {
      ClosureBackward(kill, a, b);
    }
    forall a: nat, b: nat | a < |kill| && InClosure(closed, a, b) ensures b in closed[a] {
      ClosedContains(closed, kill, a, b);
    }
  }

  lemma {:induction false} ClosedContains(closed: seq<set<nat>>, kill: seq<set<nat>>, a: nat, b: nat)
    requires Backward(kill) && IsClosureOf(closed, kill) && Backward(closed) && a < |kill| && InClosure(closed, a, b)
    ensures b in closed[a]
    decreases a
  {
    if b !in closed[a] {
      var k :| k in closed[a] && InClosure(closed, k, b);
      ClosedContains(closed, kill, k, b);
      ClosureTransitive(kill, a, k, b);
    }
  }

  // ---- The queries, on the dependencies alone ----

  ghost predicate AllBelow(kill: seq<set<nat>>, source: nat, queue: seq<nat>)
    requires Backward(kill) && source < |kill|
  {
    forall k :: 0 <= k < |queue| ==> queue[k] < |kill| && OrInClosure(kill, source, queue[k])
  }

  /** None of the expanded instructions leads to `dest`, and what they depend on is expanded or queued. */
  ghost predicate Searched(kill: seq<set<nat>>, expanded: set<nat>, queue: seq<nat>, dest: nat) {
    forall p :: p in expanded ==>
      p < |kill| && dest !in kill[p] && forall k :: k in kill[p] ==> k in expanded || k in queue
  }

  lemma SearchedNext(kill: seq<set<nat>>, expanded: set<nat>, i: nat, rest: seq<nat>, queue: seq<nat>, dest: nat)
    requires i < |kill| && dest !in kill[i] && Searched(kill, expanded, [i] + rest, dest) && rest <= queue
    requires forall k :: k in kill[i] ==> k in expanded + {i} || k in queue
    ensures Searched(kill, expanded + {i}, queue, dest)
  {
    forall p, k | p in expanded && k in kill[p] ensures k in expanded + {i} || k in queue {
      if k !in expanded + {i} {
        assert k in rest;
      }
    }
  }

  /** `inKillClosure` queues what was not visited, but marks it visited only when it is taken out. */
  method InKillClosure(kill: seq<set<nat>>, source: nat, dest: nat) returns (found: bool)
    requires Backward(kill) && source < |kill|
    ensures found <==> InClosure(kill, source, dest)
  {
    var queue: seq<nat>, visited: set<nat> := [source], {source};
    ghost var expanded: set<nat> := {};
    while queue != []
      invariant visited == expanded + {source} && visited <= Ids(|kill|)
      invariant source in expanded || queue == [source]
      invariant AllBelow(kill, source, queue)
      invariant Searched(kill, expanded, queue, dest)
      decreases Ids(|kill|) - visited, Stale(queue, visited)
    {
      var i := queue[0];
      assert queue == [i] + queue[1..];
      if i in visited {
        assert visited + {i} == visited;
      }
      ghost var rest := queue[1..];
      queue := queue[1..];
      visited := visited + {i};
      if dest in kill[i] {
        ClosureExtends(kill, source, i, dest);
        return true;
      }
      queue := PushUnvisited(kill, queue, visited, source, i);
      SearchedNext(kill, expanded, i, rest, queue, dest);
      expanded := expanded + {i};
    }
    ClosureStaysInside(kill, expanded, source, dest);
    found := false;
  }

  /** The inner loop of `inKillClosure`. */
  method PushUnvisited(kill: seq<set<nat>>, before: seq<nat>, visited: set<nat>, ghost source: nat, i: nat)
    returns (queue: seq<nat>)
    requires Backward(kill) && source < |kill| && i < |kill| && OrInClosure(kill, source, i)
    requires AllBelow(kill, source, before)
    ensures before <= queue
    ensures AllBelow(kill, source, queue)
    ensures forall k :: k in kill[i] ==> k in visited || k in queue
    ensures Stale(queue, visited) == Stale(before, visited)
  {
    queue := before;
    var todo := kill[i];
    while todo != {}
      invariant todo <= kill[i] && before <= queue
      invariant AllBelow(kill, source, queue)
      invariant forall k :: k in kill[i] ==> k in visited || k in queue || k in todo
      invariant Stale(queue, visited) == Stale(before, visited)
      decreases todo
    {
      var x :| x in todo;
      todo := todo - {x};
      if x !in visited {
        ClosureExtends(kill, source, i, x);
        StaleAppend(queue, visited, x);
        queue := queue + [x];
      }
    }
  }

  /** `areDependenciesCovered`: with a closed map only direct dependencies are looked at, otherwise
      the call recurses. Either way the answer is about all of them. */
  method AreDependenciesCovered(kill: seq<set<nat>>, closed: bool, instr: nat, covered: set<nat>) returns (all: bool)
    requires Backward(kill) && instr < |kill| && (closed ==> IsClosureOf(kill, kill))
    ensures all <==> forall b: nat :: InClosure(kill, instr, b) ==> b in covered
    decreases instr
  {
    var todo := kill[instr];
    while todo != {}
      invariant todo <= kill[instr]
      invariant forall d :: d in kill[instr] - todo ==> d in covered
      invariant !closed ==> forall d, b: nat :: d in kill[instr] - todo && InClosure(kill, d, b) ==> b in covered
      decreases todo
    {
      var dependency :| dependency in todo;
      if dependency !in covered {
        return false;
      }
      if !closed {
        var below := AreDependenciesCovered(kill, closed, dependency, covered);
        if !below {
          ghost var b: nat :| InClosure(kill, dependency, b) && b !in covered;
          ClosureTransitive(kill, instr, dependency, b);
          return false;
        }
      }
      todo := todo - {dependency};
    }
    all := true;
  }

  /** One row of the new map in `computeDependencyClosure`. */
  method ClosureRow(kill: seq<set<nat>>, source: nat) returns (reached: set<nat>)
    requires Backward(kill) && source < |kill|
    ensures forall b: nat :: b in reached <==> InClosure(kill, source, b)
  {
    reached := {};
    var dest := 0;
    while dest < |kill|
      invariant dest <= |kill|
      invariant forall b: nat :: b in reached <==> b < dest && InClosure(kill, source, b)
    {
      var found := InKillClosure(kill, source, dest);
      if found {
        reached := reached + {dest};
      }
      dest := dest + 1;
    }
    forall b: nat | InClosure(kill, source, b) ensures b < |kill| {
      ClosureBackward(kill, source, b);
    }
  }

  /** The instructions that may come next after `visited`, in some order. */
  ghost predicate IsGroup(kill: seq<set<nat>>, visited: set<nat>, group: seq<nat>)
    requires Backward(kill)
  {
    && Distinct(group)
    && forall a: nat :: a in group <==>
         a < |kill| && a !in visited && forall b: nat :: InClosure(kill, a, b) ==> b in visited
  }

  /** The callback returns a member of the group it is given. */
  ghost predicate Chooses(pick: (seq<nat>, seq<nat>) -> nat) {
    forall done: seq<nat>, group: seq<nat> :: group != [] ==> pick(done, group) in group
  }

  /** `chosen` is what the callback picks of the ready instructions after `done`. */
  ghost predicate Offered(kill: seq<set<nat>>, done: seq<nat>, chosen: nat, pick: (seq<nat>, seq<nat>) -> nat)
    requires Backward(kill)
  {
    exists group: seq<nat> :: IsGroup(kill, Elements(done), group) && group != [] && chosen == pick(done, group)
  }

  /** The loop of `visitInstructionGroups` that collects a group. */
  method ReadyGroup(kill: seq<set<nat>>, closed: bool, available: set<nat>, visited: set<nat>) returns (group: seq<nat>)
    requires Backward(kill) && (closed ==> IsClosureOf(kill, kill))
    requires available !! visited && available + visited == Ids(|kill|)
    ensures IsGroup(kill, visited, group)
  {
    group := [];
    var todo := available;
    while todo != {}
      invariant todo <= available && Distinct(group)
      invariant forall a: nat :: a in group <==>
                  a in available - todo && forall b: nat :: InClosure(kill, a, b) ==> b in visited
      decreases todo
    {
      var a :| a in todo;
      var ready := AreDependenciesCovered(kill, closed, a, visited);
      if ready {
        group := group + [a];
      }
      todo := todo - {a};
    }
  }

  /** Every instruction once, and everything it depends on before it. */
  ghost predicate Schedule(kill: seq<set<nat>>, order: seq<nat>)
    requires Backward(kill)
  {
    && Distinct(order) && Elements(order) == Ids(|kill|)
    && Respects(kill, order)
  }

  /** Whatever is in `order` comes after all its dependencies. */
  ghost predicate Respects(kill: seq<set<nat>>, order: seq<nat>)
    requires Backward(kill)
  {
    forall k: nat, b: nat :: k < |order| && order[k] < |kill| && InClosure(kill, order[k], b) ==> b in order[..k]
  }

  /** `order` is a run of the scheduler with this callback, not yet complete. */
  ghost predicate Chosen(kill: seq<set<nat>>, order: seq<nat>, pick: (seq<nat>, seq<nat>) -> nat)
    requires Backward(kill)
  {
    && Distinct(order) && Respects(kill, order)
    && forall k :: 0 <= k < |order| ==> Offered(kill, order[..k], order[k], pick)
  }

  lemma ChosenNext(kill: seq<set<nat>>, order: seq<nat>, group: seq<nat>, pick: (seq<nat>, seq<nat>) -> nat)
    requires Backward(kill) && Chosen(kill, order, pick) && Chooses(pick)
    requires group != [] && IsGroup(kill, Elements(order), group)
    ensures pick(order, group) in group && Chosen(kill, order + [pick(order, group)], pick)
  {
    var x := pick(order, group);
    var more := order + [x];
    forall k | 0 <= k < |more| ensures Offered(kill, more[..k], more[k], pick) {
      assert more[..k] == order[..k];
      assert order[..|order|] == order;
    }
    forall k: nat, b: nat | k < |more| && more[k] < |kill| && InClosure(kill, more[k], b) ensures b in more[..k] {
      assert more[..k] == order[..k];
      assert order[..|order|] == order;
    }
  }

  /** The earliest remaining instruction has all its dependencies behind it. */
  lemma EarliestIsReady(kill: seq<set<nat>>, available: set<nat>, visited: set<nat>) returns (first: nat)
    requires Backward(kill) && available != {} && available + visited == Ids(|kill|)
    ensures first in available && forall b: nat :: InClosure(kill, first, b) ==> b in visited
  {
    first := Least(available);
    forall b: nat | InClosure(kill, first, b) ensures b in visited {
      ClosureBackward(kill, first, b);
      assert b in Ids(|kill|);
    }
  }

  lemma {:induction false} Least(s: set<nat>) returns (x: nat)
    requires s != {}
    ensures x in s && forall y :: y in s ==> x <= y
    decreases s
  {
    var z :| z in s;
    x := z;
    if s != {z} {
      var y := Least(s - {z});
      x := if y < z then y else z;
      assert forall w :: w in s ==> w == z || w in s - {z};
    }
  }

  /** The state of the scheduler's loop. */
  ghost predicate Running(kill: seq<set<nat>>, available: set<nat>, visited: set<nat>, order: seq<nat>,
                          pick: (seq<nat>, seq<nat>) -> nat)
    requires Backward(kill)
  {
    && available !! visited && available + visited == Ids(|kill|)
    && Elements(order) == visited && Chosen(kill, order, pick)
  }

  lemma RunningNext(kill: seq<set<nat>>, available: set<nat>, visited: set<nat>, order: seq<nat>, group: seq<nat>,
                    pick: (seq<nat>, seq<nat>) -> nat)
    requires Backward(kill) && Running(kill, available, visited, order, pick) && Chooses(pick)
    requires group != [] && IsGroup(kill, visited, group)
    ensures var x := pick(order, group);
            x in available && Running(kill, available - {x}, visited + {x}, order + [x], pick)
  {
    ChosenNext(kill, order, group, pick);
  }

  /** The scheduler never stops with instructions remaining. */
  lemma NoneReadyNoneLeft(kill: seq<set<nat>>, available: set<nat>, visited: set<nat>)
    requires Backward(kill) && available !! visited && available + visited == Ids(|kill|) && IsGroup(kill, visited, [])
    ensures available == {}
  {
    if available != {} {
      var first := EarliestIsReady(kill, available, visited);
      assert false;
    }
  }

  // ---- The analysis ----

  class ReachingDef {
    const fps: seq<Footprint>
    var killMap: seq<set<nat>>
    var currentWriteMap: map<nat, nat>
    var currentReadMap: map<nat, set<nat>>
    var dependencyClosure: bool

    function State(): Maps
      reads this
    {
      Maps(killMap, currentWriteMap, currentReadMap)
    }

    /** What the queries and the scheduler need of an analysed block. */
    ghost predicate Analysed()
      reads this
    {
      && |killMap| == |fps| && Backward(killMap)
      && (dependencyClosure ==> IsClosureOf(killMap, killMap))
    }

    constructor (block: seq<Footprint>)
      ensures fps == block && State() == Empty(|block|) && !dependencyClosure
    {
      fps := block;
      killMap := seq(|block|, i => {});
      currentWriteMap := map[];
      currentReadMap := map[];
      dependencyClosure := false;
    }

    method SetRegRead(reg: nat, instr: nat)
      requires instr < |killMap|
      modifies this`killMap, this`currentReadMap
      ensures State() == ReadStep(old(State()), reg, instr)
    {
      if reg in currentWriteMap && currentWriteMap[reg] != instr {
        killMap := killMap[instr := killMap[instr] + {currentWriteMap[reg]}];
      }
      ghost var target := ReadStep(old(State()), reg, instr);
      assert killMap[instr] == target.kill[instr];
      assert killMap == target.kill;
      var before := if reg in currentReadMap then currentReadMap[reg] else {};
      currentReadMap := currentReadMap[reg := before + {instr}];
    }

    /** The assertion at the end fails when `instr` has become its own dependency. */
    method SetRegWrite(reg: nat, instr: nat) returns (ok: bool)
      requires instr < |killMap| && instr !in killMap[instr]
      modifies this`killMap, this`currentWriteMap, this`currentReadMap
      ensures ok <==> !(reg in old(currentWriteMap) && old(currentWriteMap)[reg] == instr)
      ensures ok ==> State() == WriteStep(old(State()), reg, instr)
    {
      if reg in currentWriteMap {
        killMap := killMap[instr := killMap[instr] + {currentWriteMap[reg]}];
      }
      var readers := if reg in currentReadMap then currentReadMap[reg] else {};
      var loop := instr in readers;
      if loop {
        readers := readers - {instr};
      }
      killMap := killMap[instr := killMap[instr] + readers];
      ghost var target := WriteStep(old(State()), reg, instr);
      assert killMap[instr] == target.kill[instr];
      assert killMap == target.kill;
      ok := instr !in killMap[instr];
      if ok {
        currentWriteMap := currentWriteMap[reg := instr];
        currentReadMap := currentReadMap[reg := if loop then {instr} else {}];
        assert currentReadMap[reg] == target.readers[reg];
        assert currentReadMap == target.readers;
      }
    }

    method SetBarrier(instr: nat)
      requires instr < |killMap|
      modifies this`killMap, this`currentWriteMap
      ensures State() == BarrierStep(old(State()), instr)
    {
      KillAllBefore(instr);
      WriteEverything(instr);
    }

    /** The loop at the start of `setBarrier`, over the preceding siblings. */
    method KillAllBefore(instr: nat)
      requires instr < |killMap|
      modifies this`killMap
      ensures killMap == old(killMap)[instr := old(killMap)[instr] + Ids(instr)]
    {
      var c := instr;
      while c > 0
        invariant 0 <= c <= instr && |killMap| == |old(killMap)|
        invariant forall i :: 0 <= i < |killMap| && i != instr ==> killMap[i] == old(killMap)[i]
        invariant killMap[instr] == old(killMap)[instr] + set x | x in Ids(instr) && c <= x
      {
        c := c - 1;
        killMap := killMap[instr := killMap[instr] + {c}];
      }
      assert killMap[instr] == old(killMap)[instr] + Ids(instr);
    }

    /** The loop at the end of `setBarrier`. */
    method WriteEverything(instr: nat)
      modifies this`currentWriteMap
      ensures currentWriteMap == old(currentWriteMap) + (map r | r in Ids(LOCATIONS) :: instr)
    {
      var r := 0;
      while r <= REGISTER_NUMBER + 1
        invariant 0 <= r <= LOCATIONS
        invariant forall q: nat :: q in currentWriteMap <==> q in old(currentWriteMap) || q < r
        invariant forall q :: q in currentWriteMap ==>
                    currentWriteMap[q] == if q < r then instr else old(currentWriteMap)[q]
      {
        currentWriteMap := currentWriteMap[r := instr];
        r := r + 1;
      }
    }

    /** A handler: its declarations in order. */
    method Fill(instr: nat) returns (ok: bool)
      requires Inv(fps, State(), instr, 0) && fps[instr].Accesses? && InRange(fps[instr])
      modifies this`killMap, this`currentWriteMap, this`currentReadMap
      ensures ok <==> !WritesTwice(fps[instr].list)
      ensures ok ==> Inv(fps, State(), instr, |fps[instr].list|)
    {
      var list := fps[instr].list;
      var d := 0;
      while d < |list|
        invariant d <= |list| && Inv(fps, State(), instr, d) && !WritesTwice(list[..d])
      {
        assert list[..d + 1] == list[..d] + [list[d]];
        WritesTwiceAppend(list[..d], list[d]);
        match list[d] {
          case Read(r) =>
            ReadKeeps(fps, State(), instr, d, r);
            SetRegRead(r, instr);
          case Write(r) =>
            SelfWrite(fps, State(), instr, d, r);
            if Write(r) !in list[..d] {
              WriteKeeps(fps, State(), instr, d, r);
            }
            ok := SetRegWrite(r, instr);
            if !ok {
              WritesTwicePrefix(list, d + 1);
              return;
            }
        }
        d := d + 1;
      }
      assert list[..d] == list;
      ok := true;
    }

    /** One turn of the loop in `analyze`. */
    method AnalyzeOne(i: nat) returns (ok: bool)
      requires Inv(fps, State(), i, 0) && InRange(fps[i])
      modifies this`killMap, this`currentWriteMap, this`currentReadMap
      ensures ok <==> !(fps[i].Accesses? && WritesTwice(fps[i].list))
      ensures ok && i + 1 < |fps| ==> Inv(fps, State(), i + 1, 0)
      ensures ok && i + 1 == |fps| ==> Complete(fps, killMap)
    {
      if fps[i].Accesses? {
        ok := Fill(i);
        if !ok {
          return;
        }
        if i + 1 < |fps| {
          NextKeeps(fps, State(), i);
        } else {
          LastCompletes(fps, State(), i);
        }
      } else {
        if i + 1 < |fps| {
          BarrierKeeps(fps, State(), i);
        } else {
          LastCompletes(fps, State(), i);
        }
        SetBarrier(i);
        ok := true;
      }
    }

    /** The declarations are accepted unless an instruction writes a location twice; then the
        dependencies are exactly the conflicts, up to closure. */
    method Analyze() returns (ok: bool)
      requires AllInRange(fps) && State() == Empty(|fps|)
      modifies this`killMap, this`currentWriteMap, this`currentReadMap
      ensures ok <==> !SomeWritesTwice(fps)
      ensures ok ==> Complete(fps, killMap)
    {
      if fps == [] {
        return true;
      }
      EmptyInv(fps);
      var i := 0;
      while i < |fps|
        invariant i <= |fps|
        invariant i < |fps| ==> Inv(fps, State(), i, 0)
        invariant i == |fps| ==> Complete(fps, killMap)
        invariant !SomeWritesTwice(fps[..i])
      {
        assert fps[..i + 1] == fps[..i] + [fps[i]];
        ok := AnalyzeOne(i);
        if !ok {
          return;
        }
        i := i + 1;
      }
      assert fps[..i] == fps;
      ok := true;
    }

    /** `computeDependencyClosure(false)`: the closure of the map as it was, and no more. */
    method ComputeDependencyClosure()
      requires Analysed()
      modifies this`killMap, this`dependencyClosure
      ensures IsClosureOf(killMap, old(killMap)) && dependencyClosure && Analysed()
      ensures forall a: nat, b: nat :: a < |fps| ==> (InClosure(killMap, a, b) <==> InClosure(old(killMap), a, b))
    {
      var newKillMap: seq<set<nat>> := [];
      while |newKillMap| < |fps|
        invariant |newKillMap| <= |fps| && unchanged(this)
        invariant forall a: nat, b: nat :: a < |newKillMap| ==> (b in newKillMap[a] <==> InClosure(killMap, a, b))
      {
        var reached := ClosureRow(killMap, |newKillMap|);
        newKillMap := newKillMap + [reached];
      }
      ClosureOfClosure(newKillMap, killMap);
      killMap := newKillMap;
      dependencyClosure := true;
    }

    /** `visitInstructionGroups`: `pick` is the callback, which may remember its earlier choices.
        Every instruction is chosen once, after everything it depends on, and the loop never
        stops early. */
    method VisitInstructionGroups(pick: (seq<nat>, seq<nat>) -> nat) returns (order: seq<nat>)
      requires Analysed() && Chooses(pick)
      ensures Schedule(killMap, order)
      ensures Chosen(killMap, order, pick)
    {
      var available := Ids(|fps|);
      var visited: set<nat> := {};
      order := [];
      while true
        invariant Running(killMap, available, visited, order, pick)
        decreases available
      {
        var group := ReadyGroup(killMap, dependencyClosure, available, visited);
        if group == [] {
          NoneReadyNoneLeft(killMap, available, visited);
          return;
        }
        var chosen := pick(order, group);
        RunningNext(killMap, available, visited, order, group, pick);
        available := available - {chosen};
        visited := visited + {chosen};
        order := order + [chosen];
      }
    }
  }

  lemma WritesTwiceAppend(list: seq<Access>, x: Access)
    ensures WritesTwice(list + [x]) <==> WritesTwice(list) || (x.Write? && x in list)
  {
    var more := list + [x];
    if WritesTwice(list) {
      var a, b :| 0 <= a < b < |list| && list[a].Write? && list[a] == list[b];
      assert more[a] == more[b];
    }
    if x.Write? && x in list {
      var a :| 0 <= a < |list| && list[a] == x;
      assert more[a] == more[|list|];
    }
  }

  lemma WritesTwicePrefix(list: seq<Access>, d: nat)
    requires d <= |list| && WritesTwice(list[..d])
    ensures WritesTwice(list)
  {
    var a, b :| 0 <= a < b < d && list[..d][a].Write? && list[..d][a] == list[..d][b];
    assert list[a] == list[b];
  }
}
