/** `SccCollection` driven by the depth-first walk: `SccOrder::gen` and `SccOrder::genFull`. */
module Scc {
  import opened Graphs
  import opened Dfs
  import opened NodeOrder
  import opened SccState
  import opened SccProof

  // ---- Finishing order ----

  ghost predicate Before(list: seq<nat>, u: nat, v: nat) {
    exists a, b :: 0 <= a < b < |list| && list[a] == u && list[b] == v
  }

  /** `finished` lists the nodes in the order of their `postVisit`. */
  ghost predicate InFinishingOrder(finished: seq<nat>, st: State) {
    && (forall i :: 0 <= i < |st.poStack| ==> st.poStack[i] in finished)
    && (forall i, j :: 0 <= i < j < |st.poStack| ==> Before(finished, st.poStack[i], st.poStack[j]))
    && (forall k :: 0 <= k < |st.comps| ==> LastFinishedFirst(finished, st.comps[k]))
  }

  /** The first nodes of the lists finish in the order of the lists. */
  ghost predicate HeadsFinish(finished: seq<nat>, comps: seq<seq<nat>>) {
    && (forall k :: 0 <= k < |comps| ==> comps[k] != [] && comps[k][0] in finished)
    && (forall k, m :: 0 <= k < m < |comps| ==> Before(finished, comps[k][0], comps[m][0]))
  }

  ghost predicate LastFinishedFirst(finished: seq<nat>, c: seq<nat>) {
    forall i, j :: 0 <= i < j < |c| ==> Before(finished, c[j], c[i])
  }

  lemma BeforeExtends(list: seq<nat>, more: seq<nat>, u: nat, v: nat)
    requires Before(list, u, v)
    ensures Before(list + more, u, v)
  {
    var a, b :| 0 <= a < b < |list| && list[a] == u && list[b] == v;
    assert (list + more)[a] == u && (list + more)[b] == v;
  }

  lemma PushKeepsOrder(finished: seq<nat>, po: seq<nat>, x: nat)
    requires forall i :: 0 <= i < |po| ==> po[i] in finished
    requires forall i, j :: 0 <= i < j < |po| ==> Before(finished, po[i], po[j])
    ensures var po1, finished1 := po + [x], finished + [x];
            && (forall i :: 0 <= i < |po1| ==> po1[i] in finished1)
            && forall i, j :: 0 <= i < j < |po1| ==> Before(finished1, po1[i], po1[j])
  {
    var po1, finished1 := po + [x], finished + [x];
    forall i, j | 0 <= i < j < |po1| ensures Before(finished1, po1[i], po1[j]) {
      if j < |po| {
        BeforeExtends(finished, [x], po[i], po[j]);
      } else {
        var a :| 0 <= a < |finished| && finished[a] == po[i];
        assert finished1[a] == po1[i] && finished1[|finished|] == x;
      }
    }
  }

  lemma ApplyKeepsOrder(g: Graph, finished: seq<nat>, st: State, e: Event)
    requires Sized(g, st) && InFinishingOrder(finished, st)
    ensures InFinishingOrder(finished + Collected(Postorder, [e]), Apply(g, st, e))
  {
    var more := Collected(Postorder, [e]);
    assert Collected(Postorder, [e][1..]) == [];
    assert more == if e.Post? then [e.node] else [];
    if e.Post? {
      PushKeepsOrder(finished, st.poStack, e.node);
    }
    OrderExtends(finished, more, st);
  }

  lemma ApplyKeepsHeads(g: Graph, finished: seq<nat>, st: State, e: Event)
    requires Sized(g, st) && HeadsFinish(finished, st.comps)
    ensures HeadsFinish(finished + Collected(Postorder, [e]), Apply(g, st, e).comps)
  {
    var more := Collected(Postorder, [e]);
    assert Collected(Postorder, [e][1..]) == [];
    if e.Post? {
      assert more == [e.node];
      HeadsNext(finished, st.comps, e.node);
    } else {
      assert more == [] && finished + more == finished;
    }
  }

  /** One more list, whose first node finishes now. */
  lemma HeadsNext(finished: seq<nat>, comps: seq<seq<nat>>, x: nat)
    requires HeadsFinish(finished, comps)
    ensures HeadsFinish(finished + [x], comps)
    ensures forall c: seq<nat> :: c != [] && c[0] == x ==> HeadsFinish(finished + [x], comps + [c])
  {
    HeadsExtend(finished, [x], comps);
    forall k | 0 <= k < |comps| ensures Before(finished + [x], comps[k][0], x) {
      var a :| 0 <= a < |finished| && finished[a] == comps[k][0];
      assert (finished + [x])[a] == comps[k][0] && (finished + [x])[|finished|] == x;
    }
  }

  lemma HeadsExtend(finished: seq<nat>, more: seq<nat>, comps: seq<seq<nat>>)
    requires HeadsFinish(finished, comps)
    ensures HeadsFinish(finished + more, comps)
  {
    forall k, m | 0 <= k < m < |comps| ensures Before(finished + more, comps[k][0], comps[m][0]) {
      BeforeExtends(finished, more, comps[k][0], comps[m][0]);
    }
  }

  lemma OrderExtends(finished: seq<nat>, more: seq<nat>, st: State)
    requires InFinishingOrder(finished, st)
    ensures InFinishingOrder(finished + more, st)
  {
    forall i, j | 0 <= i < j < |st.poStack| ensures Before(finished + more, st.poStack[i], st.poStack[j]) {
      BeforeExtends(finished, more, st.poStack[i], st.poStack[j]);
    }
    forall k | 0 <= k < |st.comps| ensures LastFinishedFirst(finished + more, st.comps[k]) {
      var c := st.comps[k];
      forall i, j | 0 <= i < j < |c| ensures Before(finished + more, c[j], c[i]) {
        BeforeExtends(finished, more, c[j], c[i]);
      }
    }
  }

  /** Whatever the callbacks, the lists stay in finishing order. */
  lemma {:induction false} RunKeepsOrder(g: Graph, finished: seq<nat>, st: State, log: seq<Event>, all: seq<nat>)
    requires Sized(g, st) && InFinishingOrder(finished, st) && HeadsFinish(finished, st.comps)
    requires all == finished + Collected(Postorder, log)
    ensures InFinishingOrder(all, Run(g, st, log)) && HeadsFinish(all, Run(g, st, log).comps)
    decreases log
  {
    if log == [] {
      assert all == finished;
    } else {
      var more, rest := Collected(Postorder, [log[0]]), Collected(Postorder, log[1..]);
      assert log == [log[0]] + log[1..];
      CollectedConcat(Postorder, [log[0]], log[1..]);
      assert all == finished + more + rest;
      ApplyKeepsOrder(g, finished, st, log[0]);
      ApplyKeepsHeads(g, finished, st, log[0]);
      RunKeepsOrder(g, finished + more, Apply(g, st, log[0]), log[1..], all);
    }
  }

  // ---- All laps ----

  /** The postorder of the laps, one after the other. */
  function Finished(laps: seq<Walk>): seq<nat> {
    if laps == [] then [] else Finished(laps[..|laps| - 1]) + Collected(Postorder, laps[|laps| - 1].log)
  }

  lemma FinishedAppend(laps: seq<Walk>, w: Walk)
    ensures Finished(laps + [w]) == Finished(laps) + Collected(Postorder, w.log)
  {
    assert (laps + [w])[..|laps|] == laps;
  }

  /** No node finishes twice, so `Before` orders the finished nodes. */
  lemma FinishedOnce(g: Graph, id: nat)
    requires id < |g|
    ensures Distinct(Finished(Laps(g, id)))
  {
    var w := Visit(g, id, {});
    FinishedAppend([], w);
    assert [] + [w] == [w];
    forall u: nat ensures multiset(Finished(Laps(g, id)))[u] <= 1 {
      CollectsVisited(Postorder, g, id, {}, u);
      LaterLapsFinishOnce(g, 1, w.seen, [w], Laps(g, id), u);
    }
    DistinctByCount(Finished(Laps(g, id)));
  }

  lemma {:induction false} LaterLapsFinishOnce(g: Graph, i: nat, seen: set<nat>, done: seq<Walk>, laps: seq<Walk>,
                                               u: nat)
    requires i <= |g| && seen <= Nodes(g) && laps == done + LapsFrom(g, i, seen)
    requires multiset(Finished(done))[u] == if u in seen then 1 else 0
    ensures multiset(Finished(laps))[u] <= 1
    decreases |g| - i
  {
    if i == |g| {
      NoMoreLaps(g, seen, done);
    } else {
      LapsShift(g, i, seen, done);
      if i in seen {
        LaterLapsFinishOnce(g, i + 1, seen, done, laps, u);
      } else {
        var w := Visit(g, i, seen);
        LapCounts(g, i, seen, done, u);
        LaterLapsFinishOnce(g, i + 1, w.seen, done + [w], laps, u);
      }
    }
  }

  lemma LapCounts(g: Graph, i: nat, seen: set<nat>, done: seq<Walk>, u: nat)
    requires i < |g| && i !in seen && seen <= Nodes(g)
    requires multiset(Finished(done))[u] == if u in seen then 1 else 0
    ensures var w := Visit(g, i, seen);
            multiset(Finished(done + [w]))[u] == if u in w.seen then 1 else 0
  {
    FinishedAppend(done, Visit(g, i, seen));
    CollectsVisited(Postorder, g, i, seen, u);
  }

  /** The nodes from 1 up to `i` are visited. */
  ghost predicate AllBelow(i: nat, seen: set<nat>) {
    forall v: nat :: 1 <= v < i ==> v in seen
  }

  lemma AllBelowNext(i: nat, seen: set<nat>, seen': set<nat>)
    requires AllBelow(i, seen) && seen <= seen' && i in seen'
    ensures AllBelow(i + 1, seen')
  {
  }

  lemma NoMoreLaps(g: Graph, seen: set<nat>, done: seq<Walk>)
    requires seen <= Nodes(g)
    ensures done + LapsFrom(g, |g|, seen) == done
  {
  }

  /** `walkAll(first)` skips node 0 in its loop, so node 0 has to be reached otherwise. */
  ghost predicate ZeroIsVisited(g: Graph, first: nat) {
    first == 0 || exists u :: 0 < u < |g| && Reaches(g, u, 0)
  }

  /** The invariant between laps. (Stated of every state equal to `st`, so that it is unfolded
      only where it is used.) */
  ghost predicate Settled(g: Graph, seen: set<nat>, finished: seq<nat>, st: State) {
    Sized(g, st) && forall s :: s == st ==>
      Inv(g, seen, {}, s) && InFinishingOrder(finished, s) && HeadsFinish(finished, s.comps)
  }

  /** The bottom of the stack is being visited. */
  lemma BottomIsGrey(g: Graph, seen: set<nat>, grey: set<nat>, st: State)
    requires Inv(g, seen, grey, st) && st.stack != []
    ensures st.stack[0] in grey
  {
    var y := st.stack[0];
    assert y in grey || Waiting(g, seen, st, y);
    forall w: nat | w in st.stack ensures st.discovery[y] <= st.discovery[w] {
      var j :| 0 <= j < |st.stack| && st.stack[j] == w;
      assert j == 0 || st.discovery[st.stack[0]] < st.discovery[st.stack[j]];
    }
  }

  /** Between laps the stack is empty. */
  lemma NothingWaits(g: Graph, seen: set<nat>, st: State)
    requires Inv(g, seen, {}, st)
    ensures st.stack == []
  {
    if st.stack != [] {
      BottomIsGrey(g, seen, {}, st);
    }
  }

  lemma CleanSettled(g: Graph, st: State)
    requires Sized(g, st) && st.stack == st.poStack == [] && st.comps == []
    requires forall v :: 0 <= v < |g| ==> !st.onStack[v]
    ensures Settled(g, {}, [], st)
  {
  }

  /** The callbacks of `log` can all be handled and lead from `st` to `target`. (Stated of every
      log equal to `log`, so that it is unfolded only where it is used.) */
  ghost predicate Leads(g: Graph, st: State, log: seq<Event>, target: State) {
    Sized(g, st) && forall l :: l == log ==> Handled(g, st, l) && Run(g, st, l) == target
  }

  lemma LeadsDone(g: Graph, st: State, target: State)
    requires Leads(g, st, [], target)
    ensures st == target
  {
    assert Run(g, st, []) == st;
  }

  lemma LeadsVisit(g: Graph, x: nat, seen: set<nat>, st: State, target: State) returns (mid: State)
    requires x < |g| && x !in seen && seen <= Nodes(g) && Leads(g, st, Visit(g, x, seen).log, target)
    ensures Leads(g, PreStep(g, st, x), VisitLinks(g, x, 0, seen + {x}).log, mid)
    ensures Sized(g, mid) && Fits(g, mid, Post(x)) && PostStep(g, mid, x) == target
  {
    mid := Run(g, PreStep(g, st, x), VisitLinks(g, x, 0, seen + {x}).log);
    RunVisit(g, x, seen, st);
    assert Handled(g, st, Visit(g, x, seen).log);
  }

  lemma LeadsLate(g: Graph, x: nat, i: nat, seen: set<nat>, st: State, target: State)
    requires x < |g| && i < |g[x]| && seen <= Nodes(g) && g[x][i] in seen
    requires Leads(g, st, VisitLinks(g, x, i, seen).log, target)
    ensures Leads(g, LateStep(g, st, x, g[x][i]), VisitLinks(g, x, i + 1, seen).log, target)
  {
    RunLate(g, x, i, seen, st);
    assert Handled(g, st, VisitLinks(g, x, i, seen).log);
  }

  lemma LeadsChild(g: Graph, x: nat, i: nat, seen: set<nat>, st: State, target: State) returns (mid: State)
    requires x < |g| && i < |g[x]| && seen <= Nodes(g) && g[x][i] !in seen
    requires Leads(g, st, VisitLinks(g, x, i, seen).log, target)
    ensures var c := Visit(g, g[x][i], seen);
            Leads(g, st, c.log, mid) && Leads(g, mid, VisitLinks(g, x, i + 1, c.seen).log, target)
  {
    mid := Run(g, st, Visit(g, g[x][i], seen).log);
    RunChild(g, x, i, seen, st);
    assert Handled(g, st, VisitLinks(g, x, i, seen).log);
  }

  /** A walk from an unvisited node, between laps, can be handled and settles again. */
  lemma LapLeads(g: Graph, x: nat, seen: set<nat>, finished: seq<nat>, st: State) returns (target: State)
    requires Settled(g, seen, finished, st) && x < |g| && x !in seen && seen <= Nodes(g)
    ensures Leads(g, st, Visit(g, x, seen).log, target)
    ensures Settled(g, Visit(g, x, seen).seen, finished + Collected(Postorder, Visit(g, x, seen).log), target)
  {
    target := Run(g, st, Visit(g, x, seen).log);
    assert Inv(g, seen, {}, st);
    VisitKeeps(g, x, seen, {}, st);
    VisitHandled(g, x, seen, {}, st);
    RunKeepsOrder(g, finished, st, Visit(g, x, seen).log, finished + Collected(Postorder, Visit(g, x, seen).log));
  }

  // ---- The result ----

  ghost predicate Listed(order: seq<seq<nat>>, v: nat) {
    exists i :: 0 <= i < |order| && v in order[i]
  }

  /** Each list is one component, no node is listed twice, and links lead to the same list or a
      later one. */
  ghost predicate Topological(g: Graph, order: seq<seq<nat>>) {
    && (forall i :: 0 <= i < |order| ==> Component(g, order[i]))
    && (forall i, j, v :: 0 <= i < j < |order| && v in order[i] ==> v !in order[j])
    && (forall i, j, u, v :: 0 <= i < |order| && 0 <= j < |order| && u in order[i] && v in order[j] && Edge(g, u, v) ==>
          i <= j)
  }

  /** Between laps, the emitted lists reversed are the components of what was visited. */
  lemma ReversedComponents(g: Graph, seen: set<nat>, st: State)
    requires Inv(g, seen, {}, st)
    ensures Topological(g, Reverse(st.comps))
    ensures forall v :: Listed(Reverse(st.comps), v) <==> v in seen
    ensures ClosedUnder(g, seen)
  {
    NothingWaits(g, seen, st);
    EmittedClosed(g, seen, st, set y | y in seen && y !in st.stack);
    assert (set y | y in seen && y !in st.stack) == seen;
    ReversedTopological(g, seen, st.comps);
  }

  lemma ReversedTopological(g: Graph, seen: set<nat>, comps: seq<seq<nat>>)
    requires Emitted(g, seen, [], comps)
    ensures Topological(g, Reverse(comps))
    ensures forall v :: Listed(Reverse(comps), v) <==> v in seen
  {
    var order, n := Reverse(comps), |comps| - 1;
    forall i, j, u: nat, v: nat | 0 <= i < |order| && 0 <= j < |order| && u in order[i] && v in order[j] &&
      Edge(g, u, v)
      ensures i <= j
    {
      assert u in comps[n - i] && v in comps[n - j];
      assert InFirst(comps, n - i + 1, v);
    }
    forall v: nat ensures Listed(order, v) <==> v in seen {
      if v in seen {
        assert InFirst(comps, |comps|, v);
        var i :| 0 <= i < |comps| && v in comps[i];
        assert v in order[n - i];
      }
      if Listed(order, v) {
        var i :| 0 <= i < |order| && v in order[i];
        assert v in comps[n - i];
        assert InFirst(comps, |comps|, v);
      }
    }
  }

  lemma WithoutStep(flags: seq<bool>, stack: seq<nat>, n: nat)
    requires n < |stack| && stack[n] < |flags|
    ensures Without(flags, stack[n..]) == Without(flags, stack[n + 1..])[stack[n] := false]
    ensures Without(flags, stack[|stack|..]) == flags
  {
    assert stack[n..] == [stack[n]] + stack[n + 1..];
  }

  // ---- The walker ----

  class SccWalker {
    const g: Graph
    var visited: seq<bool>
    var scc: nat
    var disc: nat
    var discovery: seq<nat>
    var lowLink: seq<nat>
    var onStack: seq<bool>
    var stack: seq<nat>
    var poStack: seq<nat>
    var sccOrder: seq<seq<nat>>

    ghost predicate Valid()
      reads this
    {
      |visited| == |g| && |sccOrder| == scc + 1 && sccOrder[scc] == []
    }

    ghost function St(): State
      requires Valid()
      reads this
    {
      State(disc, discovery, lowLink, onStack, stack, poStack, sccOrder[..scc])
    }

    /** Nothing is left over from an earlier walk. */
    ghost predicate Clean()
      reads this
    {
      && |discovery| == |lowLink| == |onStack| == |g|
      && stack == [] && poStack == [] && forall v :: 0 <= v < |g| ==> !onStack[v]
    }

    constructor (g: Graph)
      ensures this.g == g && Clean()
    {
      this.g := g;
      visited := [];
      scc, disc := 0, 0;
      discovery, lowLink := seq(|g|, _ => 0), seq(|g|, _ => 0);
      onStack := seq(|g|, _ => false);
      stack, poStack, sccOrder := [], [], [];
    }

    method PreVisit(x: nat)
      requires Valid() && Sized(g, St()) && x < |g|
      modifies `discovery, `lowLink, `stack, `onStack, `disc
      ensures Valid() && St() == PreStep(g, old(St()), x)
    {
      discovery := discovery[x := disc];
      lowLink := lowLink[x := disc];
      stack := stack + [x];
      onStack := onStack[x := true];
      disc := disc + 1;
    }

    method LateVisit(x: nat, t: nat)
      requires Valid() && Sized(g, St()) && x < |g| && t < |g|
      modifies `lowLink
      ensures Valid() && St() == LateStep(g, old(St()), x, t)
    {
      if onStack[t] {
        lowLink := lowLink[x := Min(lowLink[x], discovery[t])];
      }
    }

    method PostVisit(x: nat)
      requires Valid() && Sized(g, St()) && x < |g| && CanPost(St(), x)
      requires forall i :: 0 <= i < |stack| ==> stack[i] < |g|
      modifies `lowLink, `poStack, `stack, `onStack, `sccOrder, `scc
      ensures Valid() && St() == PostStep(g, old(St()), x)
    {
      LowerOverLinks(x);
      poStack := poStack + [x];
      if discovery[x] == lowLink[x] {
        PopComponent(x);
      }
    }

    method LowerOverLinks(x: nat)
      requires Valid() && Sized(g, St()) && x < |g|
      modifies `lowLink
      ensures lowLink == old(lowLink)[x := Lowest(old(St()), x, g[x])]
    {
      ghost var st := St();
      for i := 0 to |g[x]|
        invariant lowLink == st.low[x := Lowest(st, x, g[x][..i])]
      {
        assert g[x][..i + 1][..i] == g[x][..i];
        if discovery[x] < discovery[g[x][i]] {
          lowLink := lowLink[x := Min(lowLink[x], lowLink[g[x][i]])];
        }
      }
      assert g[x][..|g[x]|] == g[x];
    }

    /** The two iterators move down the two stacks in step. */
    method FindCut(x: nat) returns (it: nat, poit: nat)
      requires Valid() && Sized(g, St()) && x in stack && (forall i :: 0 <= i < |stack| ==> stack[i] < |g|)
      requires |stack| - LastIndex(stack, x) <= |poStack|
      modifies `onStack
      ensures it == LastIndex(stack, x) && |stack| - it == |poStack| - poit
      ensures onStack == Without(old(onStack), stack[it..])
    {
      ghost var n := LastIndex(stack, x);
      ghost var flags := onStack;
      assert forall k :: n < k < |stack| ==> stack[k] == stack[n + 1..][k - n - 1];
      it, poit := |stack| - 1, |poStack| - 1;
      WithoutStep(flags, stack, it);
      onStack := onStack[stack[it] := false];
      while stack[it] != x
        invariant n <= it < |stack| && |stack| - it == |poStack| - poit
        invariant onStack == Without(flags, stack[it..])
        decreases it
      {
        assert it != n;
        it, poit := it - 1, poit - 1;
        WithoutStep(flags, stack, it);
        onStack := onStack[stack[it] := false];
      }
    }

    method PopComponent(x: nat)
      requires Valid() && Sized(g, St()) && x in stack && (forall i :: 0 <= i < |stack| ==> stack[i] < |g|)
      requires |stack| - LastIndex(stack, x) <= |poStack|
      modifies `poStack, `stack, `onStack, `sccOrder, `scc
      ensures Valid() && St() == Emit(old(St()), LastIndex(old(stack), x))
    {
      var it, poit := FindCut(x);
      stack := stack[..it];
      assert sccOrder[scc] + poStack[poit..] == poStack[poit..];
      sccOrder := sccOrder[scc := sccOrder[scc] + poStack[poit..]];
      poStack := poStack[..poit];
      sccOrder := sccOrder[scc := Reverse(sccOrder[scc])];
      assert sccOrder == old(sccOrder)[..scc] + [Reverse(old(poStack)[poit..])];
      scc := scc + 1;
      sccOrder := sccOrder + [[]];
    }

    /** The walk leaves the collector in the state to which the callbacks logged by `Visit` lead. */
    method WalkHelper(id: nat, ghost target: State)
      requires Valid() && Sized(g, St()) && id < |g| && !visited[id]
      requires Leads(g, St(), Visit(g, id, Marked(visited)).log, target)
      modifies this
      ensures Valid() && St() == target
      ensures Marked(visited) == Visit(g, id, old(Marked(visited))).seen
      decreases Nodes(g) - Marked(visited), 0
    {
      ghost var seen := Marked(visited);
      ghost var mid := LeadsVisit(g, id, seen, St(), target);
      visited := visited[id := true];
      assert Marked(visited) == seen + {id};
      PreVisit(id);
      WalkLinks(id, mid);
      PostVisit(id);
    }

    method WalkLinks(id: nat, ghost target: State)
      requires Valid() && Sized(g, St()) && id < |g|
      requires Leads(g, St(), VisitLinks(g, id, 0, Marked(visited)).log, target)
      modifies this
      ensures Valid() && St() == target
      ensures Marked(visited) == VisitLinks(g, id, 0, old(Marked(visited))).seen
      decreases Nodes(g) - Marked(visited), 2
    {
      for i := 0 to |g[id]|
        invariant Valid() && Sized(g, St())
        invariant old(Marked(visited)) <= Marked(visited)
        invariant VisitLinks(g, id, 0, old(Marked(visited))).seen == VisitLinks(g, id, i, Marked(visited)).seen
        invariant Leads(g, St(), VisitLinks(g, id, i, Marked(visited)).log, target)
      {
        FollowLink(id, i, target);
      }
      LeadsDone(g, St(), target);
    }

    /** The body of the loop over the links. */
    method FollowLink(id: nat, i: nat, ghost target: State)
      requires Valid() && Sized(g, St()) && id < |g| && i < |g[id]|
      requires Leads(g, St(), VisitLinks(g, id, i, Marked(visited)).log, target)
      modifies this
      ensures Valid() && Sized(g, St()) && old(Marked(visited)) <= Marked(visited)
      ensures VisitLinks(g, id, i, old(Marked(visited))).seen == VisitLinks(g, id, i + 1, Marked(visited)).seen
      ensures Leads(g, St(), VisitLinks(g, id, i + 1, Marked(visited)).log, target)
      decreases Nodes(g) - Marked(visited), 1
    {
      var t := g[id][i];
      if !visited[t] {
        ghost var mid := LeadsChild(g, id, i, Marked(visited), St(), target);
        WalkHelper(t, mid);
      } else {
        LeadsLate(g, id, i, Marked(visited), St(), target);
        LateVisit(id, t);
      }
    }

    method Reset()
      requires Clean()
      modifies `visited, `scc, `disc, `sccOrder
      ensures Valid() && Marked(visited) == {} && Settled(g, {}, [], St())
    {
      visited := seq(|g|, _ => false);
      scc, disc := 0, 0;
      sccOrder := [[]];
      CleanSettled(g, St());
    }

    /** One lap. */
    method Lap(id: nat, ghost finished: seq<nat>)
      requires Valid() && Settled(g, Marked(visited), finished, St()) && id < |g| && !visited[id]
      modifies this
      ensures Valid()
      ensures var w := Visit(g, id, old(Marked(visited)));
              Marked(visited) == w.seen && Settled(g, w.seen, finished + Collected(Postorder, w.log), St())
    {
      ghost var target := LapLeads(g, id, Marked(visited), finished, St());
      WalkHelper(id, target);
    }

    /** One round of the loop of `walkAll`. */
    method LapIfUnvisited(i: nat, ghost first: nat, ghost done: seq<Walk>, ghost laps: seq<Walk>)
      returns (ghost done': seq<Walk>)
      requires 0 < i < |g| && Valid() && Settled(g, Marked(visited), Finished(done), St())
      requires laps == done + LapsFrom(g, i, Marked(visited))
      requires 0 in Marked(visited) ==> ZeroIsVisited(g, first)
      modifies this
      ensures Valid() && Settled(g, Marked(visited), Finished(done'), St())
      ensures old(Marked(visited)) <= Marked(visited) && i in Marked(visited)
      ensures laps == done' + LapsFrom(g, i + 1, Marked(visited))
      ensures 0 in Marked(visited) ==> ZeroIsVisited(g, first)
    {
      done' := done;
      LapsShift(g, i, Marked(visited), done);
      if !visited[i] {
        ghost var seen, w := Marked(visited), Visit(g, i, Marked(visited));
        if 0 in w.seen - seen {
          VisitReaches(g, i, seen, 0);
        }
        FinishedAppend(done, w);
        Lap(i, Finished(done));
        done' := done + [w];
      }
    }

    method FirstLap(id: nat)
      requires id < |g| && Clean()
      modifies this
      ensures Valid() && Marked(visited) == Visit(g, id, {}).seen
      ensures Settled(g, Marked(visited), Finished([Visit(g, id, {})]), St())
      ensures 0 in Marked(visited) ==> ZeroIsVisited(g, id)
    {
      Reset();
      ghost var w := Visit(g, id, {});
      if 0 in w.seen && id != 0 {
        VisitReaches(g, id, {}, 0);
      }
      FinishedAppend([], w);
      assert [] + [w] == [w];
      Lap(id, []);
    }

    /** The loop of `walkAll`. */
    method LaterLaps(ghost first: nat, ghost done0: seq<Walk>, ghost laps: seq<Walk>)
      requires |g| > 0 && Valid() && Settled(g, Marked(visited), Finished(done0), St())
      requires laps == done0 + LapsFrom(g, 1, Marked(visited))
      requires 0 in Marked(visited) ==> ZeroIsVisited(g, first)
      modifies this
      ensures Valid() && Settled(g, Marked(visited), Finished(laps), St())
      ensures old(Marked(visited)) <= Marked(visited) && forall v: nat :: 1 <= v < |g| ==> v in Marked(visited)
      ensures 0 in Marked(visited) ==> ZeroIsVisited(g, first)
    {
      ghost var done := done0;
      for i := 1 to |g|
        invariant Valid() && Settled(g, Marked(visited), Finished(done), St())
        invariant old(Marked(visited)) <= Marked(visited) && AllBelow(i, Marked(visited))
        invariant laps == done + LapsFrom(g, i, Marked(visited))
        invariant 0 in Marked(visited) ==> ZeroIsVisited(g, first)
      {
        ghost var seen := Marked(visited);
        done := LapIfUnvisited(i, first, done, laps);
        AllBelowNext(i, seen, Marked(visited));
      }
      NoMoreLaps(g, Marked(visited), done);
    }

    method WalkAll(id: nat)
      requires id < |g| && Clean()
      modifies this
      ensures Valid() && Settled(g, Marked(visited), Finished(Laps(g, id)), St())
      ensures id in Marked(visited) && forall v: nat :: 1 <= v < |g| ==> v in Marked(visited)
      ensures 0 in Marked(visited) ==> ZeroIsVisited(g, id)
    {
      FirstLap(id);
      LaterLaps(id, [Visit(g, id, {})], Laps(g, id));
    }

    method Finish(ghost finished: seq<nat>)
      requires Valid() && Settled(g, Marked(visited), finished, St())
      modifies `sccOrder
      ensures Topological(g, sccOrder) && ClosedUnder(g, Marked(visited))
      ensures forall v :: Listed(sccOrder, v) <==> v in Marked(visited)
      ensures forall i :: 0 <= i < |sccOrder| ==> LastFinishedFirst(finished, sccOrder[i])
      ensures HeadsFinish(finished, Reverse(sccOrder))
    {
      assert Inv(g, Marked(visited), {}, St());
      ReversedComponents(g, Marked(visited), St());
      sccOrder := sccOrder[..scc];
      sccOrder := Reverse(sccOrder);
      assert Reverse(sccOrder) == old(sccOrder)[..scc];
    }
  }

  /** `SccOrder::gen(id)`: the components among the nodes reachable from `id`, topologically sorted, and
      the lists and their nodes in the order of the walk. */
  method SccOrderFrom(g: Graph, id: nat) returns (order: seq<seq<nat>>)
    requires id < |g|
    ensures Topological(g, order)
    ensures forall v :: Listed(order, v) <==> Reaches(g, id, v)
    ensures InWalkOrder(g, Collected(Postorder, Visit(g, id, {}).log), order)
  {
    var w := new SccWalker(g);
    w.Reset();
    w.Lap(id, []);
    ghost var finished := Collected(Postorder, Visit(g, id, {}).log);
    assert [] + finished == finished;
    w.Finish(finished);
    order := w.sccOrder;
    forall v ensures Listed(order, v) <==> Reaches(g, id, v) {
      FreshVisit(g, id, v);
    }
  }

  /** `SccOrder::genFull(id)`: the components of the whole graph, topologically sorted, and the lists and
      their nodes in the order of the walk. All nodes are listed except node 0 in one case: the walk does
      not start there and no other node reaches it. */
  method SccOrderFull(g: Graph, id: nat) returns (order: seq<seq<nat>>)
    requires id < |g|
    ensures Topological(g, order)
    ensures forall v: nat :: Listed(order, v) <==> v < |g| && (v != 0 || ZeroIsVisited(g, id))
    ensures InWalkOrder(g, Finished(Laps(g, id)), order)
  {
    var w := new SccWalker(g);
    w.WalkAll(id);
    w.Finish(Finished(Laps(g, id)));
    order := w.sccOrder;
    AllListed(g, id, Marked(w.visited));
  }

  // ---- There is only one such order ----

  lemma BeforeOnce(finished: seq<nat>, u: nat, v: nat)
    requires Distinct(finished) && Before(finished, u, v)
    ensures u != v && !Before(finished, v, u)
  {
  }

  /** The last finished node of `a` comes first in every list of the same nodes. */
  lemma SameFirst(finished: seq<nat>, a: seq<nat>, b: seq<nat>)
    requires Distinct(finished) && LastFinishedFirst(finished, a) && LastFinishedFirst(finished, b)
    requires a != [] && b != [] && a[0] in b && b[0] in a
    ensures a[0] == b[0]
  {
    var i :| 0 <= i < |a| && a[i] == b[0];
    var j :| 0 <= j < |b| && b[j] == a[0];
    if i > 0 && j > 0 {
      assert Before(finished, a[i], a[0]) && Before(finished, b[j], b[0]);
      BeforeOnce(finished, a[i], a[0]);
    }
  }

  lemma RestOf(finished: seq<nat>, a: seq<nat>, v: nat)
    requires Distinct(finished) && LastFinishedFirst(finished, a) && a != []
    ensures v in a[1..] <==> v in a && v != a[0]
    ensures LastFinishedFirst(finished, a[1..])
  {
    if v in a[1..] {
      var i :| 0 <= i < |a[1..]| && a[1..][i] == v;
      BeforeOnce(finished, a[i + 1], a[0]);
    }
  }

  lemma FirstOf(b: seq<nat>) returns (v: nat)
    requires b != []
    ensures v in b
  {
    v := b[0];
  }

  /** Nodes can be listed in reverse finishing order in one way only. */
  lemma {:induction false} SameList(finished: seq<nat>, a: seq<nat>, b: seq<nat>)
    requires Distinct(finished) && LastFinishedFirst(finished, a) && LastFinishedFirst(finished, b)
    requires forall v: nat :: v in a <==> v in b
    ensures a == b
    decreases |a|
  {
    if a == [] {
      if b != [] {
        var v := FirstOf(b);
        assert false;
      }
    } else {
      assert a[0] in b;
      assert b[0] in a;
      SameFirst(finished, a, b);
      forall v: nat ensures v in a[1..] <==> v in b[1..] {
        RestOf(finished, a, v);
        RestOf(finished, b, v);
      }
      RestOf(finished, a, a[0]);
      RestOf(finished, b, b[0]);
      SameList(finished, a[1..], b[1..]);
      assert a == [a[0]] + a[1..] && b == [b[0]] + b[1..];
    }
  }

  /** `order` lists components of `g`, each in reverse finishing order, and those in the reverse order in
      which their first nodes finish. */
  ghost predicate InWalkOrder(g: Graph, finished: seq<nat>, order: seq<seq<nat>>) {
    && (forall i :: 0 <= i < |order| ==> Component(g, order[i]) && LastFinishedFirst(finished, order[i]))
    && HeadsFinish(finished, Reverse(order))
    && (forall v: nat :: Listed(order, v) ==> v < |g|)
  }

  lemma SameComponent(g: Graph, finished: seq<nat>, a: seq<seq<nat>>, i: nat, b: seq<seq<nat>>, j: nat, v: nat)
    requires Distinct(finished) && InWalkOrder(g, finished, a) && InWalkOrder(g, finished, b)
    requires i < |a| && j < |b| && v in a[i] && v in b[j]
    ensures a[i] == b[j]
  {
    forall u: nat ensures u in a[i] <==> u in b[j] {
      if u in a[i] || u in b[j] {
        assert Listed(a, u) || Listed(b, u);
        assert u in a[i] <==> Mutual(g, v, u);
        assert u in b[j] <==> Mutual(g, v, u);
      }
    }
    SameList(finished, a[i], b[j]);
  }

  ghost function Heads(order: seq<seq<nat>>): (heads: seq<nat>)
    requires forall i :: 0 <= i < |order| ==> order[i] != []
    ensures |heads| == |order| && forall i :: 0 <= i < |order| ==> heads[i] == order[i][0]
  {
    seq(|order|, i requires 0 <= i < |order| => order[i][0])
  }

  lemma HeadsAre(g: Graph, finished: seq<nat>, order: seq<seq<nat>>)
    requires InWalkOrder(g, finished, order)
    ensures forall i :: 0 <= i < |order| ==> order[i] != []
    ensures LastFinishedFirst(finished, Heads(order))
  {
    var comps := Reverse(order);
    assert forall i :: 0 <= i < |order| ==> order[i] == comps[|order| - 1 - i];
  }

  lemma HeadIsHead(g: Graph, finished: seq<nat>, a: seq<seq<nat>>, i: nat, b: seq<seq<nat>>)
    requires Distinct(finished) && InWalkOrder(g, finished, a) && InWalkOrder(g, finished, b)
    requires i < |a| && a[i] != [] && Listed(b, a[i][0])
    ensures exists j :: 0 <= j < |b| && b[j] == a[i]
  {
    var j :| 0 <= j < |b| && a[i][0] in b[j];
    SameComponent(g, finished, a, i, b, j, a[i][0]);
  }

  /** Of the same nodes there is only one such order, so it is the one that `genFull` gives. */
  lemma OnlyOrder(g: Graph, finished: seq<nat>, a: seq<seq<nat>>, b: seq<seq<nat>>)
    requires Distinct(finished) && InWalkOrder(g, finished, a) && InWalkOrder(g, finished, b)
    requires forall v: nat :: Listed(a, v) <==> Listed(b, v)
    ensures a == b
  {
    HeadsAre(g, finished, a);
    HeadsAre(g, finished, b);
    var x, y := Heads(a), Heads(b);
    forall v: nat ensures v in x <==> v in y {
      if v in x {
        var i :| 0 <= i < |a| && x[i] == v;
        assert v in a[i] && Listed(a, v);
        HeadIsHead(g, finished, a, i, b);
        var j :| 0 <= j < |b| && b[j] == a[i];
        assert y[j] == v;
      }
      if v in y {
        var i :| 0 <= i < |b| && y[i] == v;
        assert v in b[i] && Listed(b, v);
        HeadIsHead(g, finished, b, i, a);
        var j :| 0 <= j < |a| && a[j] == b[i];
        assert x[j] == v;
      }
    }
    SameList(finished, x, y);
    forall i | 0 <= i < |a| ensures a[i] == b[i] {
      assert a[i][0] == x[i] == y[i] == b[i][0];
      SameComponent(g, finished, a, i, b, i, a[i][0]);
    }
  }

  /** What `SccOrderFull(g, 0)` promises. */
  ghost predicate FromEntry(g: Graph, order: seq<seq<nat>>)
    requires |g| > 0
  {
    && Topological(g, order)
    && (forall v: nat :: Listed(order, v) <==> v < |g|)
    && forall i :: 0 <= i < |order| ==> LastFinishedFirst(Finished(Laps(g, 0)), order[i])
  }

  lemma AllListed(g: Graph, id: nat, seen: set<nat>)
    requires id < |g| && id in seen && ClosedUnder(g, seen) && seen <= Nodes(g)
    requires (forall v: nat :: 1 <= v < |g| ==> v in seen) && (0 in seen ==> ZeroIsVisited(g, id))
    ensures forall v: nat :: v in seen <==> v < |g| && (v != 0 || ZeroIsVisited(g, id))
  {
    if id != 0 && ZeroIsVisited(g, id) {
      var u :| 0 < u < |g| && Reaches(g, u, 0);
      ReachesStaysInside(g, seen, u, 0);
    }
  }
}
