/** Every callback keeps the invariant of `SccState`, and a walk achieves `Walked`. */
module SccProof {
  import opened Graphs
  import opened Dfs
  import opened SccState

  lemma PreKeeps(g: Graph, seen: set<nat>, grey: set<nat>, st: State, x: nat)
    requires Inv(g, seen, grey, st) && x < |g| && x !in seen
    ensures Inv(g, seen + {x}, grey + {x}, PreStep(g, st, x))
    ensures Walking(g, x, 0, seen, st, seen + {x}, PreStep(g, st, x))
  {
    PreWalking(g, seen, grey, st, x);
    var st1 := PreStep(g, st, x);
    assert x !in st.stack;
    forall y: nat | y in st1.stack && y !in grey + {x} ensures Waiting(g, seen + {x}, st1, y) {
      assert Waiting(g, seen, st, y);
      var w :| Lower(g, st, y, w);
      assert Lower(g, st1, y, w);
    }
    forall v ensures v in seen + {x} && v !in st1.stack <==> v in seen && v !in st.stack {
    }
  }

  lemma PreWalking(g: Graph, seen: set<nat>, grey: set<nat>, st: State, x: nat)
    requires Shape(g, seen, grey, st) && x < |g| && x !in seen
    ensures Walking(g, x, 0, seen, st, seen + {x}, PreStep(g, st, x))
  {
    ReachesSelf(g, x);
    assert Target(g, x, st, PreStep(g, st, x), x);
  }

  /** A finished node does not care about the low link of another node. */
  lemma OthersWait(g: Graph, seen: set<nat>, st: State, st1: State, y: nat)
    requires Sized(g, st) && Sized(g, st1) && y < |g| && forall v :: v in st.stack ==> v < |g|
    requires st1.stack == st.stack && st1.discovery == st.discovery && st1.low[y] == st.low[y]
    requires Waiting(g, seen, st, y)
    ensures Waiting(g, seen, st1, y)
  {
    var w :| Lower(g, st, y, w);
    assert Lower(g, st1, y, w);
  }

  lemma LateKeepsInv(g: Graph, seen: set<nat>, grey: set<nat>, st: State, x: nat, t: nat)
    requires Inv(g, seen, grey, st) && x in grey && t < |g|
    ensures Inv(g, seen, grey, LateStep(g, st, x, t))
  {
    var st1 := LateStep(g, st, x, t);
    forall y: nat | y in st1.stack && y !in grey ensures Waiting(g, seen, st1, y) {
      OthersWait(g, seen, st, st1, y);
    }
  }

  lemma LateKeeps(g: Graph, seen: set<nat>, grey: set<nat>, st: State, x: nat, i: nat, seen0: set<nat>, st0: State)
    requires Shape(g, seen, grey, st) && Walking(g, x, i, seen0, st0, seen, st)
    requires i < |g[x]| && g[x][i] in seen
    ensures Walking(g, x, i + 1, seen0, st0, seen, LateStep(g, st, x, g[x][i]))
  {
    var t := g[x][i];
    var st1 := LateStep(g, st, x, t);
    assert LinkDone(g, x, st0, seen, st1, t);
    if st.onStack[t] && st.discovery[t] < st.low[x] {
      StackBelow(g, x, seen0, st0, seen, grey, st, t);
      EdgeReaches(g, x, t);
      assert Target(g, x, st0, st1, t);
      LowerKeeps(g, seen, grey, st, x, i, seen0, st0, st.discovery[t], st1);
    } else {
      assert st1.low == st.low;
      assert st1 == st;
    }
    assert forall j :: |st0.stack| < j < |st.stack| && Carried(g, x, i, st0, st1, st.stack[j]) ==>
                         Carried(g, x, i + 1, st0, st1, st.stack[j]);
  }

  /** Lowering the low link of `x` disturbs nothing else. */
  lemma LowerKeeps(g: Graph, seen: set<nat>, grey: set<nat>, st: State, x: nat, i: nat, seen0: set<nat>, st0: State,
                   m: nat, st1: State)
    requires Shape(g, seen, grey, st) && Walking(g, x, i, seen0, st0, seen, st)
    requires m < st.low[x] && st1 == st.(low := st.low[x := m])
    ensures WalkingFrame(g, x, seen0, st0, seen, st1)
    ensures forall k :: 0 <= k < i ==> LinkDone(g, x, st0, seen, st1, g[x][k])
    ensures forall j :: |st0.stack| < j < |st.stack| ==> Carried(g, x, i, st0, st1, st.stack[j])
  {
    forall k | 0 <= k < i ensures LinkDone(g, x, st0, seen, st1, g[x][k]) {
      assert LinkDone(g, x, st0, seen, st, g[x][k]);
    }
    forall j | |st0.stack| < j < |st.stack| ensures Carried(g, x, i, st0, st1, st.stack[j]) {
      assert Carried(g, x, i, st0, st, st.stack[j]);
      assert st.stack[|st0.stack|] == x != st.stack[j];
    }
  }

  /** The stack nodes numbered no later than `x` are those that were there before, and `x`. */
  lemma StackBelow(g: Graph, x: nat, seen0: set<nat>, st0: State, seen: set<nat>, grey: set<nat>, st: State, t: nat)
    requires Shape(g, seen, grey, st) && WalkingFrame(g, x, seen0, st0, seen, st)
    requires t in st.stack && st.discovery[t] <= st.discovery[x]
    ensures t in st0.stack + [x]
  {
    var j :| 0 <= j < |st.stack| && st.stack[j] == t;
    assert st.stack[|st0.stack|] == x;
    if j < |st0.stack| {
      assert t == st0.stack[j];
    }
  }

  lemma ExtendedTransitive(a: State, b: State, c: State)
    requires Extended(a, b) && Extended(b, c)
    ensures Extended(a, c)
  {
    assert c.stack[|a.stack|..] == b.stack[|a.stack|..] + c.stack[|b.stack|..];
    assert c.poStack[|a.poStack|..] == b.poStack[|a.poStack|..] + c.poStack[|b.poStack|..];
  }

  lemma ChildFrame(g: Graph, x: nat, i: nat, grey: set<nat>, seen0: set<nat>, st0: State,
                   seen1: set<nat>, st1: State, seen2: set<nat>, st2: State)
    requires Walking(g, x, i, seen0, st0, seen1, st1) && i < |g[x]| && g[x][i] !in seen1
    requires Shape(g, seen1, grey, st1) && Shape(g, seen2, grey, st2)
    requires Walked(g, g[x][i], seen1, st1, seen2, st2)
    ensures WalkingFrame(g, x, seen0, st0, seen2, st2)
  {
    var t := g[x][i];
    ExtendedTransitive(st0.(stack := st0.stack + [x]), st1, st2);
    EdgeReaches(g, x, t);
    forall v | v in seen2 - seen0 - {x} && v < |g| ensures Reaches(g, x, v) && st0.disc < st2.discovery[v] {
      if v !in seen1 {
        ReachesTransitive(g, x, t, v);
      }
    }
  }

  lemma ChildLink(g: Graph, x: nat, i: nat, grey: set<nat>, seen0: set<nat>, st0: State,
                  seen1: set<nat>, st1: State, seen2: set<nat>, st2: State, k: nat)
    requires Walking(g, x, i, seen0, st0, seen1, st1) && i < |g[x]| && g[x][i] !in seen1
    requires Shape(g, seen1, grey, st1) && Shape(g, seen2, grey, st2)
    requires Walked(g, g[x][i], seen1, st1, seen2, st2)
    requires k <= i
    ensures LinkDone(g, x, st0, seen2, st2, g[x][k])
  {
    if k < i {
      assert LinkDone(g, x, st0, seen1, st1, g[x][k]);
    }
  }

  lemma ChildCarried(g: Graph, x: nat, i: nat, grey: set<nat>, seen0: set<nat>, st0: State,
                     seen1: set<nat>, st1: State, seen2: set<nat>, st2: State, j: nat)
    requires Walking(g, x, i, seen0, st0, seen1, st1) && i < |g[x]| && g[x][i] !in seen1
    requires Shape(g, seen1, grey, st1) && Shape(g, seen2, grey, st2)
    requires Walked(g, g[x][i], seen1, st1, seen2, st2)
    requires |st0.stack| < j < |st2.stack|
    ensures Carried(g, x, i + 1, st0, st2, st2.stack[j])
  {
    if j < |st1.stack| {
      assert Carried(g, x, i, st0, st1, st1.stack[j]);
      assert st1.stack[j] in seen1;
    } else {
      assert st0.disc < st2.discovery[g[x][i]];
    }
  }

  lemma ChildTarget(g: Graph, x: nat, i: nat, grey: set<nat>, seen0: set<nat>, st0: State,
                    seen1: set<nat>, st1: State, seen2: set<nat>, st2: State)
    requires Walking(g, x, i, seen0, st0, seen1, st1) && i < |g[x]| && g[x][i] !in seen1
    requires Shape(g, seen1, grey, st1) && Shape(g, seen2, grey, st2)
    requires Walked(g, g[x][i], seen1, st1, seen2, st2)
    ensures exists w :: Target(g, x, st0, st2, w)
  {
    var w :| Target(g, x, st0, st1, w);
    assert Target(g, x, st0, st2, w);
  }

  /** After the walk from an unvisited successor, one more link of `x` is done. */
  lemma ChildKeeps(g: Graph, x: nat, i: nat, grey: set<nat>, seen0: set<nat>, st0: State,
                   seen1: set<nat>, st1: State, seen2: set<nat>, st2: State)
    requires Walking(g, x, i, seen0, st0, seen1, st1) && i < |g[x]| && g[x][i] !in seen1
    requires Shape(g, seen1, grey, st1) && Shape(g, seen2, grey, st2)
    requires Walked(g, g[x][i], seen1, st1, seen2, st2)
    ensures Walking(g, x, i + 1, seen0, st0, seen2, st2)
  {
    ChildFrame(g, x, i, grey, seen0, st0, seen1, st1, seen2, st2);
    ChildTarget(g, x, i, grey, seen0, st0, seen1, st1, seen2, st2);
    forall k: nat | k < i + 1 ensures LinkDone(g, x, st0, seen2, st2, g[x][k]) {
      ChildLink(g, x, i, grey, seen0, st0, seen1, st1, seen2, st2, k);
    }
    forall j: nat | |st0.stack| < j < |st2.stack| ensures Carried(g, x, i + 1, st0, st2, st2.stack[j]) {
      ChildCarried(g, x, i, grey, seen0, st0, seen1, st1, seen2, st2, j);
    }
  }

  // ---- postVisit ----

  lemma {:induction false} LowestBounds(st: State, x: nat, links: seq<nat>)
    requires x < |st.low| == |st.discovery| && forall k :: 0 <= k < |links| ==> links[k] < |st.low|
    ensures Lowest(st, x, links) <= st.low[x]
    ensures forall k :: 0 <= k < |links| && st.discovery[x] < st.discovery[links[k]] ==>
              Lowest(st, x, links) <= st.low[links[k]]
    ensures Lowest(st, x, links) == st.low[x]
         || exists k :: 0 <= k < |links| && st.discovery[x] < st.discovery[links[k]]
                     && Lowest(st, x, links) == st.low[links[k]]
  {
    if links != [] {
      var init := links[..|links| - 1];
      LowestBounds(st, x, init);
      forall k | 0 <= k < |links| && st.discovery[x] < st.discovery[links[k]]
        ensures Lowest(st, x, links) <= st.low[links[k]]
      {
        assert k < |init| ==> init[k] == links[k];
      }
    }
  }

  /** The situation in which `postVisit(x)` runs. */
  ghost predicate Leaving(g: Graph, seen: set<nat>, grey: set<nat>, st: State, x: nat, seen0: set<nat>, st0: State) {
    && Inv(g, seen, grey + {x}, st)
    && x < |g| && Walking(g, x, |g[x]|, seen0, st0, seen, st)
    && (forall v :: v in grey ==> v in seen0)
  }

  /** The new low link of `x` is below every low link above `x` on the stack. */
  lemma LowestBelowTop(g: Graph, seen: set<nat>, grey: set<nat>, st: State, x: nat, seen0: set<nat>, st0: State, j: nat)
    requires Leaving(g, seen, grey, st, x, seen0, st0) && |st0.stack| < j < |st.stack|
    ensures Lowest(st, x, g[x]) <= st.low[st.stack[j]]
  {
    LowestBounds(st, x, g[x]);
    assert Carried(g, x, |g[x]|, st0, st, st.stack[j]);
  }

  /** A link of `x` into the stack is accounted for in its new low link. */
  lemma LowestBelowLinks(g: Graph, seen: set<nat>, grey: set<nat>, st: State, x: nat, seen0: set<nat>, st0: State,
                         t: nat)
    requires Leaving(g, seen, grey, st, x, seen0, st0) && Edge(g, x, t)
    ensures t in seen
    ensures t in st.stack ==> Lowest(st, x, g[x]) <= st.discovery[t]
  {
    LowestBounds(st, x, g[x]);
    var k :| 0 <= k < |g[x]| && g[x][k] == t;
    assert LinkDone(g, x, st0, seen, st, g[x][k]);
  }

  /** If the low link of `x` is below `x`, it is the number of a stack node that `x` reaches. */
  lemma LowestTarget(g: Graph, seen: set<nat>, grey: set<nat>, st: State, x: nat, seen0: set<nat>, st0: State)
    returns (w: nat)
    requires Leaving(g, seen, grey, st, x, seen0, st0) && Lowest(st, x, g[x]) < st.discovery[x]
    ensures w in st.stack && st.discovery[w] == Lowest(st, x, g[x]) && Reaches(g, x, w)
  {
    LowestBounds(st, x, g[x]);
    if Lowest(st, x, g[x]) == st.low[x] {
      w :| Target(g, x, st0, st, w);
      assert st.stack[..|st0.stack| + 1] == st0.stack + [x];
    } else {
      var k :| 0 <= k < |g[x]| && st.discovery[x] < st.discovery[g[x][k]] && Lowest(st, x, g[x]) == st.low[g[x][k]];
      w := LaterLinkTarget(g, seen, grey, st, x, seen0, st0, k);
    }
  }

  lemma LaterLinkTarget(g: Graph, seen: set<nat>, grey: set<nat>, st: State, x: nat, seen0: set<nat>, st0: State,
                        k: nat)
    returns (w: nat)
    requires Leaving(g, seen, grey, st, x, seen0, st0)
    requires k < |g[x]| && st.discovery[x] < st.discovery[g[x][k]] && st.low[g[x][k]] < st.discovery[x]
    ensures w in st.stack && st.discovery[w] == st.low[g[x][k]] && Reaches(g, x, w)
  {
    var t := g[x][k];
    assert LinkDone(g, x, st0, seen, st, g[x][k]);
    assert t in st.stack && t !in grey + {x};
    assert Waiting(g, seen, st, t);
    w :| Lower(g, st, t, w);
    EdgeReaches(g, x, t);
    ReachesTransitive(g, x, t, w);
  }

  /** `postVisit` when `x` stays on the stack. */
  lemma StayKeeps(g: Graph, seen: set<nat>, grey: set<nat>, st: State, x: nat, seen0: set<nat>, st0: State, st1: State)
    requires Leaving(g, seen, grey, st, x, seen0, st0) && Lowest(st, x, g[x]) != st.discovery[x]
    requires st1 == st.(low := st.low[x := Lowest(st, x, g[x])], poStack := st.poStack + [x])
    ensures Inv(g, seen, grey, st1)
    ensures Walked(g, x, seen0, st0, seen, st1)
  {
    LowestBounds(st, x, g[x]);
    RootWaits(g, seen, grey, st, x, seen0, st0, st1);
    StayInv(g, seen, grey, st, x, st1);
    StayWalked(g, seen, grey, st, x, seen0, st0, st1);
  }

  lemma StayInv(g: Graph, seen: set<nat>, grey: set<nat>, st: State, x: nat, st1: State)
    requires Inv(g, seen, grey + {x}, st) && Sized(g, st1) && x < |g| && st1.low[x] <= st.low[x]
    requires st1 == st.(low := st.low[x := st1.low[x]], poStack := st1.poStack)
    requires Waiting(g, seen, st1, x)
    ensures Inv(g, seen, grey, st1)
  {
    forall y: nat | y in st1.stack && y !in grey ensures Waiting(g, seen, st1, y) {
      if y != x {
        OthersWait(g, seen, st, st1, y);
      }
    }
  }

  lemma RootWaits(g: Graph, seen: set<nat>, grey: set<nat>, st: State, x: nat, seen0: set<nat>, st0: State, st1: State)
    requires Leaving(g, seen, grey, st, x, seen0, st0) && Lowest(st, x, g[x]) < st.discovery[x]
    requires st1 == st.(low := st.low[x := Lowest(st, x, g[x])], poStack := st.poStack + [x])
    ensures Waiting(g, seen, st1, x)
  {
    forall t: nat | Edge(g, x, t) ensures t in seen && (t in st.stack ==> st1.low[x] <= st.discovery[t]) {
      LowestBelowLinks(g, seen, grey, st, x, seen0, st0, t);
    }
    var w := LowestTarget(g, seen, grey, st, x, seen0, st0);
    assert Lower(g, st1, x, w);
  }

  lemma StayWalked(g: Graph, seen: set<nat>, grey: set<nat>, st: State, x: nat, seen0: set<nat>, st0: State, st1: State)
    requires Leaving(g, seen, grey, st, x, seen0, st0) && Lowest(st, x, g[x]) != st.discovery[x]
    requires st1 == st.(low := st.low[x := Lowest(st, x, g[x])], poStack := st.poStack + [x])
    ensures Walked(g, x, seen0, st0, seen, st1)
  {
    LowestBounds(st, x, g[x]);
    forall j | |st0.stack| < j < |st.stack| ensures Lowest(st, x, g[x]) <= st.low[st.stack[j]] {
      LowestBelowTop(g, seen, grey, st, x, seen0, st0, j);
    }
    assert forall j :: 0 <= j < |st.stack| ==> st.stack[j] < |g|;
    LowerWalked(g, seen, st, x, seen0, st0, st1, Lowest(st, x, g[x]));
  }

  lemma LowerWalked(g: Graph, seen: set<nat>, st: State, x: nat, seen0: set<nat>, st0: State, st1: State, m: nat)
    requires WalkingFrame(g, x, seen0, st0, seen, st) && m < st0.disc
    requires forall j :: 0 <= j < |st.stack| ==> st.stack[j] < |g|
    requires forall j :: |st0.stack| < j < |st.stack| ==> m <= st.low[st.stack[j]]
    requires st1 == st.(low := st.low[x := m], poStack := st.poStack + [x])
    ensures Walked(g, x, seen0, st0, seen, st1)
  {
    var top, po := st.stack[|st0.stack| + 1..], st.poStack[|st0.poStack|..];
    assert st1.stack[|st0.stack|..] == [x] + top;
    assert st1.poStack[|st0.poStack|..] == po + [x];
    ReachesSelf(g, x);
    assert st.stack[|st0.stack|] == x;
  }

  // ---- postVisit when a component is complete ----

  /** The stack node at `i` reaches a lower one, but its low link is not below the node at `n`. */
  ghost predicate HangsOn(g: Graph, st: State, n: nat, i: nat) {
    && Sized(g, st) && n < i < |st.stack| && (forall k :: 0 <= k < |st.stack| ==> st.stack[k] < |g|)
    && st.discovery[st.stack[n]] <= st.low[st.stack[i]]
    && exists w :: Lower(g, st, st.stack[i], w)
  }

  /** If every node above position `n` of the stack reaches a lower one, but none below `n`, then
      they all reach the node at `n`. */
  lemma {:induction false} BackToRoot(g: Graph, st: State, n: nat, j: nat)
    requires Sized(g, st) && Sorted(st) && n <= j < |st.stack|
    requires forall i :: n < i < |st.stack| ==> HangsOn(g, st, n, i)
    ensures Reaches(g, st.stack[j], st.stack[n])
    decreases j
  {
    ReachesSelf(g, st.stack[n]);
    if j > n {
      assert HangsOn(g, st, n, j);
      var w :| Lower(g, st, st.stack[j], w);
      var k :| 0 <= k < |st.stack| && st.stack[k] == w;
      BackToRoot(g, st, n, k);
      ReachesTransitive(g, st.stack[j], w, st.stack[n]);
    }
  }

  /** Links from the nodes at or above `x` lead to those nodes or to emitted ones. */
  lemma LinksFromTop(g: Graph, seen: set<nat>, grey: set<nat>, st: State, x: nat, seen0: set<nat>, st0: State, y: nat,
                     t: nat)
    requires Leaving(g, seen, grey, st, x, seen0, st0) && Lowest(st, x, g[x]) == st.discovery[x]
    requires y in st.stack[|st0.stack|..] && Edge(g, y, t)
    ensures t in seen && (t in st.stack ==> t in st.stack[|st0.stack|..])
  {
    var j :| |st0.stack| <= j < |st.stack| && st.stack[j] == y;
    LinksFromAbove(g, seen, grey, st, x, seen0, st0, j, t);
    if t in st.stack {
      assert st.stack[|st0.stack|] == x;
      SortedSuffix(st, |st0.stack|, t);
    }
  }

  lemma LinksFromAbove(g: Graph, seen: set<nat>, grey: set<nat>, st: State, x: nat, seen0: set<nat>, st0: State,
                       j: nat, t: nat)
    requires Leaving(g, seen, grey, st, x, seen0, st0) && Lowest(st, x, g[x]) == st.discovery[x]
    requires |st0.stack| <= j < |st.stack| && Edge(g, st.stack[j], t)
    ensures t in seen && (t in st.stack ==> st.discovery[x] <= st.discovery[t])
  {
    assert st.stack[|st0.stack|] == x;
    if j == |st0.stack| {
      LowestBelowLinks(g, seen, grey, st, x, seen0, st0, t);
    } else {
      LowestBelowTop(g, seen, grey, st, x, seen0, st0, j);
      assert st.stack[j] in st.stack && st.stack[j] !in grey + {x};
      assert Waiting(g, seen, st, st.stack[j]);
    }
  }

  ghost predicate Sorted(st: State) {
    && (forall i :: 0 <= i < |st.stack| ==> st.stack[i] < |st.discovery|)
    && (forall i, j :: 0 <= i < j < |st.stack| ==> st.discovery[st.stack[i]] < st.discovery[st.stack[j]])
  }

  lemma SortedSuffix(st: State, n: nat, t: nat)
    requires Sorted(st) && n < |st.stack| && t in st.stack
    requires st.discovery[st.stack[n]] <= st.discovery[t]
    ensures t in st.stack[n..]
  {
    var k :| 0 <= k < |st.stack| && st.stack[k] == t;
    assert st.stack[n..][k - n] == t;
  }

  /** Nodes that all reach each other through `x`, and from which links lead only to themselves
      and to a closed set, are a component. */
  lemma ComponentOf(g: Graph, x: nat, out: set<nat>, c: seq<nat>)
    requires x in c && Distinct(c) && (forall u :: u in c ==> u !in out)
    requires forall u: nat :: u in c ==> Mutual(g, u, x)
    requires ClosedUnder(g, out)
    requires forall u: nat, v: nat :: u in c && Edge(g, u, v) ==> v in c || v in out
    ensures Component(g, c)
  {
    var inner := out + Elements(c);
    forall u: nat, v: nat | u in c && v < |g| ensures v in c <==> Mutual(g, u, v) {
      if v in c {
        ReachesTransitive(g, u, x, v);
        ReachesTransitive(g, v, x, u);
      }
      if Mutual(g, u, v) {
        ReachesStaysInside(g, inner, u, v);
        if v in out {
          ReachesStaysInside(g, out, v, u);
        }
      }
    }
  }

  lemma TopHangsOn(g: Graph, seen: set<nat>, grey: set<nat>, st: State, x: nat, seen0: set<nat>, st0: State, i: nat)
    requires Leaving(g, seen, grey, st, x, seen0, st0) && Lowest(st, x, g[x]) == st.discovery[x]
    requires |st0.stack| < i < |st.stack|
    ensures HangsOn(g, st, |st0.stack|, i)
  {
    LowestBelowTop(g, seen, grey, st, x, seen0, st0, i);
    assert st.stack[|st0.stack|] == x;
    assert st.stack[i] in st.stack && st.stack[i] !in grey + {x};
    assert Waiting(g, seen, st, st.stack[i]);
  }

  lemma TopReaches(g: Graph, seen: set<nat>, grey: set<nat>, st: State, x: nat, seen0: set<nat>, st0: State, u: nat)
    requires Leaving(g, seen, grey, st, x, seen0, st0) && Lowest(st, x, g[x]) == st.discovery[x]
    requires u in st.stack[|st0.stack|..]
    ensures Reaches(g, u, x) && Reaches(g, x, u)
  {
    var j :| |st0.stack| <= j < |st.stack| && st.stack[j] == u;
    assert st.stack[|st0.stack|] == x;
    forall i | |st0.stack| < i < |st.stack| ensures HangsOn(g, st, |st0.stack|, i) {
      TopHangsOn(g, seen, grey, st, x, seen0, st0, i);
    }
    BackToRoot(g, st, |st0.stack|, j);
    TopReached(g, seen, grey + {x}, st, x, seen0, st0, j);
  }

  lemma TopReached(g: Graph, seen: set<nat>, grey: set<nat>, st: State, x: nat, seen0: set<nat>, st0: State, j: nat)
    requires Shape(g, seen, grey, st) && WalkingFrame(g, x, seen0, st0, seen, st) && |st0.stack| <= j < |st.stack|
    ensures Reaches(g, x, st.stack[j])
  {
    assert st.stack[|st0.stack|] == x;
    ReachesSelf(g, x);
    if j > |st0.stack| {
      assert st.discovery[x] < st.discovery[st.stack[j]];
    }
  }

  lemma EmittedClosed(g: Graph, seen: set<nat>, st: State, out: set<nat>)
    requires Emitted(g, seen, st.stack, st.comps) && out == set y | y in seen && y !in st.stack
    ensures ClosedUnder(g, out)
  {
    forall y, t | y in out && Edge(g, y, t) ensures t in out {
      assert InFirst(st.comps, |st.comps|, y);
      var i :| 0 <= i < |st.comps| && y in st.comps[i];
      assert InFirst(st.comps, i + 1, t);
      assert InFirst(st.comps, |st.comps|, t);
    }
  }

  /** Where `postVisit` cuts the two stacks: back to where they were when `x` was entered. */
  lemma CutPositions(g: Graph, seen: set<nat>, grey: set<nat>, st: State, x: nat, seen0: set<nat>, st0: State)
    requires Shape(g, seen, grey, st) && WalkingFrame(g, x, seen0, st0, seen, st)
    ensures x in st.stack && LastIndex(st.stack, x) == |st0.stack|
    ensures |st.stack| - |st0.stack| == |st.poStack| + 1 - |st0.poStack|
    ensures st.stack[..|st0.stack|] == st0.stack && (st.poStack + [x])[..|st0.poStack|] == st0.poStack
    ensures var top, po := st.stack[|st0.stack|..], (st.poStack + [x])[|st0.poStack|..];
            Distinct(po) && forall v :: v in po <==> v in top
  {
    assert st.stack[|st0.stack|] == x;
    assert Distinct(st.stack);
    Cut(st.stack, |st0.stack|, st.poStack, |st0.poStack|, x);
  }

  lemma Cut(stack: seq<nat>, n: nat, poStack: seq<nat>, m: nat, x: nat)
    requires n < |stack| && stack[n] == x && m <= |poStack| && Distinct(stack)
    requires multiset(stack[n + 1..]) == multiset(poStack[m..])
    ensures x in stack && LastIndex(stack, x) == n
    ensures |stack| - n == |poStack| + 1 - m
    ensures (poStack + [x])[..m] == poStack[..m]
    ensures var top, po := stack[n..], (poStack + [x])[m..];
            Distinct(po) && forall v :: v in po <==> v in top
  {
    var top, po := stack[n..], (poStack + [x])[m..];
    assert top == [x] + stack[n + 1..];
    assert po == poStack[m..] + [x];
    SameElements(top, po);
  }

  /** `postVisit` when a component is complete. */
  lemma EmitKeeps(g: Graph, seen: set<nat>, grey: set<nat>, st: State, x: nat, seen0: set<nat>, st0: State, st1: State)
    requires Leaving(g, seen, grey, st, x, seen0, st0) && Lowest(st, x, g[x]) == st.discovery[x]
    requires var top, po := st.stack[|st0.stack|..], (st.poStack + [x])[|st0.poStack|..];
             st1 == st.(low := st.low[x := st.discovery[x]], onStack := Without(st.onStack, top),
                        stack := st0.stack, poStack := st0.poStack, comps := st.comps + [Reverse(po)])
    ensures Inv(g, seen, grey, st1)
    ensures Walked(g, x, seen0, st0, seen, st1)
  {
    CutPositions(g, seen, grey + {x}, st, x, seen0, st0);
    EmitEmitted(g, seen, grey, st, x, seen0, st0, st1);
    forall y: nat | y in st0.stack && y !in grey ensures Waiting(g, seen, st1, y) {
      assert y in st.stack[..|st0.stack|] && y in st.stack && y in seen0;
      EmitWaiting(g, seen, grey, st, x, seen0, st0, st1, y);
    }
    EmitShape(g, seen, grey, st, x, seen0, st0, st1);
    EmitWalked(g, seen, grey, st, x, seen0, st0, st1);
  }

  lemma EmitEmitted(g: Graph, seen: set<nat>, grey: set<nat>, st: State, x: nat, seen0: set<nat>, st0: State,
                    st1: State)
    requires Leaving(g, seen, grey, st, x, seen0, st0) && Lowest(st, x, g[x]) == st.discovery[x]
    requires st1.stack == st0.stack
          && st1.comps == st.comps + [Reverse((st.poStack + [x])[|st0.poStack|..])]
    ensures Emitted(g, seen, st1.stack, st1.comps)
  {
    var top, c := st.stack[|st0.stack|..], st1.comps[|st.comps|];
    EmittedList(g, seen, grey + {x}, st, x, seen0, st0, c);
    EmitComponent(g, seen, grey, st, x, seen0, st0, c);
    LinksFromTops(g, seen, grey, st, x, seen0, st0);
    AppendComponent(g, seen, st0.stack, top, st.comps, c);
  }

  lemma EmittedList(g: Graph, seen: set<nat>, grey: set<nat>, st: State, x: nat, seen0: set<nat>, st0: State,
                    c: seq<nat>)
    requires Shape(g, seen, grey, st) && WalkingFrame(g, x, seen0, st0, seen, st)
    requires c == Reverse((st.poStack + [x])[|st0.poStack|..])
    ensures Distinct(c) && forall v :: v in c <==> v in st.stack[|st0.stack|..]
    ensures st.stack == st0.stack + st.stack[|st0.stack|..] && Distinct(st.stack)
  {
    CutPositions(g, seen, grey, st, x, seen0, st0);
    ReversedHas((st.poStack + [x])[|st0.poStack|..], c, st.stack[|st0.stack|..]);
    StackDistinct(g, seen, grey, st);
  }

  lemma ReversedHas(po: seq<nat>, c: seq<nat>, top: seq<nat>)
    requires c == Reverse(po) && Distinct(po) && forall v :: v in po <==> v in top
    ensures Distinct(c) && forall v :: v in c <==> v in top
  {
    ReverseElements(po);
  }

  lemma StackDistinct(g: Graph, seen: set<nat>, grey: set<nat>, st: State)
    requires Shape(g, seen, grey, st)
    ensures Distinct(st.stack)
  {
  }

  lemma LinksFromTops(g: Graph, seen: set<nat>, grey: set<nat>, st: State, x: nat, seen0: set<nat>, st0: State)
    requires Leaving(g, seen, grey, st, x, seen0, st0) && Lowest(st, x, g[x]) == st.discovery[x]
    ensures var top := st.stack[|st0.stack|..];
            && (forall v :: v in top ==> v in seen)
            && forall u: nat, v: nat :: u in top && Edge(g, u, v) ==> v in seen && (v in st.stack ==> v in top)
  {
    var top := st.stack[|st0.stack|..];
    forall u: nat, v: nat | u in top && Edge(g, u, v) ensures v in seen && (v in st.stack ==> v in top) {
      LinksFromTop(g, seen, grey, st, x, seen0, st0, u, v);
    }
  }

  /** The stack from `x` up holds one whole component. */
  lemma EmitComponent(g: Graph, seen: set<nat>, grey: set<nat>, st: State, x: nat, seen0: set<nat>, st0: State,
                      c: seq<nat>)
    requires Leaving(g, seen, grey, st, x, seen0, st0) && Lowest(st, x, g[x]) == st.discovery[x]
    requires Distinct(c) && forall v :: v in c <==> v in st.stack[|st0.stack|..]
    ensures Component(g, c)
  {
    assert st.stack[|st0.stack|..][0] == x;
    var out := set y | y in seen && y !in st.stack;
    EmittedClosed(g, seen, st, out);
    forall u: nat | u in c ensures Mutual(g, u, x) {
      TopReaches(g, seen, grey, st, x, seen0, st0, u);
    }
    forall u: nat, v: nat | u in c && Edge(g, u, v) ensures v in c || v in out {
      LinksFromTop(g, seen, grey, st, x, seen0, st0, u, v);
    }
    ComponentOf(g, x, out, c);
  }

  /** Moving a component from the stack to the emitted lists. */
  lemma AppendComponent(g: Graph, seen: set<nat>, stack0: seq<nat>, top: seq<nat>, comps: seq<seq<nat>>, c: seq<nat>)
    requires Emitted(g, seen, stack0 + top, comps) && Component(g, c)
    requires Distinct(stack0 + top) && forall v :: v in c <==> v in top
    requires forall v :: v in top ==> v in seen
    requires forall u: nat, v: nat :: u in top && Edge(g, u, v) ==> v in seen && (v in stack0 + top ==> v in top)
    ensures Emitted(g, seen, stack0, comps + [c])
  {
    var comps1 := comps + [c];
    forall v: nat | v in top ensures v !in stack0 {
      var j :| 0 <= j < |top| && top[j] == v;
      assert (stack0 + top)[|stack0| + j] == v;
      assert forall i :: 0 <= i < |stack0| ==> (stack0 + top)[i] == stack0[i];
    }
    forall v: nat ensures v in seen && v !in stack0 <==> InFirst(comps1, |comps1|, v) {
      if v in top {
        assert v in comps1[|comps|];
      } else if InFirst(comps, |comps|, v) {
        var i :| 0 <= i < |comps| && v in comps[i];
        assert v in comps1[i];
      }
    }
    forall i, u: nat, v: nat | 0 <= i < |comps1| && u in comps1[i] && Edge(g, u, v) ensures InFirst(comps1, i + 1, v) {
      if i < |comps| {
        assert InFirst(comps, i + 1, v);
        var j :| 0 <= j < i + 1 && j < |comps| && v in comps[j];
        assert v in comps1[j];
      } else if v in c {
        assert v in comps1[|comps|];
      } else {
        assert InFirst(comps, |comps|, v);
        var j :| 0 <= j < |comps| && v in comps[j];
        assert v in comps1[j];
      }
    }
  }

  /** What stays on the stack never depended on what is cut off. */
  lemma EmitWaiting(g: Graph, seen: set<nat>, grey: set<nat>, st: State, x: nat, seen0: set<nat>, st0: State,
                    st1: State, y: nat)
    requires Shape(g, seen, grey + {x}, st) && WalkingFrame(g, x, seen0, st0, seen, st) && Sized(g, st1)
    requires st1.stack == st0.stack && st1.discovery == st.discovery && st1.low == st.low[x := st.discovery[x]]
    requires y in st0.stack && y in st.stack && Waiting(g, seen, st, y)
    ensures Waiting(g, seen, st1, y)
  {
    assert forall v :: v in st0.stack ==> v in seen0 && v in st.stack by {
      assert forall k :: 0 <= k < |st0.stack| ==> st.stack[k] == st0.stack[k];
    }
    assert st.stack[|st0.stack|] == x;
    var i :| 0 <= i < |st0.stack| && st0.stack[i] == y;
    assert st.stack[i] == y;
    var w :| Lower(g, st, y, w);
    StackBelow(g, x, seen0, st0, seen, grey + {x}, st, w);
    assert Lower(g, st1, y, w);
  }

  lemma EmitShape(g: Graph, seen: set<nat>, grey: set<nat>, st: State, x: nat, seen0: set<nat>, st0: State, st1: State)
    requires Shape(g, seen, grey + {x}, st) && WalkingFrame(g, x, seen0, st0, seen, st)
    requires forall v :: v in grey ==> v in seen0
    requires st1.stack == st0.stack && st1.discovery == st.discovery && st1.low == st.low[x := st.discovery[x]]
    requires st1.disc == st.disc && st1.onStack == Without(st.onStack, st.stack[|st0.stack|..])
    ensures Shape(g, seen, grey, st1)
  {
    var top := st.stack[|st0.stack|..];
    assert st.stack == st0.stack + top;
    forall v: nat | v in top ensures v !in seen0 {
      TopIsNew(g, seen, grey + {x}, st, x, seen0, st0, v);
    }
    FlagsBelowTop(st0.stack, top, st.onStack, seen0);
    assert forall i :: 0 <= i < |st0.stack| ==> st.stack[i] == st0.stack[i];
  }

  /** What is above the stack of the start was not seen then. */
  lemma TopIsNew(g: Graph, seen: set<nat>, grey: set<nat>, st: State, x: nat, seen0: set<nat>, st0: State, v: nat)
    requires Shape(g, seen, grey, st) && WalkingFrame(g, x, seen0, st0, seen, st) && v in st.stack[|st0.stack|..]
    ensures v !in seen0
  {
    var top := st.stack[|st0.stack|..];
    var j :| 0 <= j < |top| && top[j] == v;
    assert st.stack[|st0.stack| + j] == v && st.stack[|st0.stack|] == x;
  }

  lemma FlagsBelowTop(low: seq<nat>, top: seq<nat>, flags: seq<bool>, seen0: set<nat>)
    requires forall v: nat :: v < |flags| ==> (flags[v] <==> v in low + top)
    requires (forall v: nat :: v in top ==> v !in seen0) && (forall v: nat :: v in low ==> v in seen0)
    ensures |Without(flags, top)| == |flags|
    ensures forall v: nat :: v < |flags| ==> (Without(flags, top)[v] <==> v in low)
  {
  }

  lemma EmitWalked(g: Graph, seen: set<nat>, grey: set<nat>, st: State, x: nat, seen0: set<nat>, st0: State, st1: State)
    requires Leaving(g, seen, grey, st, x, seen0, st0) && Lowest(st, x, g[x]) == st.discovery[x] && Sized(g, st1)
    requires st1.stack == st0.stack && st1.discovery == st.discovery && st1.low == st.low[x := st.discovery[x]]
    requires st1.disc == st.disc && st1.poStack == st0.poStack
    ensures Walked(g, x, seen0, st0, seen, st1)
  {
    ReachesSelf(g, x);
    assert st.stack[|st0.stack|] == x;
    forall v | v in seen - seen0 && v < |g| && v !in st1.stack ensures st0.disc <= st1.low[v] {
      if v != x && v in st.stack {
        var j :| 0 <= j < |st.stack| && st.stack[j] == v;
        LowestBelowTop(g, seen, grey, st, x, seen0, st0, j);
      }
    }
  }

  lemma CutsWhereEntered(g: Graph, seen: set<nat>, grey: set<nat>, st: State, x: nat, seen0: set<nat>, st0: State)
    requires Shape(g, seen, grey, st) && WalkingFrame(g, x, seen0, st0, seen, st)
    ensures CanPost(st, x)
    ensures Lowest(st, x, g[x]) == st.discovery[x] ==>
              var top, po := st.stack[|st0.stack|..], (st.poStack + [x])[|st0.poStack|..];
              PostStep(g, st, x) ==
                st.(low := st.low[x := st.discovery[x]], onStack := Without(st.onStack, top),
                    stack := st0.stack, poStack := st0.poStack, comps := st.comps + [Reverse(po)])
  {
    CutPositions(g, seen, grey, st, x, seen0, st0);
    if Lowest(st, x, g[x]) == st.discovery[x] {
      CutAt(g, st, x, |st0.stack|, |st0.poStack|);
    }
  }

  lemma CutAt(g: Graph, st: State, x: nat, n: nat, m: nat)
    requires Sized(g, st) && x < |g| && Lowest(st, x, g[x]) == st.discovery[x]
    requires x in st.stack && LastIndex(st.stack, x) == n && n <= |st.stack| && m <= |st.poStack|
    requires |st.stack| - n == |st.poStack| + 1 - m
    ensures CanPost(st, x)
    ensures PostStep(g, st, x) ==
            st.(low := st.low[x := st.discovery[x]], onStack := Without(st.onStack, st.stack[n..]),
                stack := st.stack[..n], poStack := (st.poStack + [x])[..m],
                comps := st.comps + [Reverse((st.poStack + [x])[m..])])
  {
  }

  /** `postVisit(x)` completes the walk from `x`. */
  lemma PostKeeps(g: Graph, seen: set<nat>, grey: set<nat>, st: State, x: nat, seen0: set<nat>, st0: State)
    requires Leaving(g, seen, grey, st, x, seen0, st0)
    ensures Fits(g, st, Post(x))
    ensures Inv(g, seen, grey, PostStep(g, st, x))
    ensures Walked(g, x, seen0, st0, seen, PostStep(g, st, x))
  {
    CutsWhereEntered(g, seen, grey + {x}, st, x, seen0, st0);
    if Lowest(st, x, g[x]) == st.discovery[x] {
      EmitKeeps(g, seen, grey, st, x, seen0, st0, PostStep(g, st, x));
    } else {
      StayKeeps(g, seen, grey, st, x, seen0, st0, PostStep(g, st, x));
    }
  }

  // ---- Whole walks ----

  /** A walk from an unvisited node keeps the invariant and achieves `Walked`. */
  lemma {:induction false} VisitKeeps(g: Graph, x: nat, seen: set<nat>, grey: set<nat>, st: State)
    requires Inv(g, seen, grey, st) && x < |g| && x !in seen && seen <= Nodes(g)
    ensures var w := Visit(g, x, seen);
            Inv(g, w.seen, grey, Run(g, st, w.log)) && Walked(g, x, seen, st, w.seen, Run(g, st, w.log))
    decreases Nodes(g) - seen, 0, 0
  {
    var st1 := PreStep(g, st, x);
    var w := VisitLinks(g, x, 0, seen + {x});
    PreKeeps(g, seen, grey, st, x);
    LinksKeep(g, x, 0, seen, grey, st, seen + {x}, st1);
    PostKeeps(g, w.seen, grey, Run(g, st1, w.log), x, seen, st);
    RunVisit(g, x, seen, st);
  }

  lemma RunVisit(g: Graph, x: nat, seen: set<nat>, st: State)
    requires Sized(g, st) && x < |g| && x !in seen && seen <= Nodes(g)
    ensures var inner := VisitLinks(g, x, 0, seen + {x}).log;
            var st1, log := PreStep(g, st, x), Visit(g, x, seen).log;
            && Run(g, st, log) == Apply(g, Run(g, st1, inner), Post(x))
            && (Handled(g, st, log) <==> Handled(g, st1, inner) && Fits(g, Run(g, st1, inner), Post(x)))
  {
    var inner := VisitLinks(g, x, 0, seen + {x}).log;
    RunConcat(g, st, [Pre(x)] + inner, [Post(x)]);
    RunConcat(g, st, [Pre(x)], inner);
    HandledConcat(g, st, [Pre(x)] + inner, [Post(x)]);
    HandledConcat(g, st, [Pre(x)], inner);
    RunOne(g, st, Pre(x));
    RunOne(g, Run(g, PreStep(g, st, x), inner), Post(x));
  }

  lemma {:induction false} LinksKeep(g: Graph, x: nat, i: nat, seen0: set<nat>, grey: set<nat>, st0: State,
                                     seen: set<nat>, st: State)
    requires Inv(g, seen, grey + {x}, st) && Walking(g, x, i, seen0, st0, seen, st) && seen <= Nodes(g)
    ensures var w := VisitLinks(g, x, i, seen);
            && Inv(g, w.seen, grey + {x}, Run(g, st, w.log))
            && Walking(g, x, |g[x]|, seen0, st0, w.seen, Run(g, st, w.log))
    decreases Nodes(g) - seen, 1, |g[x]| - i
  {
    if i < |g[x]| {
      var t := g[x][i];
      if t in seen {
        RunLate(g, x, i, seen, st);
        LateKeepsInv(g, seen, grey + {x}, st, x, t);
        LateKeeps(g, seen, grey + {x}, st, x, i, seen0, st0);
        LinksKeep(g, x, i + 1, seen0, grey, st0, seen, LateStep(g, st, x, t));
      } else {
        var c := Visit(g, t, seen);
        RunChild(g, x, i, seen, st);
        VisitKeeps(g, t, seen, grey + {x}, st);
        ChildKeeps(g, x, i, grey + {x}, seen0, st0, seen, st, c.seen, Run(g, st, c.log));
        LinksKeep(g, x, i + 1, seen0, grey, st0, c.seen, Run(g, st, c.log));
      }
    }
  }

  lemma RunLate(g: Graph, x: nat, i: nat, seen: set<nat>, st: State)
    requires Sized(g, st) && x < |g| && i < |g[x]| && seen <= Nodes(g) && g[x][i] in seen
    ensures var log, rest := VisitLinks(g, x, i, seen).log, VisitLinks(g, x, i + 1, seen).log;
            var st1 := LateStep(g, st, x, g[x][i]);
            Run(g, st, log) == Run(g, st1, rest) && Handled(g, st, log) == Handled(g, st1, rest)
  {
    var e, rest := Late(x, g[x][i]), VisitLinks(g, x, i + 1, seen).log;
    RunOne(g, st, e);
    RunConcat(g, st, [e], rest);
    HandledConcat(g, st, [e], rest);
  }

  lemma RunChild(g: Graph, x: nat, i: nat, seen: set<nat>, st: State)
    requires Sized(g, st) && x < |g| && i < |g[x]| && seen <= Nodes(g) && g[x][i] !in seen
    ensures var c := Visit(g, g[x][i], seen);
            var log, rest := VisitLinks(g, x, i, seen).log, VisitLinks(g, x, i + 1, c.seen).log;
            var st1 := Run(g, st, c.log);
            && Run(g, st, log) == Run(g, st1, rest)
            && Handled(g, st, log) == (Handled(g, st, c.log) && Handled(g, st1, rest))
  {
    var c := Visit(g, g[x][i], seen);
    RunConcat(g, st, c.log, VisitLinks(g, x, i + 1, c.seen).log);
    HandledConcat(g, st, c.log, VisitLinks(g, x, i + 1, c.seen).log);
  }

  /** During a walk the collector can handle every callback. */
  lemma {:induction false} VisitHandled(g: Graph, x: nat, seen: set<nat>, grey: set<nat>, st: State)
    requires Inv(g, seen, grey, st) && x < |g| && x !in seen && seen <= Nodes(g)
    ensures Handled(g, st, Visit(g, x, seen).log)
    decreases Nodes(g) - seen, 0, 0
  {
    var st1, w := PreStep(g, st, x), VisitLinks(g, x, 0, seen + {x});
    PreKeeps(g, seen, grey, st, x);
    LinksKeep(g, x, 0, seen, grey, st, seen + {x}, st1);
    LinksHandled(g, x, 0, seen, grey, st, seen + {x}, st1);
    PostKeeps(g, w.seen, grey, Run(g, st1, w.log), x, seen, st);
    RunVisit(g, x, seen, st);
  }

  lemma {:induction false} LinksHandled(g: Graph, x: nat, i: nat, seen0: set<nat>, grey: set<nat>, st0: State,
                                        seen: set<nat>, st: State)
    requires Inv(g, seen, grey + {x}, st) && Walking(g, x, i, seen0, st0, seen, st) && seen <= Nodes(g)
    ensures Handled(g, st, VisitLinks(g, x, i, seen).log)
    decreases Nodes(g) - seen, 1, |g[x]| - i
  {
    if i < |g[x]| {
      var t := g[x][i];
      if t in seen {
        RunLate(g, x, i, seen, st);
        LateKeepsInv(g, seen, grey + {x}, st, x, t);
        LateKeeps(g, seen, grey + {x}, st, x, i, seen0, st0);
        LinksHandled(g, x, i + 1, seen0, grey, st0, seen, LateStep(g, st, x, t));
      } else {
        var c := Visit(g, t, seen);
        RunChild(g, x, i, seen, st);
        VisitHandled(g, t, seen, grey + {x}, st);
        VisitKeeps(g, t, seen, grey + {x}, st);
        ChildKeeps(g, x, i, grey + {x}, seen0, st0, seen, st, c.seen, Run(g, st, c.log));
        LinksHandled(g, x, i + 1, seen0, grey, st0, c.seen, Run(g, st, c.log));
      }
    }
  }
}
