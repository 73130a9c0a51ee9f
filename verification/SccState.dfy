/** The state of `SccCollection` and the effect of each callback on it, with the invariant that
    makes the collected lists the strongly connected components. */
module SccState {
  import opened Graphs
  import opened Dfs

  /** `comps` is `sccOrder` without the list that is still being filled. */
  datatype State = State(
    disc: nat,
    discovery: seq<nat>,
    low: seq<nat>,
    onStack: seq<bool>,
    stack: seq<nat>,
    poStack: seq<nat>,
    comps: seq<seq<nat>>)

  // ---- The callbacks ----

  predicate Sized(g: Graph, st: State) {
    |st.discovery| == |st.low| == |st.onStack| == |g|
  }

  function PreStep(g: Graph, st: State, x: nat): State
    requires Sized(g, st) && x < |g|
  {
    st.(disc := st.disc + 1, discovery := st.discovery[x := st.disc], low := st.low[x := st.disc],
        onStack := st.onStack[x := true], stack := st.stack + [x])
  }

  function Min(a: nat, b: nat): nat {
    if a <= b then a else b
  }

  function LateStep(g: Graph, st: State, x: nat, t: nat): State
    requires Sized(g, st) && x < |g| && t < |g|
  {
    if st.onStack[t] then st.(low := st.low[x := Min(st.low[x], st.discovery[t])]) else st
  }

  /** `lowLink` of `x` after the first loop of `postVisit` has seen `links`. */
  function Lowest(st: State, x: nat, links: seq<nat>): nat
    requires x < |st.low| == |st.discovery| && forall k :: 0 <= k < |links| ==> links[k] < |st.low|
  {
    if links == [] then st.low[x]
    else
      var m, t := Lowest(st, x, links[..|links| - 1]), links[|links| - 1];
      if st.discovery[x] < st.discovery[t] then Min(m, st.low[t]) else m
  }

  /** Where the backward scan for `x` stops. */
  function LastIndex(s: seq<nat>, x: nat): (n: nat)
    requires x in s
    ensures n < |s| && s[n] == x && x !in s[n + 1..]
  {
    if s[|s| - 1] == x then |s| - 1 else
      var n := LastIndex(s[..|s| - 1], x);
      assert s[n + 1..] == s[..|s| - 1][n + 1..] + [s[|s| - 1]];
      n
  }

  /** `postVisit` finds `x` on the stack, and as many nodes on the other stack as it pops. */
  predicate CanPost(st: State, x: nat) {
    x in st.stack && |st.stack| - LastIndex(st.stack, x) <= |st.poStack| + 1
  }

  /** `postVisit`: the stack above and including `x` becomes a component, listed in the order of
      the other stack reversed, unless `x` can still get lower. */
  function PostStep(g: Graph, st: State, x: nat): State
    requires Sized(g, st) && x < |g| && CanPost(st, x)
  {
    var low := Lowest(st, x, g[x]);
    var st1 := st.(low := st.low[x := low], poStack := st.poStack + [x]);
    if st.discovery[x] == low then Emit(st1, LastIndex(st.stack, x)) else st1
  }

  function Emit(st: State, n: nat): State
    requires n <= |st.stack| && |st.stack| - n <= |st.poStack|
  {
    var p := |st.poStack| - (|st.stack| - n);
    st.(onStack := Without(st.onStack, st.stack[n..]), stack := st.stack[..n], poStack := st.poStack[..p],
        comps := st.comps + [Reverse(st.poStack[p..])])
  }

  function Without(flags: seq<bool>, ids: seq<nat>): (r: seq<bool>)
    ensures |r| == |flags|
    ensures forall v :: 0 <= v < |r| ==> r[v] == (flags[v] && v !in ids)
  {
    seq(|flags|, v requires 0 <= v < |flags| => flags[v] && v !in ids)
  }

  /** The collector can handle this callback: ids are in range and `postVisit` finds its node. */
  predicate Fits(g: Graph, st: State, e: Event) {
    match e
    case Pre(x) => x < |g|
    case Late(x, t) => x < |g| && t < |g|
    case Post(x) => x < |g| && CanPost(st, x) && forall i :: 0 <= i < |st.stack| ==> st.stack[i] < |g|
  }

  /** The effect of a callback, or nothing where it does not fit. */
  function Apply(g: Graph, st: State, e: Event): (r: State)
    requires Sized(g, st)
    ensures Sized(g, r)
  {
    if !Fits(g, st, e) then st else
      match e
      case Pre(x) => PreStep(g, st, x)
      case Late(x, t) => LateStep(g, st, x, t)
      case Post(x) => PostStep(g, st, x)
  }

  /** The collector's state after these callbacks. */
  function Run(g: Graph, st: State, log: seq<Event>): (r: State)
    requires Sized(g, st)
    ensures Sized(g, r)
    decreases log
  {
    if log == [] then st else Run(g, Apply(g, st, log[0]), log[1..])
  }

  lemma {:induction false} RunConcat(g: Graph, st: State, a: seq<Event>, b: seq<Event>)
    requires Sized(g, st)
    ensures Run(g, st, a + b) == Run(g, Run(g, st, a), b)
    decreases a
  {
    if a == [] {
      assert a + b == b;
    } else {
      assert (a + b)[1..] == a[1..] + b;
      RunConcat(g, Apply(g, st, a[0]), a[1..], b);
    }
  }

  /** Every callback of the log fits the state in which it is made. */
  predicate Handled(g: Graph, st: State, log: seq<Event>)
    requires Sized(g, st)
    decreases log
  {
    log != [] ==> Fits(g, st, log[0]) && Handled(g, Apply(g, st, log[0]), log[1..])
  }

  lemma {:induction false} HandledConcat(g: Graph, st: State, a: seq<Event>, b: seq<Event>)
    requires Sized(g, st)
    ensures Handled(g, st, a + b) <==> Handled(g, st, a) && Handled(g, Run(g, st, a), b)
    decreases a
  {
    if a == [] {
      assert a + b == b;
    } else {
      assert (a + b)[1..] == a[1..] + b;
      HandledConcat(g, Apply(g, st, a[0]), a[1..], b);
    }
  }

  lemma RunOne(g: Graph, st: State, e: Event)
    requires Sized(g, st)
    ensures Run(g, st, [e]) == Apply(g, st, e)
    ensures Handled(g, st, [e]) <==> Fits(g, st, e)
  {
    assert [e][1..] == [];
  }

  // ---- The invariant ----

  ghost predicate Mutual(g: Graph, u: nat, v: nat) {
    Reaches(g, u, v) && Reaches(g, v, u)
  }

  /** The elements of `c` are one whole class of mutually reachable nodes. */
  ghost predicate Component(g: Graph, c: seq<nat>) {
    && c != [] && Distinct(c)
    && forall u: nat, v: nat :: u in c && v < |g| ==> (v in c <==> Mutual(g, u, v))
  }

  ghost predicate InFirst(comps: seq<seq<nat>>, n: int, v: nat) {
    exists i :: 0 <= i < n && i < |comps| && v in comps[i]
  }

  /** Stack and numbering. `grey` are the nodes whose visit is in progress. */
  ghost predicate Shape(g: Graph, seen: set<nat>, grey: set<nat>, st: State) {
    && Sized(g, st)
    && (forall v :: v in seen ==> v < |g| && st.low[v] <= st.discovery[v] < st.disc)
    && (forall i :: 0 <= i < |st.stack| ==> st.stack[i] in seen)
    && (forall i, j :: 0 <= i < j < |st.stack| ==> st.discovery[st.stack[i]] < st.discovery[st.stack[j]])
    && (forall v :: 0 <= v < |g| ==> (st.onStack[v] <==> v in st.stack))
    && (forall v :: v in grey ==> v in st.stack)
  }

  /** The emitted lists are exactly the visited nodes that left the stack; each is a component, and
      links only lead to the same or an earlier list. */
  ghost predicate Emitted(g: Graph, seen: set<nat>, stack: seq<nat>, comps: seq<seq<nat>>) {
    && (forall v :: v in seen && v !in stack <==> InFirst(comps, |comps|, v))
    && (forall i :: 0 <= i < |comps| ==> Component(g, comps[i]))
    && (forall i, j, v :: 0 <= i < j < |comps| && v in comps[i] ==> v !in comps[j])
    && (forall i, u, v :: 0 <= i < |comps| && u in comps[i] && Edge(g, u, v) ==> InFirst(comps, i + 1, v))
  }

  /** `y` is finished but still on the stack: its links are accounted for in its low link, which
      is the number of a lower stack node that `y` reaches. */
  ghost predicate Waiting(g: Graph, seen: set<nat>, st: State, y: nat)
    requires Sized(g, st) && y < |g| && forall v :: v in st.stack ==> v < |g|
  {
    && (forall t: nat :: Edge(g, y, t) ==> t in seen)
    && (forall t: nat :: Edge(g, y, t) && t in st.stack ==> st.low[y] <= st.discovery[t])
    && (exists w :: Lower(g, st, y, w))
  }

  ghost predicate Lower(g: Graph, st: State, y: nat, w: nat)
    requires Sized(g, st) && y < |g| && forall v :: v in st.stack ==> v < |g|
  {
    w in st.stack && st.discovery[w] == st.low[y] < st.discovery[y] && Reaches(g, y, w)
  }

  ghost predicate Inv(g: Graph, seen: set<nat>, grey: set<nat>, st: State) {
    && Shape(g, seen, grey, st)
    && Emitted(g, seen, st.stack, st.comps)
    && forall y :: y in st.stack && y !in grey ==> Waiting(g, seen, st, y)
  }

  /** What a finished walk from `x` has done to the state. */
  ghost predicate Walked(g: Graph, x: nat, seen0: set<nat>, st0: State, seen: set<nat>, st: State) {
    && Sized(g, st0) && Sized(g, st) && x < |g|
    && seen0 + {x} <= seen
    && Extended(st0, st)
    && (forall v :: v in seen0 && v < |g| ==> st.discovery[v] == st0.discovery[v] && st.low[v] == st0.low[v])
    && st0.disc <= st.disc
    && (forall v :: v in seen - seen0 && v < |g| ==> Reaches(g, x, v) && st0.disc <= st.discovery[v])
    && (forall v :: v in seen - seen0 && v < |g| && v !in st.stack ==> st0.disc <= st.low[v])
    && (|st0.stack| < |st.stack| ==> st.stack[|st0.stack|] == x && st.low[x] < st0.disc)
    && (forall j :: |st0.stack| <= j < |st.stack| ==> st.stack[j] < |g| && st.low[x] <= st.low[st.stack[j]])
  }

  /** Both stacks grew by the same nodes. */
  ghost predicate Extended(st0: State, st: State) {
    && st0.stack <= st.stack && st0.poStack <= st.poStack
    && multiset(st.stack[|st0.stack|..]) == multiset(st.poStack[|st0.poStack|..])
  }

  /** The same, while `x` is being visited and its first `i` links are done. */
  ghost predicate Walking(g: Graph, x: nat, i: nat, seen0: set<nat>, st0: State, seen: set<nat>, st: State) {
    && WalkingFrame(g, x, seen0, st0, seen, st)
    && i <= |g[x]|
    && (exists w :: Target(g, x, st0, st, w))
    && (forall k :: 0 <= k < i ==> LinkDone(g, x, st0, seen, st, g[x][k]))
    && (forall j :: |st0.stack| < j < |st.stack| ==> Carried(g, x, i, st0, st, st.stack[j]))
  }

  ghost predicate WalkingFrame(g: Graph, x: nat, seen0: set<nat>, st0: State, seen: set<nat>, st: State) {
    && Sized(g, st0) && Sized(g, st) && x < |g| && x !in seen0
    && seen0 + {x} <= seen
    && (forall v :: v in seen0 ==> v < |g| && st0.discovery[v] < st0.disc)
    && (forall j :: 0 <= j < |st0.stack| ==> st0.stack[j] in seen0)
    && Extended(st0.(stack := st0.stack + [x]), st)
    && (forall v :: v in seen0 && v < |g| ==> st.discovery[v] == st0.discovery[v] && st.low[v] == st0.low[v])
    && st.discovery[x] == st0.disc < st.disc
    && (forall v :: v in seen - seen0 - {x} && v < |g| ==> Reaches(g, x, v) && st0.disc < st.discovery[v])
    && (forall v :: v in seen - seen0 - {x} && v < |g| && v !in st.stack ==> st0.disc < st.low[v])
  }

  /** A link of `x` to `t` is accounted for in the low link of `x`, unless `t` is numbered later. */
  ghost predicate LinkDone(g: Graph, x: nat, st0: State, seen: set<nat>, st: State, t: nat)
    requires Sized(g, st) && x < |g|
  {
    && t in seen
    && (t in st.stack && t < |g| && st.discovery[t] <= st0.disc ==> st.low[x] <= st.discovery[t])
  }

  /** The low link of `v`, above `x` on the stack, is no lower than that of a direct successor of `x`. */
  ghost predicate Carried(g: Graph, x: nat, i: nat, st0: State, st: State, v: nat)
    requires Sized(g, st) && x < |g| && i <= |g[x]|
  {
    exists k :: 0 <= k < i && st0.disc < st.discovery[g[x][k]] && v < |g| && st.low[g[x][k]] <= st.low[v]
  }

  /** `w` is the stack node, no higher than `x`, whose number is the low link of `x`. */
  ghost predicate Target(g: Graph, x: nat, st0: State, st: State, w: nat)
    requires Sized(g, st) && x < |g|
  {
    w in st0.stack + [x] && w < |g| && st.discovery[w] == st.low[x] && Reaches(g, x, w)
  }
}
