/** The depth-first walk of src/analysis/walker.h, as the log of callbacks that `walkHelper`
    makes. The log is the specification against which the collectors are proved. */
module Dfs {
  import opened Graphs

  datatype Event = Pre(node: nat) | Late(from: nat, to: nat) | Post(node: nat)

  /** What a walk leaves behind: the visited nodes and the callbacks made. */
  datatype Walk = Walk(seen: set<nat>, log: seq<Event>)

  /** `walkHelper(v)` with `seen` already visited. */
  function Visit(g: Graph, v: nat, seen: set<nat>): (r: Walk)
    requires v < |g| && v !in seen && seen <= Nodes(g)
    ensures seen + {v} <= r.seen <= Nodes(g)
    decreases Nodes(g) - seen, 0, 0
  {
    var r := VisitLinks(g, v, 0, seen + {v});
    Walk(r.seen, [Pre(v)] + r.log + [Post(v)])
  }

  /** The loop of `walkHelper(v)` from link `i` on. */
  function VisitLinks(g: Graph, v: nat, i: nat, seen: set<nat>): (r: Walk)
    requires v < |g| && i <= |g[v]| && seen <= Nodes(g)
    ensures seen <= r.seen <= Nodes(g)
    decreases Nodes(g) - seen, 1, |g[v]| - i
  {
    if i == |g[v]| then Walk(seen, [])
    else if g[v][i] in seen then
      var r := VisitLinks(g, v, i + 1, seen);
      Walk(r.seen, [Late(v, g[v][i])] + r.log)
    else
      var c := Visit(g, g[v][i], seen);
      var r := VisitLinks(g, v, i + 1, c.seen);
      Walk(r.seen, c.log + r.log)
  }

  /** The laps of `walkAll` that start at node `i` or later. */
  function LapsFrom(g: Graph, i: nat, seen: set<nat>): (r: seq<Walk>)
    requires i <= |g| && seen <= Nodes(g)
    decreases |g| - i
  {
    if i == |g| then []
    else if i in seen then LapsFrom(g, i + 1, seen)
    else
      var w := Visit(g, i, seen);
      [w] + LapsFrom(g, i + 1, w.seen)
  }

  /** All laps of `walkAll(v)`: the first starts at `v`, the others at unvisited nodes from 1 on. */
  function Laps(g: Graph, v: nat): (r: seq<Walk>)
    requires v < |g|
  {
    var w := Visit(g, v, {});
    [w] + LapsFrom(g, 1, w.seen)
  }

  /** What is visited before lap `k` of `laps`, when `seen` is before the first. */
  ghost function SeenBefore(laps: seq<Walk>, seen: set<nat>, k: nat): set<nat>
    requires k <= |laps|
  {
    if k == 0 then seen else laps[k - 1].seen
  }

  ghost predicate AllIn(i: nat, s: nat, seen: set<nat>) {
    forall u: nat :: i <= u < s ==> u in seen
  }

  lemma AllInNext(i: nat, s: nat, seen: set<nat>, more: set<nat>)
    requires i in seen && seen <= more && AllIn(i + 1, s, more)
    ensures AllIn(i, s, more)
  {
  }

  /** `lap` is a walk from `s`, the lowest node from `i` on that is not visited before it. (Stated of every
      walk equal to `lap`, so that it is unfolded only where it is used.) */
  ghost predicate LapFrom(g: Graph, i: nat, s: nat, before: set<nat>, lap: Walk) {
    forall w: Walk :: w == lap ==> LowestLap(g, i, s, before, w)
  }

  ghost predicate LowestLap(g: Graph, i: nat, s: nat, before: set<nat>, lap: Walk) {
    i <= s < |g| && before <= Nodes(g) && s !in before && AllIn(i, s, before) && lap == Visit(g, s, before)
  }

  lemma LaterLapFrom(g: Graph, i: nat, s: nat, before: set<nat>, lap: Walk)
    requires LapFrom(g, i + 1, s, before, lap) && i in before
    ensures LapFrom(g, i, s, before, lap)
  {
    assert LowestLap(g, i + 1, s, before, lap);
  }

  lemma FirstLap(g: Graph, i: nat, seen: set<nat>) returns (w: Walk, rest: seq<Walk>)
    requires i < |g| && seen <= Nodes(g) && i !in seen
    ensures w == Visit(g, i, seen) && seen <= w.seen <= Nodes(g) && i in w.seen
    ensures rest == LapsFrom(g, i + 1, w.seen) && LapsFrom(g, i, seen) == [w] + rest
  {
    w := Visit(g, i, seen);
    rest := LapsFrom(g, i + 1, w.seen);
  }

  lemma Shifted(w: Walk, rest: seq<Walk>, seen: set<nat>, k: nat)
    requires 0 < k <= |rest| + 1
    ensures SeenBefore([w] + rest, seen, k) == SeenBefore(rest, w.seen, k - 1)
    ensures k <= |rest| ==> ([w] + rest)[k] == rest[k - 1]
  {
  }

  lemma {:induction false} LapsGrow(g: Graph, i: nat, seen: set<nat>, k: nat)
    requires i <= |g| && seen <= Nodes(g) && k <= |LapsFrom(g, i, seen)|
    ensures seen <= SeenBefore(LapsFrom(g, i, seen), seen, k)
    decreases |g| - i
  {
    if k > 0 {
      if i in seen {
        LapsGrow(g, i + 1, seen, k);
      } else {
        var w, rest := FirstLap(g, i, seen);
        LapsGrow(g, i + 1, w.seen, k - 1);
        Shifted(w, rest, seen, k);
      }
    }
  }

  lemma ThisLapFrom(g: Graph, i: nat, seen: set<nat>)
    requires i < |g| && seen <= Nodes(g) && i !in seen
    ensures LapFrom(g, i, i, seen, Visit(g, i, seen))
  {
    assert LowestLap(g, i, i, seen, Visit(g, i, seen));
  }

  lemma {:induction false} NextStart(g: Graph, i: nat, seen: set<nat>, k: nat, w: Walk, rest: seq<Walk>)
    returns (s: nat)
    requires i < |g| && w.seen <= Nodes(g) && i in w.seen && rest == LapsFrom(g, i + 1, w.seen) && 0 < k <= |rest|
    ensures LapFrom(g, i, s, SeenBefore([w] + rest, seen, k), ([w] + rest)[k])
    decreases |g| - i - 1, 1
  {
    s := LapStart(g, i + 1, w.seen, k - 1);
    LapsGrow(g, i + 1, w.seen, k - 1);
    LaterLapFrom(g, i, s, SeenBefore(rest, w.seen, k - 1), rest[k - 1]);
    Shifted(w, rest, seen, k);
  }

  lemma {:induction false} LapStart(g: Graph, i: nat, seen: set<nat>, k: nat) returns (s: nat)
    requires i <= |g| && seen <= Nodes(g) && k < |LapsFrom(g, i, seen)|
    ensures LapFrom(g, i, s, SeenBefore(LapsFrom(g, i, seen), seen, k), LapsFrom(g, i, seen)[k])
    decreases |g| - i, 0
  {
    if i in seen {
      s := LapStart(g, i + 1, seen, k);
      LapsGrow(g, i + 1, seen, k);
      LaterLapFrom(g, i, s, SeenBefore(LapsFrom(g, i, seen), seen, k), LapsFrom(g, i, seen)[k]);
    } else {
      var w, rest := FirstLap(g, i, seen);
      if k == 0 {
        s := i;
        ThisLapFrom(g, i, seen);
      } else {
        s := NextStart(g, i, seen, k, w, rest);
      }
    }
  }

  lemma {:induction false} NextVisitAll(g: Graph, i: nat, seen: set<nat>, w: Walk, rest: seq<Walk>)
    requires i < |g| && w.seen <= Nodes(g) && i in w.seen && rest == LapsFrom(g, i + 1, w.seen)
    ensures AllIn(i, |g|, SeenBefore([w] + rest, seen, |rest| + 1))
    decreases |g| - i - 1, 1
  {
    LapsVisitAll(g, i + 1, w.seen);
    LapsGrow(g, i + 1, w.seen, |rest|);
    AllInNext(i, |g|, w.seen, SeenBefore(rest, w.seen, |rest|));
    Shifted(w, rest, seen, |rest| + 1);
  }

  lemma {:induction false} LapsVisitAll(g: Graph, i: nat, seen: set<nat>)
    requires i <= |g| && seen <= Nodes(g)
    ensures AllIn(i, |g|, SeenBefore(LapsFrom(g, i, seen), seen, |LapsFrom(g, i, seen)|))
    decreases |g| - i, 0
  {
    if i < |g| {
      if i in seen {
        var laps := LapsFrom(g, i + 1, seen);
        LapsVisitAll(g, i + 1, seen);
        LapsGrow(g, i + 1, seen, |laps|);
        AllInNext(i, |g|, seen, SeenBefore(laps, seen, |laps|));
      } else {
        var w, rest := FirstLap(g, i, seen);
        NextVisitAll(g, i, seen, w, rest);
      }
    }
  }

  /** The first lap of `walkAll(v)` is a walk from `v`. Each later one is a walk from the lowest node after
      0 that is not visited before it, and after the last one all these nodes are. */
  lemma LapsAre(g: Graph, v: nat, k: nat) returns (s: nat)
    requires v < |g| && k < |Laps(g, v)|
    ensures var laps := Laps(g, v);
            && laps[0] == Visit(g, v, {}) && AllIn(1, |g|, laps[|laps| - 1].seen)
            && (k > 0 ==> LapFrom(g, 1, s, laps[k - 1].seen, laps[k]))
  {
    var w := Visit(g, v, {});
    var later := LapsFrom(g, 1, w.seen);
    assert Laps(g, v) == [w] + later;
    LapsVisitAll(g, 1, w.seen);
    s := v;
    if k > 0 {
      s := LapStart(g, 1, w.seen, k - 1);
    }
  }

  /** The laps so far and those to come, before and after node `i` is tried. */
  lemma LapsShift(g: Graph, i: nat, seen: set<nat>, done: seq<Walk>)
    requires i < |g| && seen <= Nodes(g)
    ensures done + LapsFrom(g, i, seen)
         == if i in seen then done + LapsFrom(g, i + 1, seen)
            else (done + [Visit(g, i, seen)]) + LapsFrom(g, i + 1, Visit(g, i, seen).seen)
  {
    if i !in seen {
      var w := Visit(g, i, seen);
      assert done + ([w] + LapsFrom(g, i + 1, w.seen)) == (done + [w]) + LapsFrom(g, i + 1, w.seen);
    }
  }

  // ---- Which nodes a walk visits ----

  /** A walk visits what it can reach without entering the visited set. */
  lemma {:induction false} VisitReaches(g: Graph, v: nat, seen: set<nat>, u: nat)
    requires v < |g| && v !in seen && seen <= Nodes(g)
    requires u in Visit(g, v, seen).seen - seen
    ensures Reaches(g, v, u)
    decreases Nodes(g) - seen, 0, 0
  {
    ReachesSelf(g, v);
    if u != v {
      VisitLinksReaches(g, v, 0, seen + {v}, u);
    }
  }

  lemma {:induction false} VisitLinksReaches(g: Graph, v: nat, i: nat, seen: set<nat>, u: nat)
    requires v < |g| && i <= |g[v]| && seen <= Nodes(g)
    requires u in VisitLinks(g, v, i, seen).seen - seen
    ensures Reaches(g, v, u)
    decreases Nodes(g) - seen, 1, |g[v]| - i
  {
    var t := g[v][i];
    if t in seen {
      VisitLinksReaches(g, v, i + 1, seen, u);
    } else {
      var c := Visit(g, t, seen);
      if u in c.seen {
        VisitReaches(g, t, seen, u);
        EdgeReaches(g, v, t);
        ReachesTransitive(g, v, t, u);
      } else {
        VisitLinksReaches(g, v, i + 1, c.seen, u);
      }
    }
  }

  /** No link leads from a node finished by the walk to a node left unvisited. */
  lemma {:induction false} VisitCloses(g: Graph, v: nat, seen: set<nat>, u: nat, t: nat)
    requires v < |g| && v !in seen && seen <= Nodes(g)
    requires u in Visit(g, v, seen).seen - seen && Edge(g, u, t)
    ensures t in Visit(g, v, seen).seen
    decreases Nodes(g) - seen, 0, 0
  {
    if u == v {
      var k :| 0 <= k < |g[v]| && g[v][k] == t;
      VisitLinksCovers(g, v, 0, seen + {v}, k);
    } else {
      VisitLinksCloses(g, v, 0, seen + {v}, u, t);
    }
  }

  lemma {:induction false} VisitLinksCloses(g: Graph, v: nat, i: nat, seen: set<nat>, u: nat, t: nat)
    requires v < |g| && i <= |g[v]| && seen <= Nodes(g)
    requires u in VisitLinks(g, v, i, seen).seen - seen && Edge(g, u, t)
    ensures t in VisitLinks(g, v, i, seen).seen
    decreases Nodes(g) - seen, 1, |g[v]| - i
  {
    var c := g[v][i];
    if c in seen {
      VisitLinksCloses(g, v, i + 1, seen, u, t);
    } else if u in Visit(g, c, seen).seen {
      VisitCloses(g, c, seen, u, t);
    } else {
      VisitLinksCloses(g, v, i + 1, Visit(g, c, seen).seen, u, t);
    }
  }

  lemma {:induction false} VisitLinksCovers(g: Graph, v: nat, i: nat, seen: set<nat>, k: nat)
    requires v < |g| && i <= k < |g[v]| && seen <= Nodes(g)
    ensures g[v][k] in VisitLinks(g, v, i, seen).seen
    decreases |g[v]| - i
  {
    if i < k {
      var t := g[v][i];
      VisitLinksCovers(g, v, i + 1, if t in seen then seen else Visit(g, t, seen).seen, k);
    }
  }

  /** A walk on a fresh graph visits exactly the nodes reachable from its start. */
  lemma FreshVisit(g: Graph, v: nat, u: nat)
    requires v < |g|
    ensures u in Visit(g, v, {}).seen <==> Reaches(g, v, u)
  {
    var s := Visit(g, v, {}).seen;
    if u in s {
      VisitReaches(g, v, {}, u);
    }
    if Reaches(g, v, u) {
      forall x, t | x in s && Edge(g, x, t) ensures t in s {
        VisitCloses(g, v, {}, x, t);
      }
      ReachesStaysInside(g, s, v, u);
    }
  }
}
