/** `isReachable` with a prune predicate, which scans the pre+postorder list and skips from a
    pruned node to its second occurrence. */
module PrunedReach {
  import opened Graphs
  import opened Dfs
  import opened NodeOrder

  /** Where the scan stands: `Searching`, `Skipping` to the next occurrence of a node, or `Found`. */
  datatype Mode = Searching | Skipping(root: nat) | Found

  function Step(mode: Mode, n: nat, dest: nat, prune: nat -> bool): Mode {
    match mode
    case Found => Found
    case Skipping(root) => if n == root then Searching else mode
    case Searching => if n == dest then Found else if prune(n) then Skipping(n) else Searching
  }

  /** The scan of a list. */
  function Scan(list: seq<nat>, mode: Mode, dest: nat, prune: nat -> bool): Mode {
    if list == [] then mode else Scan(list[1..], Step(mode, list[0], dest, prune), dest, prune)
  }

  method IsReachablePruned(g: Graph, src: nat, dest: nat, prune: nat -> bool) returns (found: bool)
    requires src < |g|
    ensures found <==> EntersUnpruned([], Visit(g, src, {}).log, dest, prune)
    ensures found ==> exists p :: UnprunedPath(g, p, src, dest, prune)
  {
    var w := new NodeWalker(g, PrePostorder, false);
    w.Gen(src);
    ScanVisit(g, src, {}, [], dest, prune);
    found := ScanList(w.order[0], dest, prune);
    if found {
      FoundByUnprunedPath(g, src, dest, prune);
    }
  }

  method ScanList(list: seq<nat>, dest: nat, prune: nat -> bool) returns (found: bool)
    ensures found <==> Scan(list, Searching, dest, prune) == Found
  {
    ghost var all := Scan(list, Searching, dest, prune);
    var pruning, pruneRoot := false, 0;
    for i := 0 to |list|
      invariant all == Scan(list[i..], if pruning then Skipping(pruneRoot) else Searching, dest, prune)
    {
      var n := list[i];
      assert list[i..][1..] == list[i + 1..];
      if pruning {
        if n == pruneRoot {
          pruning := false;
        }
      } else {
        if n == dest {
          FoundStays(list[i + 1..], dest, prune);
          return true;
        }
        pruning := prune(n);
        if pruning {
          pruneRoot := n;
        }
      }
    }
    found := false;
  }

  lemma {:induction false} FoundStays(list: seq<nat>, dest: nat, prune: nat -> bool)
    ensures Scan(list, Found, dest, prune) == Found
  {
    if list != [] {
      FoundStays(list[1..], dest, prune);
    }
  }

  lemma {:induction false} ScanConcat(a: seq<nat>, b: seq<nat>, mode: Mode, dest: nat, prune: nat -> bool)
    ensures Scan(a + b, mode, dest, prune) == Scan(b, Scan(a, mode, dest, prune), dest, prune)
  {
    if a == [] {
      assert a + b == b;
    } else {
      assert (a + b)[1..] == a[1..] + b;
      ScanConcat(a[1..], b, Step(mode, a[0], dest, prune), dest, prune);
    }
  }

  lemma ScanOne(n: nat, mode: Mode, dest: nat, prune: nat -> bool)
    ensures Scan([n], mode, dest, prune) == Step(mode, n, dest, prune)
  {
    assert [n][1..] == [];
  }

  // ---- The calls in progress ----

  /** The nodes whose `walkHelper` call is in progress after the callbacks of `log`, outermost
      first, when those of `open` were in progress before. */
  function InProgress(open: seq<nat>, log: seq<Event>): seq<nat>
    decreases log
  {
    if log == [] then open
    else InProgress(Opened(open, log[0]), log[1..])
  }

  function Opened(open: seq<nat>, e: Event): seq<nat> {
    match e
    case Pre(n) => open + [n]
    case Post(_) => if open == [] then [] else open[..|open| - 1]
    case Late(_, _) => open
  }

  ghost predicate Unpruned(open: seq<nat>, prune: nat -> bool) {
    forall i :: 0 <= i < |open| ==> !prune(open[i])
  }

  /** `dest` is entered at a moment when no call in progress is for a pruned node. */
  ghost predicate EntersUnpruned(open: seq<nat>, log: seq<Event>, dest: nat, prune: nat -> bool) {
    exists k :: 0 <= k < |log| && log[k] == Pre(dest) && Unpruned(InProgress(open, log[..k]), prune)
  }

  lemma {:induction false} InProgressConcat(open: seq<nat>, a: seq<Event>, b: seq<Event>)
    ensures InProgress(open, a + b) == InProgress(InProgress(open, a), b)
    decreases a
  {
    if a == [] {
      assert a + b == b;
    } else {
      assert (a + b)[1..] == a[1..] + b;
      InProgressConcat(Opened(open, a[0]), a[1..], b);
    }
  }

  lemma EntersConcat(open: seq<nat>, a: seq<Event>, b: seq<Event>, dest: nat, prune: nat -> bool)
    ensures EntersUnpruned(open, a + b, dest, prune)
       <==> EntersUnpruned(open, a, dest, prune) || EntersUnpruned(InProgress(open, a), b, dest, prune)
  {
    forall k | 0 <= k < |a| ensures (a + b)[..k] == a[..k] {
    }
    forall k | 0 <= k < |b|
      ensures InProgress(open, (a + b)[..|a| + k]) == InProgress(InProgress(open, a), b[..k])
    {
      assert (a + b)[..|a| + k] == a + b[..k];
      InProgressConcat(open, a, b[..k]);
    }
    if EntersUnpruned(open, a, dest, prune) {
      var k :| 0 <= k < |a| && a[k] == Pre(dest) && Unpruned(InProgress(open, a[..k]), prune);
      assert (a + b)[k] == Pre(dest);
    }
    if EntersUnpruned(InProgress(open, a), b, dest, prune) {
      var k :| 0 <= k < |b| && b[k] == Pre(dest) && Unpruned(InProgress(InProgress(open, a), b[..k]), prune);
      assert (a + b)[|a| + k] == Pre(dest);
    }
    if EntersUnpruned(open, a + b, dest, prune) {
      var k :| 0 <= k < |a + b| && (a + b)[k] == Pre(dest) && Unpruned(InProgress(open, (a + b)[..k]), prune);
      if k >= |a| {
        assert b[k - |a|] == Pre(dest);
      }
    }
  }

  lemma EntersOne(open: seq<nat>, e: Event, dest: nat, prune: nat -> bool)
    ensures EntersUnpruned(open, [e], dest, prune) <==> e == Pre(dest) && Unpruned(open, prune)
    ensures InProgress(open, [e]) == Opened(open, e)
  {
    assert [e][1..] == [];
    assert [e][..0] == [];
    if e == Pre(dest) && Unpruned(open, prune) {
      assert [e][0] == Pre(dest);
    }
  }

  /** A completed walk leaves the calls in progress as they were. */
  lemma {:induction false} VisitBalanced(g: Graph, v: nat, seen: set<nat>, open: seq<nat>)
    requires v < |g| && v !in seen && seen <= Nodes(g)
    ensures InProgress(open, Visit(g, v, seen).log) == open
    decreases Nodes(g) - seen, 0, 0
  {
    var inner := VisitLinks(g, v, 0, seen + {v}).log;
    InProgressConcat(open, [Pre(v)] + inner, [Post(v)]);
    InProgressConcat(open, [Pre(v)], inner);
    LinksBalanced(g, v, 0, seen + {v}, open + [v]);
    EntersOne(open, Pre(v), 0, _ => false);
    EntersOne(open + [v], Post(v), 0, _ => false);
    assert (open + [v])[..|open|] == open;
  }

  lemma {:induction false} LinksBalanced(g: Graph, v: nat, i: nat, seen: set<nat>, open: seq<nat>)
    requires v < |g| && i <= |g[v]| && seen <= Nodes(g)
    ensures InProgress(open, VisitLinks(g, v, i, seen).log) == open
    decreases Nodes(g) - seen, 1, |g[v]| - i
  {
    if i < |g[v]| {
      var t := g[v][i];
      if t in seen {
        InProgressConcat(open, [Late(v, t)], VisitLinks(g, v, i + 1, seen).log);
        EntersOne(open, Late(v, t), 0, _ => false);
        LinksBalanced(g, v, i + 1, seen, open);
      } else {
        var c := Visit(g, t, seen);
        InProgressConcat(open, c.log, VisitLinks(g, v, i + 1, c.seen).log);
        VisitBalanced(g, t, seen, open);
        LinksBalanced(g, v, i + 1, c.seen, open);
      }
    }
  }

  // ---- What the scan finds ----

  /** Below a pruned node nothing is entered unpruned. */
  lemma {:induction false} NoEntryVisit(g: Graph, v: nat, seen: set<nat>, open: seq<nat>, dest: nat, prune: nat -> bool)
    requires v < |g| && v !in seen && seen <= Nodes(g) && !Unpruned(open, prune)
    ensures !EntersUnpruned(open, Visit(g, v, seen).log, dest, prune)
    decreases Nodes(g) - seen, 0, 0
  {
    EntersVisit(g, v, seen, open, dest, prune);
    assert !Unpruned(open + [v], prune) by {
      var i :| 0 <= i < |open| && prune(open[i]);
      assert prune((open + [v])[i]);
    }
    NoEntryLinks(g, v, 0, seen + {v}, open + [v], dest, prune);
  }

  lemma EntersVisit(g: Graph, v: nat, seen: set<nat>, open: seq<nat>, dest: nat, prune: nat -> bool)
    requires v < |g| && v !in seen && seen <= Nodes(g)
    ensures EntersUnpruned(open, Visit(g, v, seen).log, dest, prune)
       <==> || (v == dest && Unpruned(open, prune))
            || EntersUnpruned(open + [v], VisitLinks(g, v, 0, seen + {v}).log, dest, prune)
  {
    var inner := VisitLinks(g, v, 0, seen + {v}).log;
    EntersConcat(open, [Pre(v)] + inner, [Post(v)], dest, prune);
    EntersConcat(open, [Pre(v)], inner, dest, prune);
    EntersOne(open, Pre(v), dest, prune);
    EntersOne(InProgress(open, [Pre(v)] + inner), Post(v), dest, prune);
  }

  lemma {:induction false} NoEntryLinks(g: Graph, v: nat, i: nat, seen: set<nat>, open: seq<nat>, dest: nat,
                                        prune: nat -> bool)
    requires v < |g| && i <= |g[v]| && seen <= Nodes(g) && !Unpruned(open, prune)
    ensures !EntersUnpruned(open, VisitLinks(g, v, i, seen).log, dest, prune)
    decreases Nodes(g) - seen, 1, |g[v]| - i
  {
    if i < |g[v]| {
      var t := g[v][i];
      EntersLinks(g, v, i, seen, open, dest, prune);
      if t in seen {
        NoEntryLinks(g, v, i + 1, seen, open, dest, prune);
      } else {
        NoEntryVisit(g, t, seen, open, dest, prune);
        NoEntryLinks(g, v, i + 1, Visit(g, t, seen).seen, open, dest, prune);
      }
    }
  }

  lemma EntersLinks(g: Graph, v: nat, i: nat, seen: set<nat>, open: seq<nat>, dest: nat, prune: nat -> bool)
    requires v < |g| && i < |g[v]| && seen <= Nodes(g)
    ensures EntersUnpruned(open, VisitLinks(g, v, i, seen).log, dest, prune)
       <==> if g[v][i] in seen
            then EntersUnpruned(open, VisitLinks(g, v, i + 1, seen).log, dest, prune)
            else var c := Visit(g, g[v][i], seen);
                 || EntersUnpruned(open, c.log, dest, prune)
                 || EntersUnpruned(open, VisitLinks(g, v, i + 1, c.seen).log, dest, prune)
  {
    var t := g[v][i];
    if t in seen {
      EntersConcat(open, [Late(v, t)], VisitLinks(g, v, i + 1, seen).log, dest, prune);
      EntersOne(open, Late(v, t), dest, prune);
    } else {
      var c := Visit(g, t, seen);
      EntersConcat(open, c.log, VisitLinks(g, v, i + 1, c.seen).log, dest, prune);
      VisitBalanced(g, t, seen, open);
    }
  }

  /** Skipping goes on until the pruned node occurs again. */
  lemma {:induction false} SkipPast(list: seq<nat>, root: nat, dest: nat, prune: nat -> bool)
    requires root !in list
    ensures Scan(list, Skipping(root), dest, prune) == Skipping(root)
  {
    if list != [] {
      SkipPast(list[1..], root, dest, prune);
    }
  }

  /** The scan over the list of one walk: `v`, the list of its links, and `v` again. */
  lemma ScanBrackets(v: nat, inner: seq<nat>, dest: nat, prune: nat -> bool)
    requires v !in inner
    ensures Scan([v] + inner + [v], Searching, dest, prune)
         == if v == dest then Found
            else if prune(v) then Searching
            else Step(Scan(inner, Searching, dest, prune), v, dest, prune)
  {
    var mode := Step(Searching, v, dest, prune);
    ScanConcat([v] + inner, [v], Searching, dest, prune);
    ScanConcat([v], inner, Searching, dest, prune);
    ScanOne(v, Searching, dest, prune);
    ScanOne(v, Scan(inner, mode, dest, prune), dest, prune);
    SkipPast(inner, v, dest, prune);
    FoundStays(inner, dest, prune);
  }

  /** Over the list of a walk, the scan finds `dest` exactly when it is entered unpruned. */
  lemma {:induction false} ScanVisit(g: Graph, v: nat, seen: set<nat>, open: seq<nat>, dest: nat, prune: nat -> bool)
    requires v < |g| && v !in seen && seen <= Nodes(g) && Unpruned(open, prune)
    ensures Scan(Collected(PrePostorder, Visit(g, v, seen).log), Searching, dest, prune)
         == if EntersUnpruned(open, Visit(g, v, seen).log, dest, prune) then Found else Searching
    decreases Nodes(g) - seen, 0, 0
  {
    var inner: seq<nat> := Collected(PrePostorder, VisitLinks(g, v, 0, seen + {v}).log);
    CollectedVisit(PrePostorder, g, v, seen);
    EntersVisit(g, v, seen, open, dest, prune);
    assert v !in inner by {
      CollectsVisitedLinks(PrePostorder, g, v, 0, seen + {v}, v);
      assert v !in multiset(inner);
    }
    ScanBrackets(v, inner, dest, prune);
    if v != dest {
      if prune(v) {
        NoEntryBelowPruned(g, v, seen, open, dest, prune);
      } else {
        ScanLinks(g, v, 0, seen + {v}, open + [v], dest, prune);
      }
    }
  }

  lemma {:induction false} ScanLinks(g: Graph, v: nat, i: nat, seen: set<nat>, open: seq<nat>, dest: nat,
                                     prune: nat -> bool)
    requires v < |g| && i <= |g[v]| && seen <= Nodes(g) && Unpruned(open, prune)
    ensures Scan(Collected(PrePostorder, VisitLinks(g, v, i, seen).log), Searching, dest, prune)
         == if EntersUnpruned(open, VisitLinks(g, v, i, seen).log, dest, prune) then Found else Searching
    decreases Nodes(g) - seen, 1, |g[v]| - i
  {
    if i < |g[v]| {
      var t := g[v][i];
      EntersLinks(g, v, i, seen, open, dest, prune);
      CollectedLinks(PrePostorder, g, v, i, seen);
      if t in seen {
        ScanLinks(g, v, i + 1, seen, open, dest, prune);
      } else {
        var c := Visit(g, t, seen);
        var here, later := Collected(PrePostorder, c.log), Collected(PrePostorder, VisitLinks(g, v, i + 1, c.seen).log);
        ScanConcat(here, later, Searching, dest, prune);
        FoundStays(later, dest, prune);
        ScanVisit(g, t, seen, open, dest, prune);
        ScanLinks(g, v, i + 1, c.seen, open, dest, prune);
      }
    }
  }

  // ---- The calls in progress form a path ----

  /** Distinct nodes, none of them seen. */
  ghost predicate Fresh(p: seq<nat>, seen: set<nat>) {
    Distinct(p) && forall i :: 0 <= i < |p| ==> p[i] !in seen
  }

  lemma FreshCons(v: nat, p: seq<nat>, seen: set<nat>)
    requires v !in seen && Fresh(p, seen + {v})
    ensures Fresh([v] + p, seen)
  {
  }

  lemma InProgressInside(open: seq<nat>, v: nat, inner: seq<Event>, k: nat)
    requires 0 < k <= |inner| + 1
    ensures InProgress(open, ([Pre(v)] + inner + [Post(v)])[..k]) == InProgress(open + [v], inner[..k - 1])
  {
    assert ([Pre(v)] + inner + [Post(v)])[..k] == [Pre(v)] + inner[..k - 1];
    InProgressConcat(open, [Pre(v)], inner[..k - 1]);
    EntersOne(open, Pre(v), 0, _ => false);
  }

  lemma {:induction false} CallsFormPath(g: Graph, v: nat, seen: set<nat>, open: seq<nat>, k: nat) returns (q: seq<nat>)
    requires v < |g| && v !in seen && seen <= Nodes(g)
    requires k < |Visit(g, v, seen).log| && Visit(g, v, seen).log[k].Pre?
    ensures var log := Visit(g, v, seen).log;
            && InProgress(open, log[..k]) == open + q && Connects(g, q + [log[k].node], v, log[k].node)
            && Fresh(q + [log[k].node], seen)
    decreases Nodes(g) - seen, 0, 0
  {
    var inner := VisitLinks(g, v, 0, seen + {v}).log;
    var log := [Pre(v)] + inner + [Post(v)];
    if k == 0 {
      q := [];
      assert open + [] == open;
    } else {
      InProgressInside(open, v, inner, k);
      q := LinkCallsFormPath(g, v, 0, seen + {v}, open + [v], k - 1);
      assert open + [v] + q == open + ([v] + q);
      FreshCons(v, q + [inner[k - 1].node], seen);
      assert [v] + (q + [inner[k - 1].node]) == [v] + q + [log[k].node];
      q := [v] + q;
    }
  }

  lemma {:induction false} LinkCallsFormPath(g: Graph, v: nat, i: nat, seen: set<nat>, open: seq<nat>, k: nat)
    returns (q: seq<nat>)
    requires v < |g| && i <= |g[v]| && seen <= Nodes(g)
    requires k < |VisitLinks(g, v, i, seen).log| && VisitLinks(g, v, i, seen).log[k].Pre?
    ensures var log := VisitLinks(g, v, i, seen).log;
            && InProgress(open, log[..k]) == open + q && Connects(g, [v] + q + [log[k].node], v, log[k].node)
            && Fresh(q + [log[k].node], seen)
    decreases Nodes(g) - seen, 1, |g[v]| - i
  {
    var t := g[v][i];
    var log := VisitLinks(g, v, i, seen).log;
    if t in seen {
      var rest := VisitLinks(g, v, i + 1, seen).log;
      assert log == [Late(v, t)] + rest && log[..k] == [Late(v, t)] + rest[..k - 1];
      InProgressConcat(open, [Late(v, t)], rest[..k - 1]);
      EntersOne(open, Late(v, t), 0, _ => false);
      q := LinkCallsFormPath(g, v, i + 1, seen, open, k - 1);
    } else {
      var c := Visit(g, t, seen);
      var rest := VisitLinks(g, v, i + 1, c.seen).log;
      assert log == c.log + rest;
      if k < |c.log| {
        assert log[..k] == c.log[..k];
        q := CallsFormPath(g, t, seen, open, k);
        var p := q + [log[k].node];
        assert [v] + q + [log[k].node] == [v] + p;
        assert Connects(g, [v] + p, v, log[k].node);
      } else {
        assert log[..k] == c.log + rest[..k - |c.log|];
        InProgressConcat(open, c.log, rest[..k - |c.log|]);
        VisitBalanced(g, t, seen, open);
        q := LinkCallsFormPath(g, v, i + 1, c.seen, open, k - |c.log|);
      }
    }
  }

  /** A path whose nodes before the last are not pruned. */
  ghost predicate UnprunedPath(g: Graph, p: seq<nat>, src: nat, dest: nat, prune: nat -> bool) {
    Connects(g, p, src, dest) && Unpruned(p[..|p| - 1], prune)
  }

  /** When the pruned search finds `dest`, some path leads there with no pruned node before it. */
  lemma FoundByUnprunedPath(g: Graph, src: nat, dest: nat, prune: nat -> bool)
    requires src < |g| && EntersUnpruned([], Visit(g, src, {}).log, dest, prune)
    ensures exists p :: UnprunedPath(g, p, src, dest, prune)
  {
    var log := Visit(g, src, {}).log;
    var k :| 0 <= k < |log| && log[k] == Pre(dest) && Unpruned(InProgress([], log[..k]), prune);
    var q := CallsFormPath(g, src, {}, [], k);
    assert [] + q == q && (q + [dest])[..|q|] == q;
    assert UnprunedPath(g, q + [dest], src, dest, prune);
  }

  lemma {:induction false} EnteredIsCollected(log: seq<Event>, k: nat)
    requires k < |log| && log[k].Pre?
    ensures log[k].node in Collected(Preorder, log)
  {
    if k > 0 {
      EnteredIsCollected(log[1..], k - 1);
    }
  }

  /** A node already visited is not entered again. */
  lemma NotEnteredAgain(g: Graph, v: nat, i: nat, seen: set<nat>, open: seq<nat>, dest: nat, prune: nat -> bool)
    requires v < |g| && i <= |g[v]| && seen <= Nodes(g) && dest in seen
    ensures !EntersUnpruned(open, VisitLinks(g, v, i, seen).log, dest, prune)
  {
    var log := VisitLinks(g, v, i, seen).log;
    var list: seq<nat> := Collected(Preorder, log);
    CollectsVisitedLinks(Preorder, g, v, i, seen, dest);
    assert dest !in multiset(list);
    forall k | 0 <= k < |log| ensures log[k] != Pre(dest) {
      if log[k] == Pre(dest) {
        EnteredIsCollected(log, k);
      }
    }
  }

  /** If the first link leads to a pruned node that has a link to `dest`, the search misses
      `dest`, whatever other paths there are. */
  lemma MissedBelowPruned(g: Graph, src: nat, dest: nat, prune: nat -> bool)
    requires src < |g| && g[src] != [] && g[src][0] != src && prune(g[src][0])
    requires dest != src && dest != g[src][0] && Edge(g, g[src][0], dest)
    ensures !EntersUnpruned([], Visit(g, src, {}).log, dest, prune)
  {
    EntersVisit(g, src, {}, [], dest, prune);
    FirstLinkMisses(g, src, {} + {src}, [] + [src], dest, prune);
  }

  lemma FirstLinkMisses(g: Graph, src: nat, seen: set<nat>, open: seq<nat>, dest: nat, prune: nat -> bool)
    requires src < |g| && seen <= Nodes(g) && g[src] != [] && g[src][0] !in seen && prune(g[src][0])
    requires dest != g[src][0] && Edge(g, g[src][0], dest)
    ensures !EntersUnpruned(open, VisitLinks(g, src, 0, seen).log, dest, prune)
  {
    var c := g[src][0];
    EntersLinks(g, src, 0, seen, open, dest, prune);
    NoEntryBelowPruned(g, c, seen, open, dest, prune);
    VisitCloses(g, c, seen, c, dest);
    NotEnteredAgain(g, src, 1, Visit(g, c, seen).seen, open, dest, prune);
  }

  lemma NoEntryBelowPruned(g: Graph, v: nat, seen: set<nat>, open: seq<nat>, dest: nat, prune: nat -> bool)
    requires v < |g| && v !in seen && seen <= Nodes(g) && prune(v) && v != dest
    ensures !EntersUnpruned(open, Visit(g, v, seen).log, dest, prune)
  {
    EntersVisit(g, v, seen, open, dest, prune);
    assert prune((open + [v])[|open|]);
    NoEntryLinks(g, v, 0, seen + {v}, open + [v], dest, prune);
  }

  /** So the converse of `FoundByUnprunedPath` fails: here 0 leads to 1 and 2, 1 leads to 2, and
      1 is pruned. */
  lemma PruningCanMiss(g: Graph, prune: nat -> bool)
    requires g == [[1, 2], [2], []] && prune(1) && !prune(0)
    ensures UnprunedPath(g, [0, 2], 0, 2, prune) && !EntersUnpruned([], Visit(g, 0, {}).log, 2, prune)
  {
    assert Edge(g, 0, 2) && Edge(g, 1, 2);
    assert [0, 2][..1] == [0];
    MissedBelowPruned(g, 0, 2, prune);
  }
}
