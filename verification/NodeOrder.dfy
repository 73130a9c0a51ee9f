/** `NodeCollection` and the orders built on it: preorder, postorder, reverse postorder and
    pre+postorder. */
module NodeOrder {
  import opened Graphs
  import opened Dfs

  /** Which callbacks append to the list (`VisitType`). */
  datatype Kind = Preorder | Postorder | PrePostorder {
    predicate OnPre() { !Postorder? }
    predicate OnPost() { !Preorder? }
  }

  /** The ids a collector of this kind appends while the walk makes these callbacks. */
  function Collected(kind: Kind, log: seq<Event>): seq<nat> {
    if log == [] then []
    else
      var rest := Collected(kind, log[1..]);
      match log[0]
      case Pre(n) => if kind.OnPre() then [n] + rest else rest
      case Post(n) => if kind.OnPost() then [n] + rest else rest
      case Late(_, _) => rest
  }

  lemma {:induction false} CollectedConcat(kind: Kind, a: seq<Event>, b: seq<Event>)
    ensures Collected(kind, a + b) == Collected(kind, a) + Collected(kind, b)
  {
    if a == [] {
      assert a + b == b;
    } else {
      assert (a + b)[1..] == a[1..] + b;
      CollectedConcat(kind, a[1..], b);
    }
  }

  /** What `Visit` collects: the ids around those of the links. */
  lemma CollectedVisit(kind: Kind, g: Graph, v: nat, seen: set<nat>)
    requires v < |g| && v !in seen && seen <= Nodes(g)
    ensures Collected(kind, Visit(g, v, seen).log)
         == (if kind.OnPre() then [v] else [])
          + Collected(kind, VisitLinks(g, v, 0, seen + {v}).log)
          + (if kind.OnPost() then [v] else [])
  {
    var inner := VisitLinks(g, v, 0, seen + {v}).log;
    CollectedConcat(kind, [Pre(v)] + inner, [Post(v)]);
    CollectedConcat(kind, [Pre(v)], inner);
  }

  /** What the links from `i` on collect: what link `i` adds, and the rest. */
  lemma CollectedLinks(kind: Kind, g: Graph, v: nat, i: nat, seen: set<nat>)
    requires v < |g| && i < |g[v]| && seen <= Nodes(g)
    ensures Collected(kind, VisitLinks(g, v, i, seen).log)
         == if g[v][i] in seen then Collected(kind, VisitLinks(g, v, i + 1, seen).log)
            else var c := Visit(g, g[v][i], seen);
                 Collected(kind, c.log) + Collected(kind, VisitLinks(g, v, i + 1, c.seen).log)
  {
    if g[v][i] !in seen {
      var c := Visit(g, g[v][i], seen);
      CollectedConcat(kind, c.log, VisitLinks(g, v, i + 1, c.seen).log);
    }
  }

  // ---- Which ids are collected, and how often ----

  function Times(kind: Kind): nat {
    if kind.PrePostorder? then 2 else 1
  }

  /** Every newly visited node is collected once (twice for pre+postorder), and no other. */
  lemma {:induction false} CollectsVisited(kind: Kind, g: Graph, v: nat, seen: set<nat>, u: nat)
    requires v < |g| && v !in seen && seen <= Nodes(g)
    ensures var w := Visit(g, v, seen);
            multiset(Collected(kind, w.log))[u] == if u in w.seen - seen then Times(kind) else 0
    decreases Nodes(g) - seen, 0, 0
  {
    CollectedVisit(kind, g, v, seen);
    CollectsVisitedLinks(kind, g, v, 0, seen + {v}, u);
  }

  lemma {:induction false} CollectsVisitedLinks(kind: Kind, g: Graph, v: nat, i: nat, seen: set<nat>, u: nat)
    requires v < |g| && i <= |g[v]| && seen <= Nodes(g)
    ensures var w := VisitLinks(g, v, i, seen);
            multiset(Collected(kind, w.log))[u] == if u in w.seen - seen then Times(kind) else 0
    decreases Nodes(g) - seen, 1, |g[v]| - i
  {
    if i < |g[v]| {
      var t := g[v][i];
      CollectedLinks(kind, g, v, i, seen);
      if t in seen {
        CollectsVisitedLinks(kind, g, v, i + 1, seen, u);
      } else {
        CollectsVisited(kind, g, t, seen, u);
        CollectsVisitedLinks(kind, g, v, i + 1, Visit(g, t, seen).seen, u);
      }
    }
  }

  /** A preorder or postorder lists exactly the reachable nodes, each once. */
  lemma OrderListsReachable(kind: Kind, g: Graph, v: nat)
    requires v < |g| && !kind.PrePostorder?
    ensures Distinct(Collected(kind, Visit(g, v, {}).log))
    ensures forall u :: u in Collected(kind, Visit(g, v, {}).log) <==> Reaches(g, v, u)
  {
    var order: seq<nat> := Collected(kind, Visit(g, v, {}).log);
    var count: multiset<nat> := multiset(order);
    forall u: nat ensures count[u] <= 1 && (u in order <==> Reaches(g, v, u)) {
      CollectsVisited(kind, g, v, {}, u);
      FreshVisit(g, v, u);
      assert u in order <==> u in count;
    }
    DistinctByCount(order);
  }

  // ---- Finishing order ----

  /** In a postorder, each node but the start has a predecessor that finishes later. */
  lemma {:induction false} ParentFinishesLater(g: Graph, v: nat, seen: set<nat>, k: nat) returns (j: nat)
    requires v < |g| && v !in seen && seen <= Nodes(g)
    requires k < |Collected(Postorder, Visit(g, v, seen).log)|
    ensures var post := Collected(Postorder, Visit(g, v, seen).log);
            && post[|post| - 1] == v
            && (k < |post| - 1 ==> k < j < |post| && Edge(g, post[j], post[k]))
    decreases Nodes(g) - seen, 0, 0
  {
    CollectedVisit(Postorder, g, v, seen);
    var inner := Collected(Postorder, VisitLinks(g, v, 0, seen + {v}).log);
    j := |inner|;
    if k < |inner| {
      j := LinkParentFinishesLater(g, v, 0, seen + {v}, k);
    }
  }

  lemma {:induction false} LinkParentFinishesLater(g: Graph, v: nat, i: nat, seen: set<nat>, k: nat)
    returns (j: nat)
    requires v < |g| && i <= |g[v]| && seen <= Nodes(g)
    requires k < |Collected(Postorder, VisitLinks(g, v, i, seen).log)|
    ensures var post := Collected(Postorder, VisitLinks(g, v, i, seen).log);
            k < j <= |post| && Edge(g, if j == |post| then v else post[j], post[k])
    decreases Nodes(g) - seen, 1, |g[v]| - i
  {
    var t := g[v][i];
    if t in seen {
      j := LinkParentFinishesLater(g, v, i + 1, seen, k);
    } else {
      var c := Visit(g, t, seen);
      var r := VisitLinks(g, v, i + 1, c.seen);
      CollectedConcat(Postorder, c.log, r.log);
      var m := |Collected(Postorder, c.log)|;
      if k < m {
        j := ParentFinishesLater(g, t, seen, k);
        if k == m - 1 {
          j := m + |Collected(Postorder, r.log)|;
        }
      } else {
        j := LinkParentFinishesLater(g, v, i + 1, c.seen, k - m);
        j := j + m;
      }
    }
  }

  /** In a preorder, the start comes first and each other node has a predecessor that comes earlier. */
  lemma {:induction false} ParentComesEarlier(g: Graph, v: nat, seen: set<nat>, k: nat) returns (j: nat)
    requires v < |g| && v !in seen && seen <= Nodes(g)
    requires k < |Collected(Preorder, Visit(g, v, seen).log)|
    ensures var pre := Collected(Preorder, Visit(g, v, seen).log);
            pre[0] == v && (k > 0 ==> j < k && Edge(g, pre[j], pre[k]))
    decreases Nodes(g) - seen, 0, 0
  {
    CollectedVisit(Preorder, g, v, seen);
    j := 0;
    if k > 0 {
      j := LinkParentComesEarlier(g, v, 0, seen + {v}, k - 1);
    }
  }

  /** A predecessor of `pre[k]` comes earlier: `v` if `j` is 0, or else what is before place `j`. */
  ghost predicate EarlierAt(g: Graph, v: nat, pre: seq<nat>, k: nat, j: nat) {
    j <= k < |pre| && Edge(g, if j == 0 then v else pre[j - 1], pre[k])
  }

  lemma EarlierLeft(g: Graph, v: nat, left: seq<nat>, right: seq<nat>, k: nat, j: nat)
    requires k < |left| && (if k == 0 then Edge(g, v, left[0]) else j < k && Edge(g, left[j], left[k]))
    ensures EarlierAt(g, v, left + right, k, if k == 0 then 0 else j + 1)
  {
  }

  lemma EarlierRight(g: Graph, v: nat, left: seq<nat>, right: seq<nat>, k: nat, j: nat)
    requires EarlierAt(g, v, right, k, j)
    ensures EarlierAt(g, v, left + right, |left| + k, if j == 0 then 0 else |left| + j)
  {
  }

  lemma {:induction false} LinkParentComesEarlier(g: Graph, v: nat, i: nat, seen: set<nat>, k: nat)
    returns (j: nat)
    requires v < |g| && i <= |g[v]| && seen <= Nodes(g)
    requires k < |Collected(Preorder, VisitLinks(g, v, i, seen).log)|
    ensures EarlierAt(g, v, Collected(Preorder, VisitLinks(g, v, i, seen).log), k, j)
    decreases Nodes(g) - seen, 1, |g[v]| - i
  {
    var t := g[v][i];
    if t in seen {
      j := LinkParentComesEarlier(g, v, i + 1, seen, k);
    } else {
      var c := Visit(g, t, seen);
      var r := VisitLinks(g, v, i + 1, c.seen);
      CollectedConcat(Preorder, c.log, r.log);
      var left, right := Collected(Preorder, c.log), Collected(Preorder, r.log);
      if k < |left| {
        j := ParentComesEarlier(g, t, seen, k);
        EarlierLeft(g, v, left, right, k, j);
        j := if k == 0 then 0 else j + 1;
      } else {
        j := LinkParentComesEarlier(g, v, i + 1, c.seen, k - |left|);
        EarlierRight(g, v, left, right, k - |left|, j);
        j := if j == 0 then 0 else |left| + j;
      }
    }
  }

  // ---- The walker with a NodeCollection ----

  ghost function Marked(visited: seq<bool>): (s: set<nat>)
    ensures forall v: nat :: v in s <==> v < |visited| && visited[v]
  {
    set v: nat | v in Ids(|visited|) && visited[v]
  }

  /** The callbacks of `log` turn the lists `order` into `final`. (Stated of every log equal to
      `log`, so that it is unfolded only where it is used.) */
  ghost predicate Grows(kind: Kind, lap: nat, order: seq<seq<nat>>, log: seq<Event>, final: seq<seq<nat>>) {
    lap < |order| && forall l :: l == log ==> Grown(order, lap, Collected(kind, l)) == final
  }

  lemma GrowsDone(kind: Kind, lap: nat, order: seq<seq<nat>>, final: seq<seq<nat>>)
    requires Grows(kind, lap, order, [], final)
    ensures order == final
  {
    GrownTwice(order, lap, [], []);
    assert Collected(kind, []) == [];
  }

  lemma GrowsVisit(kind: Kind, lap: nat, g: Graph, v: nat, seen: set<nat>, order: seq<seq<nat>>, final: seq<seq<nat>>)
    returns (mid: seq<seq<nat>>)
    requires v < |g| && v !in seen && seen <= Nodes(g) && Grows(kind, lap, order, Visit(g, v, seen).log, final)
    ensures Grows(kind, lap, if kind.OnPre() then Grown(order, lap, [v]) else order,
                  VisitLinks(g, v, 0, seen + {v}).log, mid)
    ensures |mid| == |order| && final == if kind.OnPost() then Grown(mid, lap, [v]) else mid
  {
    var inner := Collected(kind, VisitLinks(g, v, 0, seen + {v}).log);
    var pre, post := if kind.OnPre() then [v] else [], if kind.OnPost() then [v] else [];
    mid := Grown(order, lap, pre + inner);
    assert Collected(kind, Visit(g, v, seen).log) == pre + inner + post by {
      CollectedVisit(kind, g, v, seen);
    }
    GrownTwice(order, lap, pre, inner);
    GrownTwice(order, lap, pre + inner, post);
    GrownTwice(mid, lap, [], []);
  }

  lemma GrowsChild(kind: Kind, lap: nat, g: Graph, v: nat, i: nat, seen: set<nat>, order: seq<seq<nat>>,
                   final: seq<seq<nat>>)
    returns (mid: seq<seq<nat>>)
    requires v < |g| && i < |g[v]| && seen <= Nodes(g) && g[v][i] !in seen
    requires Grows(kind, lap, order, VisitLinks(g, v, i, seen).log, final)
    ensures var c := Visit(g, g[v][i], seen);
            Grows(kind, lap, order, c.log, mid) && Grows(kind, lap, mid, VisitLinks(g, v, i + 1, c.seen).log, final)
  {
    var c := Visit(g, g[v][i], seen);
    mid := Grown(order, lap, Collected(kind, c.log));
    CollectedLinks(kind, g, v, i, seen);
    GrownTwice(order, lap, Collected(kind, c.log), Collected(kind, VisitLinks(g, v, i + 1, c.seen).log));
  }

  lemma GrowsLate(kind: Kind, lap: nat, g: Graph, v: nat, i: nat, seen: set<nat>, order: seq<seq<nat>>,
                  final: seq<seq<nat>>)
    requires v < |g| && i < |g[v]| && seen <= Nodes(g) && g[v][i] in seen
    requires Grows(kind, lap, order, VisitLinks(g, v, i, seen).log, final)
    ensures Grows(kind, lap, order, VisitLinks(g, v, i + 1, seen).log, final)
  {
    CollectedLinks(kind, g, v, i, seen);
  }

  class NodeWalker {
    const g: Graph
    const kind: Kind
    const reversed: bool  // FinishType is ReverseFinisher
    var visited: seq<bool>
    var order: seq<seq<nat>>
    var lap: nat

    ghost predicate Valid()
      reads this
    {
      |visited| == |g| && lap < |order|
    }

    constructor (g: Graph, kind: Kind, reversed: bool)
      ensures this.g == g && this.kind == kind && this.reversed == reversed
    {
      this.g := g;
      this.kind := kind;
      this.reversed := reversed;
      visited := [];
      order := seq(|g|, _ => []);
      lap := 0;
    }

    method Append(id: nat)
      requires Valid()
      modifies `order
      ensures order == Grown(old(order), lap, [id])
    {
      order := order[lap := order[lap] + [id]];
    }

    /** The recursive walk appends what the callbacks logged by `Visit` append. */
    method WalkHelper(id: nat, ghost final: seq<seq<nat>>)
      requires Valid() && id < |g| && !visited[id]
      requires Grows(kind, lap, order, Visit(g, id, Marked(visited)).log, final)
      modifies `visited, `order
      ensures Valid() && order == final
      ensures Marked(visited) == Visit(g, id, old(Marked(visited))).seen
      decreases Nodes(g) - Marked(visited), 0
    {
      ghost var seen := Marked(visited);
      ghost var mid := GrowsVisit(kind, lap, g, id, seen, order, final);
      visited := visited[id := true];
      assert Marked(visited) == seen + {id};
      if kind.OnPre() {
        Append(id);
      }
      WalkLinks(id, mid);
      if kind.OnPost() {
        Append(id);
      }
    }

    /** The loop of `walkHelper` over the links of `id`. */
    method WalkLinks(id: nat, ghost final: seq<seq<nat>>)
      requires Valid() && id < |g|
      requires Grows(kind, lap, order, VisitLinks(g, id, 0, Marked(visited)).log, final)
      modifies `visited, `order
      ensures Valid() && order == final
      ensures Marked(visited) == VisitLinks(g, id, 0, old(Marked(visited))).seen
      decreases Nodes(g) - Marked(visited), 1
    {
      for i := 0 to |g[id]|
        invariant Valid() && old(Marked(visited)) <= Marked(visited)
        invariant VisitLinks(g, id, 0, old(Marked(visited))).seen == VisitLinks(g, id, i, Marked(visited)).seen
        invariant Grows(kind, lap, order, VisitLinks(g, id, i, Marked(visited)).log, final)
      {
        var n := g[id][i];
        if !visited[n] {
          ghost var mid := GrowsChild(kind, lap, g, id, i, Marked(visited), order, final);
          WalkHelper(n, mid);
        } else {
          GrowsLate(kind, lap, g, id, i, Marked(visited), order, final);
        }
      }
      GrowsDone(kind, lap, order, final);
    }

    /** A whole walk. */
    method Walk(id: nat)
      requires Valid() && id < |g| && !visited[id]
      modifies `visited, `order
      ensures Valid()
      ensures var w := Visit(g, id, old(Marked(visited)));
              Marked(visited) == w.seen && order == Grown(old(order), lap, Collected(kind, w.log))
    {
      WalkHelper(id, Grown(order, lap, Collected(kind, Visit(g, id, Marked(visited)).log)));
    }

    method Reset()
      modifies `visited, `order, `lap
      ensures Valid() && Marked(visited) == {} && order == [[]] && lap == 0
    {
      visited := seq(|g|, _ => false);
      lap := 0;
      order := [[]];
    }

    method Finish()
      modifies `order
      ensures |order| == old(|order|)
      ensures forall l :: 0 <= l < |order| ==>
                order[l] == if reversed then Reverse(old(order)[l]) else old(order)[l]
    {
      for k := 0 to |order|
        invariant |order| == old(|order|)
        invariant forall l :: k <= l < |order| ==> order[l] == old(order)[l]
        invariant forall l :: 0 <= l < k ==>
                    order[l] == if reversed then Reverse(old(order)[l]) else old(order)[l]
      {
        order := order[k := if reversed then Reverse(order[k]) else order[k]];
      }
    }

    method Gen(id: nat)
      requires id < |g|
      modifies this
      ensures var list := Collected(kind, Visit(g, id, {}).log);
              order == [if reversed then Reverse(list) else list]
    {
      Reset();
      Walk(id);
      assert [] + Collected(kind, Visit(g, id, {}).log) == Collected(kind, Visit(g, id, {}).log);
      Finish();
    }

    ghost predicate CollectedLaps(lists: seq<seq<nat>>, laps: seq<Walk>) {
      && |lists| == |laps|
      && forall l :: 0 <= l < |lists| ==> lists[l] == Collected(kind, laps[l].log)
    }

    /** One lap of `walkAll`: `tick`, then a walk from an unvisited node. */
    method Lap(id: nat)
      requires Valid() && lap + 1 == |order| && id < |g| && !visited[id]
      modifies `visited, `order, `lap
      ensures Valid() && lap + 1 == |order|
      ensures var w := Visit(g, id, old(Marked(visited)));
              Marked(visited) == w.seen && order == old(order) + [Collected(kind, w.log)]
    {
      lap := lap + 1;
      order := order + [[]];
      Walk(id);
      assert order[lap] == Collected(kind, Visit(g, id, old(Marked(visited))).log);
    }

    /** The laps of `walkAll`, before `finish`. */
    method WalkAll(id: nat)
      requires id < |g|
      modifies this
      ensures CollectedLaps(order, Laps(g, id))
    {
      Reset();
      Walk(id);
      ghost var first := Visit(g, id, {});
      assert order[0] == [] + Collected(kind, first.log) == Collected(kind, first.log);
      LaterLaps([first]);
    }

    lemma LapCollected(lists: seq<seq<nat>>, laps: seq<Walk>, w: Walk)
      requires CollectedLaps(lists, laps)
      ensures CollectedLaps(lists + [Collected(kind, w.log)], laps + [w])
    {
    }

    method LaterLaps(ghost done0: seq<Walk>)
      requires Valid() && |order| == lap + 1 && CollectedLaps(order, done0) && |g| > 0
      modifies `visited, `order, `lap
      ensures CollectedLaps(order, done0 + LapsFrom(g, 1, old(Marked(visited))))
    {
      ghost var laps := done0 + LapsFrom(g, 1, Marked(visited));
      ghost var done := done0;
      for i := 1 to |g|
        invariant Valid() && |order| == lap + 1
        invariant CollectedLaps(order, done)
        invariant laps == done + LapsFrom(g, i, Marked(visited))
      {
        LapsShift(g, i, Marked(visited), done);
        if !visited[i] {
          ghost var w := Visit(g, i, Marked(visited));
          LapCollected(order, done, w);
          Lap(i);
          done := done + [w];
        }
      }
      assert done + [] == done;
    }

    method GenFull(id: nat)
      requires id < |g|
      modifies this
      ensures |order| == |Laps(g, id)|
      ensures forall l :: 0 <= l < |order| ==>
                var list := Collected(kind, Laps(g, id)[l].log);
                order[l] == if reversed then Reverse(list) else list
    {
      WalkAll(id);
      Finish();
    }
  }

  /** The reachable nodes once each, the root first and every other node after a predecessor. */
  ghost predicate ReversePostorderOf(g: Graph, root: nat, order: seq<nat>) {
    && Distinct(order) && order != [] && order[0] == root
    && (forall v :: v in order <==> Reaches(g, root, v))
    && forall k :: 0 < k < |order| ==> exists j :: 0 <= j < k && Edge(g, order[j], order[k])
  }

  lemma ReversedPostorder(g: Graph, root: nat)
    requires root < |g|
    ensures ReversePostorderOf(g, root, Reverse(Collected(Postorder, Visit(g, root, {}).log)))
  {
    var post := Collected(Postorder, Visit(g, root, {}).log);
    OrderListsReachable(Postorder, g, root);
    ReverseElements(post);
    ReachesSelf(g, root);
    assert root in post;
    var _ := ParentFinishesLater(g, root, {}, 0);
    var order := Reverse(post);
    forall k | 0 < k < |order| ensures exists j :: 0 <= j < k && Edge(g, order[j], order[k]) {
      var j := ParentFinishesLater(g, root, {}, |post| - 1 - k);
      assert order[|post| - 1 - j] == post[j];
    }
  }

  /** `ReversePostorder::gen(root)`. */
  method ReversePostorder(g: Graph, root: nat) returns (order: seq<nat>)
    requires root < |g|
    ensures ReversePostorderOf(g, root, order)
  {
    var w := new NodeWalker(g, Postorder, true);
    w.Gen(root);
    order := w.order[0];
    ReversedPostorder(g, root);
  }

  /** `isReachable<Preorder>`. */
  method IsReachable(g: Graph, src: nat, dest: nat) returns (found: bool)
    requires src < |g|
    ensures found <==> Reaches(g, src, dest)
  {
    var w := new NodeWalker(g, Preorder, false);
    w.Gen(src);
    OrderListsReachable(Preorder, g, src);
    for i := 0 to |w.order[0]|
      invariant dest !in w.order[0][..i]
    {
      if w.order[0][i] == dest {
        return true;
      }
    }
    found := false;
  }
}
