/** The orders that `SccOrder::genFull` gives for three small graphs. */
module WalkedLoops {
  import opened Graphs
  import opened Dfs
  import opened NodeOrder
  import opened SccState
  import opened Scc

  /** Blocks 0 and 1 form a loop, and so do 1 and 2. */
  const TWO_LOOPS: Graph := [[1], [2, 0], [1]]

  /** Block 0 leads into a loop of blocks 1 and 2. */
  const LEAD_IN: Graph := [[1], [2], [1]]

  // ---- The finishing order of both ----

  lemma {:induction false} NoPosts(a: seq<Event>)
    requires forall i :: 0 <= i < |a| ==> !a[i].Post?
    ensures Collected(Postorder, a) == []
  {
    if a != [] {
      NoPosts(a[1..]);
    }
  }

  lemma PostCollected(a: seq<Event>, n: nat)
    ensures Collected(Postorder, a + [Post(n)]) == Collected(Postorder, a) + [n]
  {
    CollectedConcat(Postorder, a, [Post(n)]);
    assert Collected(Postorder, [Post(n)][1..]) == [];
  }

  lemma PostorderOfThree(a: seq<Event>, b: seq<Event>)
    requires forall i :: 0 <= i < |a| ==> !a[i].Post?
    requires forall i :: 0 <= i < |b| ==> !b[i].Post?
    ensures Collected(Postorder, a + [Post(2)] + b + [Post(1)] + [Post(0)]) == [2, 1, 0]
  {
    NoPosts(a);
    NoPosts(b);
    PostCollected(a, 2);
    var two := a + [Post(2)];
    CollectedConcat(Postorder, two, b);
    PostCollected(two + b, 1);
    PostCollected(two + b + [Post(1)], 0);
  }

  lemma VisitTwo(g: Graph)
    requires |g| == 3 && g[2] == [1]
    ensures Visit(g, 2, {0, 1}) == Walk({0, 1, 2}, [Pre(2), Late(2, 1), Post(2)])
  {
    assert {0, 1} + {2} == {0, 1, 2};
    assert VisitLinks(g, 2, 1, {0, 1, 2}) == Walk({0, 1, 2}, []);
    assert VisitLinks(g, 2, 0, {0, 1, 2}) == Walk({0, 1, 2}, [Late(2, 1)] + []);
  }

  /** The links of node 1 after the first lead to visited nodes. */
  lemma LateLinks(g: Graph) returns (late: seq<Event>)
    requires g == TWO_LOOPS || g == LEAD_IN
    ensures VisitLinks(g, 1, 1, {0, 1, 2}) == Walk({0, 1, 2}, late)
    ensures forall i :: 0 <= i < |late| ==> !late[i].Post?
  {
    late := VisitLinks(g, 1, 1, {0, 1, 2}).log;
    if g == TWO_LOOPS {
      assert VisitLinks(g, 1, 2, {0, 1, 2}) == Walk({0, 1, 2}, []);
    }
  }

  lemma VisitOne(g: Graph, late: seq<Event>)
    requires |g| == 3 && g[2] == [1] && g[1] != [] && g[1][0] == 2
    requires VisitLinks(g, 1, 1, {0, 1, 2}) == Walk({0, 1, 2}, late)
    ensures Visit(g, 1, {0})
         == Walk({0, 1, 2}, [Pre(1)] + ([Pre(2), Late(2, 1), Post(2)] + late) + [Post(1)])
  {
    VisitTwo(g);
    assert {0} + {1} == {0, 1};
  }

  lemma VisitZero(g: Graph, one: Walk)
    requires |g| == 3 && g[0] == [1] && one == Visit(g, 1, {0}) && one.seen == {0, 1, 2}
    ensures Visit(g, 0, {}) == Walk({0, 1, 2}, [Pre(0)] + one.log + [Post(0)])
  {
    assert VisitLinks(g, 0, 1, {0, 1, 2}) == Walk({0, 1, 2}, []);
    assert {} + {0} == {0};
    assert one.log + [] == one.log;
    assert VisitLinks(g, 0, 0, {0}) == Walk({0, 1, 2}, one.log);
  }

  lemma OneLap(g: Graph, w: Walk)
    requires |g| == 3 && w == Visit(g, 0, {}) && w.seen == {0, 1, 2}
    ensures Finished(Laps(g, 0)) == Collected(Postorder, w.log)
  {
    assert LapsFrom(g, 2, w.seen) == LapsFrom(g, 3, w.seen) == [];
    assert LapsFrom(g, 1, w.seen) == [];
    assert Laps(g, 0) == [] + [w];
    FinishedAppend([], w);
  }

  lemma Flatten(late: seq<Event>)
    ensures [Pre(0)] + ([Pre(1)] + ([Pre(2), Late(2, 1), Post(2)] + late) + [Post(1)]) + [Post(0)]
         == [Pre(0), Pre(1), Pre(2), Late(2, 1)] + [Post(2)] + late + [Post(1)] + [Post(0)]
  {
  }

  lemma FinishedThree(g: Graph)
    requires g == TWO_LOOPS || g == LEAD_IN
    ensures Finished(Laps(g, 0)) == [2, 1, 0]
  {
    var late := LateLinks(g);
    VisitOne(g, late);
    VisitZero(g, Visit(g, 1, {0}));
    var w := Visit(g, 0, {});
    Flatten(late);
    PostorderOfThree([Pre(0), Pre(1), Pre(2), Late(2, 1)], late);
    OneLap(g, w);
  }

  // ---- The lists ----

  /** Every list ascends. */
  lemma Ascends(g: Graph, order: seq<seq<nat>>, k: nat)
    requires (g == TWO_LOOPS || g == LEAD_IN) && FromEntry(g, order) && k < |order|
    ensures forall i, j :: 0 <= i < j < |order[k]| ==> order[k][i] < order[k][j]
  {
    FinishedThree(g);
    var finished, c := Finished(Laps(g, 0)), order[k];
    forall i, j | 0 <= i < j < |c| ensures c[i] < c[j] {
      assert Before(finished, c[j], c[i]);
    }
  }

  lemma ListIndex(order: seq<seq<nat>>, v: nat) returns (k: nat)
    requires Listed(order, v)
    ensures k < |order| && v in order[k]
  {
    k :| 0 <= k < |order| && v in order[k];
  }

  /** An ascending list of the numbers from `lo` up to `hi`. */
  lemma {:induction false} Interval(c: seq<nat>, lo: nat, hi: nat)
    requires lo <= hi && (forall v: nat :: v in c <==> lo <= v < hi)
    requires forall i, j :: 0 <= i < j < |c| ==> c[i] < c[j]
    ensures |c| == hi - lo && forall i :: 0 <= i < |c| ==> c[i] == lo + i
    decreases hi - lo
  {
    if c == [] {
      assert lo !in c;
    } else {
      assert c[0] in c && lo in c;
      var k :| 0 <= k < |c| && c[k] == lo;
      assert k == 0;
      forall v: nat ensures v in c[1..] <==> lo + 1 <= v < hi {
        assert v in c <==> v == c[0] || v in c[1..];
      }
      Interval(c[1..], lo + 1, hi);
    }
  }

  lemma TwoLoopsMutual(u: nat)
    requires u < 3
    ensures Mutual(TWO_LOOPS, u, 0) && Mutual(TWO_LOOPS, u, 1) && Mutual(TWO_LOOPS, u, 2)
  {
    var g := TWO_LOOPS;
    EdgeReaches(g, 0, 1);
    EdgeReaches(g, 1, 0);
    EdgeReaches(g, 1, 2);
    EdgeReaches(g, 2, 1);
    forall v: nat | v < 3 ensures Reaches(g, u, v) && Reaches(g, v, u) {
      assert Reaches(g, u, 1) && Reaches(g, 1, v) && Reaches(g, v, 1) && Reaches(g, 1, u) by {
        ReachesSelf(g, 1);
      }
      ReachesTransitive(g, u, 1, v);
      ReachesTransitive(g, v, 1, u);
    }
  }

  /** Two loops that share a node: one list, in ascending order. */
  lemma TwoLoopsOrder(order: seq<seq<nat>>)
    requires FromEntry(TWO_LOOPS, order)
    ensures order == [[0, 1, 2]]
  {
    var k := ListIndex(order, 0);
    forall i: nat | i < |order| ensures order[i] == [0, 1, 2] {
      var c := order[i];
      assert Component(TWO_LOOPS, c) && c[0] in c && Listed(order, c[0]);
      TwoLoopsMutual(c[0]);
      forall v: nat | v in c ensures v < 3 {
        assert Listed(order, v);
      }
      Ascends(TWO_LOOPS, order, i);
      Interval(c, 0, 3);
    }
    assert 0 in order[0] && 0 in order[|order| - 1];
  }

  lemma LeadInMutual()
    ensures Mutual(LEAD_IN, 1, 2) && !Mutual(LEAD_IN, 0, 1) && !Mutual(LEAD_IN, 0, 2)
  {
    var g := LEAD_IN;
    EdgeReaches(g, 1, 2);
    EdgeReaches(g, 2, 1);
    assert ClosedUnder(g, {1, 2});
    if Reaches(g, 1, 0) || Reaches(g, 2, 0) {
      ReachesStaysInside(g, {1, 2}, if Reaches(g, 1, 0) then 1 else 2, 0);
    }
  }

  /** A block that leads into a loop: its list, then that of the loop. */
  lemma LeadInOrder(order: seq<seq<nat>>)
    requires FromEntry(LEAD_IN, order)
    ensures order == [[0], [1, 2]]
  {
    LeadInMutual();
    forall i: nat | i < |order| ensures order[i] == if 0 in order[i] then [0] else [1, 2] {
      LeadInList(order, i);
    }
    var a := ListIndex(order, 0);
    var b := ListIndex(order, 1);
    assert Edge(LEAD_IN, 0, 1) && a < b;
    forall i: nat | i < |order| ensures (order[i] == [0] && i == a) || (order[i] == [1, 2] && i == b) {
      assert 0 in order[i] || 1 in order[i];
    }
    assert order[0] == [0] && order[1] == [1, 2] && order[|order| - 1] == [1, 2];
  }

  lemma LeadInMembers(order: seq<seq<nat>>, i: nat)
    requires FromEntry(LEAD_IN, order) && i < |order|
    ensures forall v: nat :: v in order[i] <==> if 0 in order[i] then 0 <= v < 1 else 1 <= v < 3
  {
    LeadInMutual();
    assert Component(LEAD_IN, order[i]) && order[i][0] in order[i];
    forall v: nat | v in order[i] ensures v < 3 {
      assert Listed(order, v);
    }
  }

  lemma LeadInList(order: seq<seq<nat>>, i: nat)
    requires FromEntry(LEAD_IN, order) && i < |order|
    ensures order[i] == if 0 in order[i] then [0] else [1, 2]
  {
    LeadInMembers(order, i);
    Ascends(LEAD_IN, order, i);
    if 0 in order[i] {
      Interval(order[i], 0, 1);
    } else {
      Interval(order[i], 1, 3);
    }
  }

  // ---- The node that is left out ----

  /** Node 0 has a link to node 1, where the walk starts, but nothing leads to node 0. */
  method ZeroIsLeftOut() returns (order: seq<seq<nat>>)
    ensures Topological([[1], []], order) && forall v: nat :: Listed(order, v) <==> v == 1
  {
    ghost var g: Graph := [[1], []];
    if Reaches(g, 1, 0) {
      assert ClosedUnder(g, {1});
      ReachesStaysInside(g, {1}, 1, 0);
    }
    order := SccOrderFull([[1], []], 1);
  }
}
