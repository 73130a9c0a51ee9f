/** The per-register lists of src/analysis/usedef.cpp: `RefList`, `UseList`. */
module RefLists {
  import opened Graphs

  /** Register to list of states. */
  type RefMap = map<nat, seq<nat>>

  function Get(m: RefMap, reg: nat): seq<nat> {
    if reg in m then m[reg] else []
  }

  predicate Has(m: RefMap, reg: nat, x: nat) {
    reg in m && x in m[reg]
  }

  ghost predicate NoDuplicates(m: RefMap) {
    forall r :: r in m ==> Distinct(m[r])
  }

  function Added(m: RefMap, reg: nat, x: nat): RefMap {
    if Has(m, reg, x) then m else m[reg := Get(m, reg) + [x]]
  }

  /** `RefList::set`. */
  function Replaced(m: RefMap, reg: nat, x: nat): RefMap {
    m[reg := [x]]
  }

  lemma ReplacedHas(m: RefMap, reg: nat, x: nat)
    ensures forall r: nat, y: nat :: Has(Replaced(m, reg, x), r, y) <==> if r == reg then y == x else Has(m, r, y)
  {
  }

  /** Adding makes `x` a member, keeps all others and no list gets a duplicate. */
  lemma AddedHas(m: RefMap, reg: nat, x: nat)
    ensures forall r, y :: Has(Added(m, reg, x), r, y) <==> Has(m, r, y) || (r == reg && y == x)
    ensures NoDuplicates(m) ==> NoDuplicates(Added(m, reg, x))
  {
  }

  method AddIfExist(m: RefMap, reg: nat, origin: nat) returns (m': RefMap, found: bool)
    ensures found <==> reg in m
    ensures m' == if found then Added(m, reg, origin) else m
  {
    found := false;
    m' := m;
    if reg in m {
      var duplicate := Contains(m[reg], origin);
      if !duplicate {
        m' := m[reg := m[reg] + [origin]];
      }
      found := true;
    }
  }

  method Contains(list: seq<nat>, x: nat) returns (duplicate: bool)
    ensures duplicate <==> x in list
  {
    duplicate := false;
    for i := 0 to |list|
      invariant x !in list[..i]
    {
      if list[i] == x {
        return true;
      }
    }
    assert list[..|list|] == list;
  }

  /** `RefList::add`. */
  method AddRef(m: RefMap, reg: nat, origin: nat) returns (m': RefMap)
    ensures m' == Added(m, reg, origin)
  {
    var exist;
    m', exist := AddIfExist(m, reg, origin);
    if !exist {
      m' := m[reg := [origin]];
      assert [] + [origin] == [origin];
    }
  }

  /** `UseList::add`. */
  method AddUse(m: RefMap, reg: nat, state: nat) returns (m': RefMap)
    ensures m' == Added(m, reg, state)
  {
    var duplicate := false;
    if reg in m {
      duplicate := Contains(m[reg], state);
    }
    m' := m;
    if !duplicate {
      m' := m[reg := Get(m, reg) + [state]];
    }
  }

  /** `list` without its element at `k`, which the last one replaces. */
  function SwapOut<T>(list: seq<T>, k: nat): seq<T>
    requires k < |list|
  {
    list[k := list[|list| - 1]][..|list| - 1]
  }

  /** The loop in `UseList::del` from slot `i` on. It runs to the end that the list had at the start,
      so it also looks at slots that removals have freed. */
  function SweepFrom(slots: seq<nat>, size: nat, i: nat, state: nat): seq<nat>
    requires i <= |slots| && |slots| - i <= size <= |slots|
    decreases |slots| - i
  {
    if i == |slots| then slots[..size]
    else if slots[i] == state then SweepFrom(slots[i := slots[size - 1]], size - 1, i + 1, state)
    else SweepFrom(slots, size, i + 1, state)
  }

  method RemoveState(list: seq<nat>, state: nat) returns (rest: seq<nat>)
    ensures rest == SweepFrom(list, |list|, 0, state)
  {
    var slots, size := list, |list|;
    var i := 0;
    while i < |list|
      invariant i <= |list| && |slots| == |list| && |list| - i <= size <= |list|
      invariant SweepFrom(slots, size, i, state) == SweepFrom(list, |list|, 0, state)
    {
      if slots[i] == state {
        slots := slots[i := slots[size - 1]];
        size := size - 1;
      }
      i := i + 1;
    }
    rest := slots[..size];
  }

  /** `x` is in the list at most once. */
  ghost predicate Once(list: seq<nat>, x: nat) {
    forall i, j :: 0 <= i < j < |list| ==> list[i] != x || list[j] != x
  }

  lemma {:induction false} SweptClean(slots: seq<nat>, size: nat, i: nat, state: nat)
    requires i <= |slots| && |slots| - i <= size <= |slots|
    requires forall j :: i <= j < |slots| ==> slots[j] != state
    ensures SweepFrom(slots, size, i, state) == slots[..size]
    decreases |slots| - i
  {
    if i < |slots| {
      SweptClean(slots, size, i + 1, state);
    }
  }

  lemma {:induction false} SweptToFirst(slots: seq<nat>, size: nat, i: nat, k: nat, state: nat)
    requires i <= k <= |slots| && |slots| - i <= size <= |slots|
    requires forall j :: i <= j < k ==> slots[j] != state
    ensures SweepFrom(slots, size, i, state) == SweepFrom(slots, size, k, state)
    decreases k - i
  {
    if i < k {
      SweptToFirst(slots, size, i + 1, k, state);
    }
  }

  /** A state that is there at most once goes, the others stay. */
  lemma SweptRemoves(list: seq<nat>, state: nat)
    requires Once(list, state)
    ensures multiset(SweepFrom(list, |list|, 0, state)) == multiset(list) - multiset{state}
  {
    if state in list {
      var k :| 0 <= k < |list| && list[k] == state;
      SweptToFirst(list, |list|, 0, k, state);
      SweptClean(list[k := list[|list| - 1]], |list| - 1, k + 1, state);
      SwapOutCounts(list, k);
    } else {
      SweptClean(list, |list|, 0, state);
      assert list[..|list|] == list;
    }
  }

  lemma SwapOutCounts(list: seq<nat>, k: nat)
    requires k < |list|
    ensures multiset(SwapOut(list, k)) == multiset(list) - multiset{list[k]}
  {
    var n := |list| - 1;
    assert list == list[..n] + [list[n]];
    if k < n {
      assert SwapOut(list, k) == list[..n][k := list[n]];
    } else {
      assert SwapOut(list, k) == list[..n];
    }
  }

  // ---- Lists that hold the state several times ----

  function Times(list: seq<nat>, x: nat): (n: nat)
    ensures n <= |list|
  {
    if list == [] then 0 else Times(list[..|list| - 1], x) + (if list[|list| - 1] == x then 1 else 0)
  }

  lemma {:induction false} TimesSplit(list: seq<nat>, k: nat, x: nat)
    requires k <= |list|
    ensures Times(list, x) == Times(list[..k], x) + Times(list[k..], x)
    decreases |list|
  {
    var n := |list| - 1;
    if k <= n {
      TimesSplit(list[..n], k, x);
      assert list[..n][..k] == list[..k] && list[..n][k..] == list[k..][..n - k];
    } else {
      assert list[..k] == list;
    }
  }

  lemma {:induction false} TimesFull(list: seq<nat>, x: nat)
    ensures x !in list ==> Times(list, x) == 0
    ensures Times(list, x) == |list| ==> forall i :: 0 <= i < |list| ==> list[i] == x
    decreases |list|
  {
    if list != [] {
      TimesFull(list[..|list| - 1], x);
    }
  }

  lemma TimesNext(list: seq<nat>, i: nat, x: nat)
    requires i < |list|
    ensures Times(list[..i + 1], x) == Times(list[..i], x) + (if list[i] == x then 1 else 0)
    ensures Times(list[..i + 1], x) <= Times(list, x)
  {
    assert list[..i + 1][..i] == list[..i];
    TimesSplit(list, i + 1, x);
  }

  /** The place where `x` comes after `c` other times. */
  lemma {:induction false} PlaceOf(list: seq<nat>, x: nat, c: nat) returns (p: nat)
    requires c < Times(list, x)
    ensures p < |list| && list[p] == x && Times(list[..p], x) == c
    decreases |list|
  {
    var n := |list| - 1;
    if c < Times(list[..n], x) {
      p := PlaceOf(list[..n], x, c);
      assert list[..n][..p] == list[..p];
    } else {
      p := n;
    }
  }

  /** What ends up at place `p`: one of the last elements, where `state` was. */
  function Moved(list: seq<nat>, state: nat, p: nat): nat
    requires p < |list|
  {
    if list[p] != state then list[p] else list[|list| - 1 - Times(list[..p], state)]
  }

  lemma {:induction false} SweepMoves(list: seq<nat>, slots: seq<nat>, i: nat, state: nat)
    requires i <= |list| && |slots| == |list| && forall p :: i <= p < |list| ==> slots[p] == list[p]
    requires forall p: nat :: p < i && p < |list| - Times(list, state) ==> slots[p] == Moved(list, state, p)
    ensures var rest := SweepFrom(slots, |list| - Times(list[..i], state), i, state);
            && |rest| == |list| - Times(list, state)
            && forall p: nat :: p < |rest| ==> rest[p] == Moved(list, state, p)
    decreases |list| - i
  {
    if i < |list| {
      TimesNext(list, i, state);
      var last := |list| - 1 - Times(list[..i], state);
      SweepMoves(list, if list[i] == state then slots[i := slots[last]] else slots, i + 1, state);
    } else {
      assert list[..i] == list;
    }
  }

  /** What the loop leaves, for every list. */
  lemma SweptIsMoved(list: seq<nat>, state: nat)
    ensures var rest := SweepFrom(list, |list|, 0, state);
            && |rest| == |list| - Times(list, state)
            && forall p: nat :: p < |rest| ==> rest[p] == Moved(list, state, p)
  {
    SweepMoves(list, list, 0, state);
  }

  /** The elements that are moved to the places of `state` are the last ones, as many as there are
      places before the end of the new list. */
  ghost function MovedPart(list: seq<nat>, state: nat): seq<nat> {
    list[|list| - Times(list[..|list| - Times(list, state)], state)..]
  }

  ghost predicate RemovesExactly(list: seq<nat>, state: nat) {
    forall y: nat :: y in SweepFrom(list, |list|, 0, state) <==> y in list && y != state
  }

  /** The loop removes exactly `state` if and only if none of the elements that it moves is `state`. */
  lemma SweptExactly(list: seq<nat>, state: nat)
    ensures RemovesExactly(list, state) <==> state !in MovedPart(list, state)
  {
    var n, m := |list|, Times(list, state);
    var k := Times(list[..n - m], state);
    SweptIsMoved(list, state);
    var rest := SweepFrom(list, n, 0, state);
    TimesSplit(list, n - m, state);
    if state in MovedPart(list, state) {
      var part := MovedPart(list, state);
      var q :| 0 <= q < |part| && part[q] == state;
      MovedFrom(list, state, n - k + q, rest);
    } else {
      forall y: nat ensures y in rest <==> y in list && y != state {
        CleanMove(list, state, rest, y);
      }
    }
  }

  /** Each of the last elements is moved to some place. */
  lemma MovedFrom(list: seq<nat>, state: nat, q: nat, rest: seq<nat>)
    requires |rest| == |list| - Times(list, state) && forall p: nat :: p < |rest| ==> rest[p] == Moved(list, state, p)
    requires |list| - Times(list[..|rest|], state) <= q < |list|
    ensures list[q] in rest
  {
    var p := PlaceOf(list[..|rest|], state, |list| - 1 - q);
    assert list[..|rest|][..p] == list[..p];
    assert rest[p] == list[q];
  }

  lemma CleanMove(list: seq<nat>, state: nat, rest: seq<nat>, y: nat)
    requires |rest| == |list| - Times(list, state) && forall p: nat :: p < |rest| ==> rest[p] == Moved(list, state, p)
    requires state !in list[|list| - Times(list[..|rest|], state)..]
    ensures y in rest <==> y in list && y != state
  {
    var n, k := |list|, Times(list[..|rest|], state);
    if y in rest {
      var p: nat :| p < |rest| && rest[p] == y;
      TimesNext(list[..|rest|], p, state);
      assert list[..|rest|][..p] == list[..p];
      assert list[p] == state ==> y == list[n - k..][k - 1 - Times(list[..p], state)];
    }
    if y in list && y != state {
      var q: nat :| q < n && list[q] == y;
      if q < |rest| {
        assert rest[q] == y;
      } else {
        TailFirst(list, state, |rest|, k, q);
        MovedFrom(list, state, q, rest);
      }
    }
  }

  /** Behind the end of the new list, `state` comes first and then only others. */
  lemma TailFirst(list: seq<nat>, state: nat, size: nat, k: nat, q: nat)
    requires size == |list| - Times(list, state) && k == Times(list[..size], state) && size <= q < |list|
    requires state !in list[|list| - k..] && list[q] != state
    ensures |list| - k <= q
  {
    var n := |list|;
    TimesSplit(list, size, state);
    TimesSplit(list[size..], n - k - size, state);
    var middle := list[size..][..n - k - size];
    assert list[size..][n - k - size..] == list[n - k..];
    TimesFull(list[n - k..], state);
    TimesFull(middle, state);
    assert forall p :: 0 <= p < |middle| ==> middle[p] == list[size + p];
  }

  /** One that is there twice can stay, and another go in its stead. */
  lemma TwiceIsNotRemoved(x: nat, a: nat)
    requires x != a
    ensures SweepFrom([x, a, x], 3, 0, x) == [x]
  {
    var list := [x, a, x];
    assert list[0 := x] == list;
    assert SweepFrom(list, 3, 0, x) == SweepFrom(list, 2, 1, x) == SweepFrom(list, 2, 2, x);
    var moved := list[2 := a];
    assert SweepFrom(list, 2, 2, x) == SweepFrom(moved, 1, 3, x) == moved[..1];
  }

  lemma DistinctOnce(list: seq<nat>, rest: seq<nat>, state: nat)
    requires Distinct(list) && multiset(rest) == multiset(list) - multiset{state}
    ensures Distinct(rest) && forall y: nat :: y in rest <==> y in list && y != state
  {
    forall y: nat ensures multiset(rest)[y] <= 1 && (y in rest <==> y in list && y != state) {
      DistinctCounts(list, y);
      assert y in rest <==> y in multiset(rest);
      assert y in list <==> y in multiset(list);
    }
    DistinctByCount(rest);
  }

  /** `UseList::del`. Other registers keep their lists. */
  method DelUse(m: RefMap, reg: nat, state: nat) returns (m': RefMap)
    ensures m'.Keys == m.Keys && forall r :: r in m && r != reg ==> m'[r] == m[r]
    ensures Once(Get(m, reg), state) ==> multiset(Get(m', reg)) == multiset(Get(m, reg)) - multiset{state}
    ensures (forall y: nat :: Has(m', reg, y) <==> Has(m, reg, y) && y != state) <==>
            state !in MovedPart(Get(m, reg), state)
    ensures NoDuplicates(m) ==> NoDuplicates(m') && forall r: nat, y: nat ::
              Has(m', r, y) <==> Has(m, r, y) && !(r == reg && y == state)
  {
    m' := m;
    if reg in m {
      var rest := RemoveState(m[reg], state);
      m' := m[reg := rest];
      SweptExactly(m[reg], state);
      assert forall y: nat :: Has(m', reg, y) <==> y in rest;
      if Once(m[reg], state) {
        SweptRemoves(m[reg], state);
      }
      if Distinct(m[reg]) {
        DistinctOnce(m[reg], rest, state);
      }
    } else {
      assert multiset(Get(m, reg)) - multiset{state} == multiset{};
    }
  }
}
