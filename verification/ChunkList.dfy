/** Lists of chunks with indexes that are built on demand, src/chunk/chunklist.h. */
module ChunkList {
  import opened Graphs
  import opened Options

  datatype Chunk = Chunk(address: nat, size: nat, name: string) {
    /** `Range::contains`. */
    predicate Contains(point: nat) {
      address <= point < address + size
    }

    /** `Range::overlaps`. */
    predicate Overlaps(other: Chunk) {
      !(other.address >= address + size || other.address + other.size <= address)
    }
  }

  // ---- Indexes ----

  /** Different chunks of the list have different keys. */
  ghost predicate InjectiveOn<K(!new)>(key: nat -> K, list: seq<nat>) {
    forall c: nat, d: nat :: c in list && d in list && key(c) == key(d) ==> c == d
  }

  /** The index finds exactly the chunks of the list, each by its key. */
  ghost predicate Matches<K(!new)>(key: nat -> K, list: seq<nat>, index: map<K, nat>) {
    && (forall c: nat :: c in list ==> key(c) in index && index[key(c)] == c)
    && (forall k: K :: k in index ==> index[k] in list && key(index[k]) == k)
  }

  function RemoveFirst(list: seq<nat>, c: nat): seq<nat> {
    if list == [] then [] else if list[0] == c then list[1..] else [list[0]] + RemoveFirst(list[1..], c)
  }

  /** `next` is `list` without the first `c`, which is at place `i`. */
  ghost predicate Erased(list: seq<nat>, c: nat, i: nat, next: seq<nat>) {
    i < |list| && list[i] == c && c !in list[..i] && next == list[..i] + list[i + 1..]
  }

  lemma {:induction false} RemoveFirstHas(list: seq<nat>, c: nat)
    ensures forall d: nat :: d != c ==> (d in RemoveFirst(list, c) <==> d in list)
    ensures c in RemoveFirst(list, c) ==> c in list
    decreases |list|
  {
    if list != [] {
      assert list == [list[0]] + list[1..];
      RemoveFirstHas(list[1..], c);
    }
  }

  lemma {:induction false} RemoveFirstDistinct(list: seq<nat>, c: nat)
    requires Distinct(list)
    ensures Distinct(RemoveFirst(list, c)) && c !in RemoveFirst(list, c)
    decreases |list|
  {
    if list != [] {
      assert list[0] !in list[1..];
      if list[0] != c {
        RemoveFirstDistinct(list[1..], c);
        RemoveFirstHas(list[1..], c);
        ConsDistinct(list[0], RemoveFirst(list[1..], c));
      }
    }
  }

  lemma ConsDistinct(x: nat, rest: seq<nat>)
    requires Distinct(rest) && x !in rest
    ensures Distinct([x] + rest)
  {
    var all := [x] + rest;
    forall i, j | 0 <= i < j < |all| ensures all[i] != all[j] {
      assert all[j] == rest[j - 1];
    }
  }

  /** Adding a chunk keeps the index right exactly when no other chunk has its key. */
  lemma AddKeepsIndex<K(!new)>(key: nat -> K, list: seq<nat>, index: map<K, nat>, c: nat)
    requires Matches(key, list, index)
    ensures Matches(key, list + [c], index[key(c) := c]) <==> forall d: nat :: d in list && key(d) == key(c) ==> d == c
  {
    var more, index' := list + [c], index[key(c) := c];
    if Matches(key, more, index') {
      forall d: nat | d in list && key(d) == key(c) ensures d == c {
        assert d in more;
      }
    }
  }

  /** Removing a chunk keeps the index right exactly when no remaining entry has its key. */
  lemma RemoveKeepsIndex<K(!new)>(key: nat -> K, list: seq<nat>, index: map<K, nat>, c: nat, rest: seq<nat>)
    requires Matches(key, list, index)
    requires (forall d: nat :: d != c ==> (d in rest <==> d in list)) && (c in rest ==> c in list)
    ensures Matches(key, rest, index - {key(c)}) <==> forall d: nat :: d in rest ==> key(d) != key(c)
  {
    var index' := index - {key(c)};
    if forall d: nat :: d in rest ==> key(d) != key(c) {
      forall k: K | k in index' ensures index'[k] in rest && key(index'[k]) == k {
        assert index[k] in list && index[k] != c;
      }
    }
  }

  /** What `createSpatial` and `createNamed` build: the last chunk with each key. */
  function Built<K(!new,==)>(key: nat -> K, list: seq<nat>): map<K, nat> {
    if list == [] then map[] else Built(key, list[..|list| - 1])[key(list[|list| - 1]) := list[|list| - 1]]
  }

  /** `c` is the last chunk of the list with key `k`. */
  ghost predicate LastWithKey<K(!new)>(key: nat -> K, list: seq<nat>, k: K, c: nat) {
    key(c) == k && exists i :: LastAt(key, list, c, i)
  }

  ghost predicate LastAt<K(!new)>(key: nat -> K, list: seq<nat>, c: nat, i: int) {
    0 <= i < |list| && list[i] == c && forall j :: i < j < |list| ==> key(list[j]) != key(c)
  }

  /** The index holds under each key exactly the last chunk with it. */
  ghost predicate HoldsLast<K(!new)>(key: nat -> K, list: seq<nat>, index: map<K, nat>) {
    forall k: K, c: nat :: k in index && index[k] == c <==> LastWithKey(key, list, k, c)
  }

  lemma LastAfter<K(!new)>(key: nat -> K, init: seq<nat>, d: nat, k: K, c: nat)
    ensures LastWithKey(key, init + [d], k, c) <==> if key(d) == k then c == d else LastWithKey(key, init, k, c)
  {
    var list := init + [d];
    if key(d) == k {
      assert LastAt(key, list, d, |init|);
      if LastWithKey(key, list, k, c) {
        var i :| LastAt(key, list, c, i);
        assert i == |init|;
      }
    } else {
      if LastWithKey(key, list, k, c) {
        var i :| LastAt(key, list, c, i);
        assert forall j :: i < j < |init| ==> init[j] == list[j];
        assert LastAt(key, init, c, i);
      }
      if LastWithKey(key, init, k, c) {
        var i :| LastAt(key, init, c, i);
        assert LastAt(key, list, c, i);
      }
    }
  }

  lemma {:induction false} BuiltHoldsLast<K(!new)>(key: nat -> K, list: seq<nat>)
    ensures HoldsLast(key, list, Built(key, list))
    decreases |list|
  {
    if list != [] {
      var n := |list| - 1;
      var init, d := list[..n], list[n];
      assert list == init + [d];
      BuiltHoldsLast(key, init);
      forall k: K, c: nat
        ensures k in Built(key, list) && Built(key, list)[k] == c <==> LastWithKey(key, list, k, c)
      {
        LastAfter(key, init, d, k, c);
      }
    }
  }

  method Build<K(!new,==)>(key: nat -> K, list: seq<nat>) returns (index: map<K, nat>)
    ensures index == Built(key, list) && HoldsLast(key, list, index)
    ensures Matches(key, list, index) <==> InjectiveOn(key, list)
  {
    index := map[];
    for i := 0 to |list|
      invariant index == Built(key, list[..i])
    {
      assert list[..i + 1][..i] == list[..i];
      index := index[key(list[i]) := list[i]];
    }
    assert list[..|list|] == list;
    BuiltHoldsLast(key, list);
    BuiltExactly(key, list);
  }

  /** An index built now is right exactly when no two chunks of the list share a key. */
  lemma {:induction false} BuiltExactly<K(!new)>(key: nat -> K, list: seq<nat>)
    ensures Matches(key, list, Built(key, list)) <==> InjectiveOn(key, list)
    decreases |list|
  {
    if list != [] {
      var n := |list| - 1;
      var init, c := list[..n], list[n];
      assert list == init + [c];
      if InjectiveOn(key, list) {
        assert InjectiveOn(key, init);
        BuiltExactly(key, init);
        AddKeepsIndex(key, init, Built(key, init), c);
      }
    }
  }

  // ---- The list and its indexes ----

  datatype State = State(children: seq<nat>, spatial: Option<map<nat, nat>>, named: Option<map<string, nat>>)

  datatype Op = Add(child: nat) | Remove(child: nat) | RemoveLast | GetSpatial | ClearSpatial | GetNamed | ClearNamed

  function AddressKey(info: nat -> Chunk): nat -> nat {
    (c: nat) => info(c).address
  }

  function NameKey(info: nat -> Chunk): nat -> string {
    (c: nat) => info(c).name
  }

  function With<K>(index: Option<map<K, nat>>, k: K, c: nat): Option<map<K, nat>> {
    if index.Some? then Some(index.value[k := c]) else None
  }

  function Without<K>(index: Option<map<K, nat>>, k: K): Option<map<K, nat>> {
    if index.Some? then Some(index.value - {k}) else None
  }

  function ListAfter(list: seq<nat>, op: Op): seq<nat> {
    match op
    case Add(c) => list + [c]
    case Remove(c) => RemoveFirst(list, c)
    case RemoveLast => if list == [] then list else list[..|list| - 1]
    case _ => list
  }

  /** One index after an operation. `gets` and `clears` say whether the operation is about this one. */
  function IndexAfter<K(!new,==)>(key: nat -> K, list: seq<nat>, index: Option<map<K, nat>>, op: Op, gets: bool,
                                  clears: bool)
    : Option<map<K, nat>>
  {
    if gets then (if index.Some? then index else Some(Built(key, list)))
    else if clears then None
    else
      match op
      case Add(c) => With(index, key(c), c)
      case Remove(c) => Without(index, key(c))
      case RemoveLast => if list == [] then index else Without(index, key(list[|list| - 1]))
      case _ => index
  }

  function After(info: nat -> Chunk, s: State, op: Op): State {
    State(ListAfter(s.children, op),
          IndexAfter(AddressKey(info), s.children, s.spatial, op, op.GetSpatial?, op.ClearSpatial?),
          IndexAfter(NameKey(info), s.children, s.named, op, op.GetNamed?, op.ClearNamed?))
  }

  class ChunkList {
    const info: nat -> Chunk
    var children: seq<nat>
    var spatial: Option<map<nat, nat>>
    var named: Option<map<string, nat>>

    function Now(): State
      reads this
    {
      State(children, spatial, named)
    }

    constructor (info: nat -> Chunk)
      ensures this.info == info && Now() == State([], None, None)
    {
      this.info := info;
      children, spatial, named := [], None, None;
    }

    method Add(child: nat)
      modifies this
      ensures Now() == After(info, old(Now()), Op.Add(child))
      ensures children == old(children) + [child]
    {
      children := children + [child];
      if spatial.Some? {
        spatial := Some(spatial.value[info(child).address := child]);
      }
      if named.Some? {
        named := Some(named.value[info(child).name := child]);
      }
    }

    /** The first place of `child`, or the length of the list. */
    method IndexOf(child: nat) returns (i: nat)
      ensures i <= |children| && child !in children[..i] && (i < |children| ==> children[i] == child)
    {
      i := 0;
      while i < |children|
        invariant i <= |children| && child !in children[..i]
      {
        if children[i] == child {
          return;
        }
        i := i + 1;
      }
    }

    method Remove(child: nat)
      modifies this
      ensures Now() == After(info, old(Now()), Op.Remove(child))
      ensures child !in old(children) ==> children == old(children)
      ensures child in old(children) ==> exists i: nat :: Erased(old(children), child, i, children)
    {
      var i := IndexOf(child);
      EraseFirst(children, child, i);
      if i < |children| {
        children := children[..i] + children[i + 1..];
        assert Erased(old(children), child, i, children);
      }
      Unindex(child);
    }

    method Unindex(child: nat)
      modifies this`spatial, this`named
      ensures spatial == Without(old(spatial), info(child).address) && named == Without(old(named), info(child).name)
    {
      if spatial.Some? {
        spatial := Some(spatial.value - {info(child).address});
      }
      if named.Some? {
        named := Some(named.value - {info(child).name});
      }
    }

    method RemoveLast()
      modifies this
      ensures Now() == After(info, old(Now()), Op.RemoveLast)
      ensures old(children) != [] ==> children == old(children)[..|old(children)| - 1]
      ensures old(children) == [] ==> Now() == old(Now())
    {
      if children != [] {
        var last := children[|children| - 1];
        children := children[..|children| - 1];
        Unindex(last);
      }
    }

    method GetSpatial()
      modifies this`spatial
      ensures Now() == After(info, old(Now()), Op.GetSpatial)
      ensures old(spatial).Some? ==> spatial == old(spatial)
      ensures old(spatial).None? ==> spatial.Some? && HoldsLast(AddressKey(info), children, spatial.value)
    {
      if spatial.None? {
        var index := Build(AddressKey(info), children);
        spatial := Some(index);
      }
    }

    method ClearSpatial()
      modifies this`spatial
      ensures Now() == After(info, old(Now()), Op.ClearSpatial)
    {
      spatial := None;
    }

    method ClearNamed()
      modifies this`named
      ensures Now() == After(info, old(Now()), Op.ClearNamed)
    {
      named := None;
    }

    method GetNamed()
      modifies this`named
      ensures Now() == After(info, old(Now()), Op.GetNamed)
      ensures old(named).Some? ==> named == old(named)
      ensures old(named).None? ==> named.Some? && HoldsLast(NameKey(info), children, named.value)
    {
      if named.None? {
        var index := Build(NameKey(info), children);
        named := Some(index);
      }
    }
  }

  lemma {:induction false} EraseFirst(list: seq<nat>, c: nat, i: nat)
    requires i <= |list| && c !in list[..i] && (i < |list| ==> list[i] == c)
    ensures RemoveFirst(list, c) == if i < |list| then list[..i] + list[i + 1..] else list
    decreases i
  {
    if i > 0 {
      assert list[..i][0] == list[0] && list[..i][1..] == list[1..][..i - 1];
      EraseFirst(list[1..], c, i - 1);
      Splice(list, i);
    }
  }

  lemma Splice(list: seq<nat>, i: nat)
    requires 0 < i <= |list|
    ensures [list[0]] + list[1..] == list
    ensures i < |list| ==> [list[0]] + (list[1..][..i - 1] + list[1..][i..]) == list[..i] + list[i + 1..]
  {
  }

  // ---- Runs ----

  /** An index is right if it matches the list, or does not exist. */
  ghost predicate Right<K(!new)>(key: nat -> K, list: seq<nat>, index: Option<map<K, nat>>) {
    index.Some? ==> Matches(key, list, index.value)
  }

  ghost predicate Shared<K(!new)>(key: nat -> K, list: seq<nat>, c: nat) {
    exists d: nat :: d in list && d != c && key(d) == key(c)
  }

  ghost predicate HasKey<K(!new)>(key: nat -> K, list: seq<nat>, k: K) {
    exists d: nat :: d in list && key(d) == k
  }

  /** The operations that leave an index wrong: adding a chunk with the key of another, removing one
      whose key a remaining entry has, and building the index while chunks share a key. */
  ghost predicate Spoils<K(!new)>(key: nat -> K, list: seq<nat>, index: Option<map<K, nat>>, op: Op, gets: bool,
                                  clears: bool)
  {
    if gets then index.None? && !InjectiveOn(key, list)
    else if clears || index.None? then false
    else
      match op
      case Add(c) => Shared(key, list, c)
      case Remove(c) => HasKey(key, ListAfter(list, op), key(c))
      case RemoveLast => list != [] && HasKey(key, ListAfter(list, op), key(list[|list| - 1]))
      case _ => false
  }

  /** Exactly these. */
  lemma StepKeepsIndex<K(!new)>(key: nat -> K, list: seq<nat>, index: Option<map<K, nat>>, op: Op, gets: bool,
                                clears: bool)
    requires Right(key, list, index) && (gets || clears ==> ListAfter(list, op) == list)
    ensures Right(key, ListAfter(list, op), IndexAfter(key, list, index, op, gets, clears)) <==>
            !Spoils(key, list, index, op, gets, clears)
  {
    if gets {
      BuiltExactly(key, list);
    } else if !clears && index.Some? {
      match op
      case Add(c) => AddKeepsIndex(key, list, index.value, c);
      case Remove(c) =>
        RemoveFirstHas(list, c);
        RemoveKeepsIndex(key, list, index.value, c, RemoveFirst(list, c));
      case RemoveLast =>
        if list != [] {
          var n := |list| - 1;
          assert list == list[..n] + [list[n]];
          RemoveKeepsIndex(key, list, index.value, list[n], list[..n]);
        }
      case _ =>
    }
  }

  /** Both indexes: each depends on its own key only. */
  lemma OperationKeepsIndexes(info: nat -> Chunk, s: State, op: Op)
    ensures Right(AddressKey(info), s.children, s.spatial) ==>
              (Right(AddressKey(info), After(info, s, op).children, After(info, s, op).spatial) <==>
               !Spoils(AddressKey(info), s.children, s.spatial, op, op.GetSpatial?, op.ClearSpatial?))
    ensures Right(NameKey(info), s.children, s.named) ==>
              (Right(NameKey(info), After(info, s, op).children, After(info, s, op).named) <==>
               !Spoils(NameKey(info), s.children, s.named, op, op.GetNamed?, op.ClearNamed?))
  {
    if Right(AddressKey(info), s.children, s.spatial) {
      StepKeepsIndex(AddressKey(info), s.children, s.spatial, op, op.GetSpatial?, op.ClearSpatial?);
    }
    if Right(NameKey(info), s.children, s.named) {
      StepKeepsIndex(NameKey(info), s.children, s.named, op, op.GetNamed?, op.ClearNamed?);
    }
  }

  /** The states of a run from the empty list. */
  ghost function States(info: nat -> Chunk, ops: seq<Op>): State {
    if ops == [] then State([], None, None) else After(info, States(info, ops[..|ops| - 1]), ops[|ops| - 1])
  }

  /** Chunks are added when none in the list has their key, and removed when they are in the list or
      none there has their key. */
  ghost predicate Careful<K(!new)>(key: nat -> K, list: seq<nat>, op: Op) {
    match op
    case Add(c) => !HasKey(key, list, key(c))
    case Remove(c) => c in list || !HasKey(key, list, key(c))
    case _ => true
  }

  ghost predicate CarefulRun<K(!new)>(key: nat -> K, info: nat -> Chunk, ops: seq<Op>) {
    forall i: nat :: i < |ops| ==> Careful(key, States(info, ops[..i]).children, ops[i])
  }

  lemma CarefulStep<K(!new)>(key: nat -> K, list: seq<nat>, index: Option<map<K, nat>>, op: Op, gets: bool,
                             clears: bool)
    requires Careful(key, list, op) && Distinct(list) && InjectiveOn(key, list)
    ensures Distinct(ListAfter(list, op)) && InjectiveOn(key, ListAfter(list, op))
    ensures !Spoils(key, list, index, op, gets, clears)
  {
    match op
    case Remove(c) =>
      RemoveFirstDistinct(list, c);
      RemoveFirstHas(list, c);
    case _ =>
  }

  lemma {:induction false} CarefulPrefix<K(!new)>(key: nat -> K, info: nat -> Chunk, ops: seq<Op>)
    requires CarefulRun(key, info, ops) && ops != []
    ensures CarefulRun(key, info, ops[..|ops| - 1])
    ensures Careful(key, States(info, ops[..|ops| - 1]).children, ops[|ops| - 1])
  {
    var n := |ops| - 1;
    forall i: nat | i < n ensures Careful(key, States(info, ops[..n][..i]).children, ops[..n][i]) {
      assert ops[..n][..i] == ops[..i];
    }
  }

  /** After every run that is careful about addresses, the spatial index matches the list. */
  lemma {:induction false} RunKeepsSpatial(info: nat -> Chunk, ops: seq<Op>)
    requires CarefulRun(AddressKey(info), info, ops)
    ensures var s := States(info, ops);
            Right(AddressKey(info), s.children, s.spatial) && Distinct(s.children) &&
              InjectiveOn(AddressKey(info), s.children)
    decreases |ops|
  {
    if ops != [] {
      var op, s := ops[|ops| - 1], States(info, ops[..|ops| - 1]);
      CarefulPrefix(AddressKey(info), info, ops);
      RunKeepsSpatial(info, ops[..|ops| - 1]);
      CarefulStep(AddressKey(info), s.children, s.spatial, op, op.GetSpatial?, op.ClearSpatial?);
      OperationKeepsIndexes(info, s, op);
    }
  }

  /** After every run that is careful about names, the named index matches the list. */
  lemma {:induction false} RunKeepsNamed(info: nat -> Chunk, ops: seq<Op>)
    requires CarefulRun(NameKey(info), info, ops)
    ensures var s := States(info, ops);
            Right(NameKey(info), s.children, s.named) && Distinct(s.children) && InjectiveOn(NameKey(info), s.children)
    decreases |ops|
  {
    if ops != [] {
      var op, s := ops[|ops| - 1], States(info, ops[..|ops| - 1]);
      CarefulPrefix(NameKey(info), info, ops);
      RunKeepsNamed(info, ops[..|ops| - 1]);
      CarefulStep(NameKey(info), s.children, s.named, op, op.GetNamed?, op.ClearNamed?);
      OperationKeepsIndexes(info, s, op);
    }
  }

  // ---- Runs that go wrong ----

  lemma FourSteps(info: nat -> Chunk, a: Op, b: Op, c: Op, d: Op)
    ensures States(info, [a, b, c, d])
         == After(info, After(info, After(info, After(info, State([], None, None), a), b), c), d)
  {
    assert [a, b, c, d][..3] == [a, b, c] && [a, b, c][..2] == [a, b] && [a, b][..1] == [a] && [a][..0] == [];
    assert States(info, []) == State([], None, None);
    assert States(info, [a]) == After(info, State([], None, None), a);
    assert States(info, [a, b]) == After(info, States(info, [a]), b);
    assert States(info, [a, b, c]) == After(info, States(info, [a, b]), c);
  }

  /** A chunk that was added twice and removed once is in the list, but no longer in the index. */
  lemma SecondEntryIsLost(info: nat -> Chunk, c: nat)
    ensures var s := States(info, [Add(c), Add(c), GetSpatial, Remove(c)]);
            s.children == [c] && s.spatial == Some(map[])
  {
    FourSteps(info, Add(c), Add(c), GetSpatial, Remove(c));
    var list := [c, c];
    assert [] + [c] + [c] == list;
    TwoBuilt(AddressKey(info), c, c);
    var index := Built(AddressKey(info), list);
    assert RemoveFirst(list, c) == list[1..] == [c];
    assert index - {info(c).address} == map[];
  }

  /** One of two chunks with the same name is removed, and the other cannot be found by name. */
  lemma NamesakeIsLost(info: nat -> Chunk, c: nat, d: nat)
    requires c != d && info(c).name == info(d).name
    ensures var s := States(info, [Add(c), Add(d), GetNamed, Remove(d)]);
            s.children == [c] && s.named == Some(map[])
  {
    FourSteps(info, Add(c), Add(d), GetNamed, Remove(d));
    var list := [c, d];
    assert [] + [c] + [d] == list;
    TwoBuilt(NameKey(info), c, d);
    var index := Built(NameKey(info), list);
    assert list[1..] == [d] && [d][1..] == [];
    assert RemoveFirst([d], d) == [];
    assert RemoveFirst(list, d) == [c];
    assert index - {info(d).name} == map[];
  }

  lemma TwoBuilt<K(!new)>(key: nat -> K, c: nat, d: nat)
    ensures Built(key, [c, d]) == map[key(c) := c][key(d) := d]
  {
    assert [c, d][..1] == [c] && [c][..0] == [];
    assert Built(key, [c]) == map[key(c) := c];
  }

  // ---- Finding by address ----

  /** The greatest key of the index that is not above `point`: what `upper_bound` and one step back give. */
  ghost predicate IsFloor(index: map<nat, nat>, point: nat, k: nat) {
    k in index && k <= point && forall j :: j in index && j <= point ==> j <= k
  }

  method Floor(index: map<nat, nat>, point: nat) returns (r: Option<nat>)
    ensures r.Some? ==> IsFloor(index, point, r.value)
    ensures r.None? ==> forall j :: j in index ==> j > point
  {
    r := None;
    var todo := index.Keys;
    while todo != {}
      invariant todo <= index.Keys
      invariant r.Some? ==> r.value in index && r.value <= point
      invariant r.Some? ==> forall j :: j in index && j !in todo && j <= point ==> j <= r.value
      invariant r.None? ==> forall j :: j in index && j !in todo ==> j > point
      decreases todo
    {
      var k :| k in todo;
      todo := todo - {k};
      if k <= point && (r.None? || r.value < k) {
        r := Some(k);
      }
    }
  }

  /** `findContaining`. */
  method FindContaining(info: nat -> Chunk, index: map<nat, nat>, point: nat, ghost list: seq<nat>)
    returns (r: Option<nat>)
    requires Matches(AddressKey(info), list, index)
    ensures forall c: nat :: r == Some(c) <==> LastBefore(info, list, point, c) && info(c).Contains(point)
    ensures NoneOverlap(info, list) ==> forall c: nat :: r == Some(c) <==> c in list && info(c).Contains(point)
  {
    var k := Floor(index, point);
    if k.None? {
      assert forall c: nat :: c in list ==> AddressKey(info)(c) in index;
      return None;
    }
    var c := index[k.value];
    FloorIsLast(info, list, index, point, k.value);
    r := if info(c).Contains(point) then Some(c) else None;
    if NoneOverlap(info, list) {
      ContainerIsLast(info, list, point);
    }
  }

  /** `c` starts last among the chunks that start at or before `point`. */
  ghost predicate LastBefore(info: nat -> Chunk, list: seq<nat>, point: nat, c: nat) {
    && c in list && info(c).address <= point
    && forall d: nat :: d in list && info(d).address <= point ==> info(d).address <= info(c).address
  }

  ghost predicate NoneOverlap(info: nat -> Chunk, list: seq<nat>) {
    forall c: nat, d: nat :: c in list && d in list && c != d ==> !info(c).Overlaps(info(d))
  }

  lemma FloorIsLast(info: nat -> Chunk, list: seq<nat>, index: map<nat, nat>, point: nat, k: nat)
    requires Matches(AddressKey(info), list, index) && IsFloor(index, point, k)
    ensures forall c: nat :: LastBefore(info, list, point, c) <==> c == index[k]
  {
    forall d: nat | d in list ensures info(d).address in index && index[info(d).address] == d {
      assert AddressKey(info)(d) == info(d).address;
    }
    assert AddressKey(info)(index[k]) == k;
  }

  /** Without overlaps, only the chunk that starts last can contain the point. */
  lemma ContainerIsLast(info: nat -> Chunk, list: seq<nat>, point: nat)
    requires NoneOverlap(info, list)
    ensures forall c: nat :: c in list && info(c).Contains(point) ==> LastBefore(info, list, point, c)
  {
    forall c: nat, d: nat | c in list && info(c).Contains(point) && d in list && info(d).address <= point
      ensures info(d).address <= info(c).address
    {
      assert c != d ==> !info(c).Overlaps(info(d));
    }
  }

  /** Chunks that are not empty overlap exactly when they have an address in common. */
  lemma OverlapIsCommonPoint(c: Chunk, d: Chunk)
    requires c.size > 0 && d.size > 0
    ensures c.Overlaps(d) <==> exists point: nat :: c.Contains(point) && d.Contains(point)
    ensures c.Overlaps(d) <==> d.Overlaps(c)
  {
    if c.Overlaps(d) {
      var point := if c.address < d.address then d.address else c.address;
      assert c.Contains(point) && d.Contains(point);
    }
  }

  /** An empty chunk inside another one hides it, and `Range::overlaps` calls that an overlap. */
  lemma EmptyChunkHides(info: nat -> Chunk, name: string)
    requires info(0) == Chunk(0, 10, name) && info(1) == Chunk(5, 0, name)
    ensures info(0).Overlaps(info(1)) && info(0).Contains(7)
    ensures forall c: nat :: LastBefore(info, [0, 1], 7, c) ==> !info(c).Contains(7)
  {
    assert LastBefore(info, [0, 1], 7, 1);
  }
}
