/** Memory locations as a register and an offset, and lists of who wrote them:
    `MemLocation`, `MemOriginList`, and the tree pattern of src/analysis/slicingmatch.h they use. */
module MemLocation {
  import opened SlicingTree
  import opened RefLists

  // ---- The pattern ----

  /** `TreePatternRecursiveBinary` for additions of captured constants to a captured register. What
      a failed branch has captured stays in the list. */
  function MatchSum(t: Tree, capture: seq<Tree>): (bool, seq<Tree>) {
    if t.Binary? && t.op == "+" then
      var (inner, capture1) := MatchSum(t.left, capture);
      var (base, capture2) := if inner then (true, capture1) else MatchRegister(t.left, capture1);
      if base then MatchConstant(t.right, capture2) else (false, capture2)
    else
      (false, capture)
  }

  function MatchRegister(t: Tree, capture: seq<Tree>): (bool, seq<Tree>) {
    if t.Physical? then (true, capture + [t]) else (false, capture)
  }

  function MatchConstant(t: Tree, capture: seq<Tree>): (bool, seq<Tree>) {
    if t.Constant? then (true, capture + [t]) else (false, capture)
  }

  /** A register plus one or more constants on the right. */
  predicate Additive(t: Tree) {
    t.Binary? && t.op == "+" && t.right.Constant? && (t.left.Physical? || Additive(t.left))
  }

  /** Its register, then its constants from left to right. */
  function Parts(t: Tree): (p: seq<Tree>)
    requires t.Physical? || Additive(t)
    ensures p != [] && p[0].Physical? && forall i :: 0 < i < |p| ==> p[i].Constant?
  {
    if t.Physical? then [t] else Parts(t.left) + [t.right]
  }

  /** The pattern matches exactly the additive trees, and then captures exactly their parts. */
  lemma {:induction false} MatchesAdditive(t: Tree, capture: seq<Tree>)
    ensures MatchSum(t, capture).0 <==> Additive(t)
    ensures Additive(t) ==> MatchSum(t, capture).1 == capture + Parts(t)
  {
    if t.Binary? && t.op == "+" {
      MatchesAdditive(t.left, capture);
      if !t.right.Constant? {
      } else if Additive(t.left) {
        assert capture + Parts(t.left) + [t.right] == capture + Parts(t);
      } else if t.left.Physical? {
        assert MatchSum(t.left, capture) == (false, capture);
        assert capture + [t.left] + [t.right] == capture + Parts(t);
      }
    }
  }

  /** A register to which the constants are added, one after the other. */
  ghost function WithConstants(reg: Tree, constants: seq<int>): Tree {
    if constants == [] then reg
    else Binary("+", WithConstants(reg, constants[..|constants| - 1]), Constant(constants[|constants| - 1]))
  }

  ghost function Total(constants: seq<int>): int {
    if constants == [] then 0 else Total(constants[..|constants| - 1]) + constants[|constants| - 1]
  }

  // ---- Locations ----

  datatype Location = Location(reg: Tree, offset: int)

  ghost function Sum(parts: seq<Tree>): int {
    if parts == [] then 0
    else Sum(parts[..|parts| - 1]) + (if parts[|parts| - 1].Constant? then parts[|parts| - 1].value else 0)
  }

  /** `extract`. */
  method Extract(t: Tree) returns (loc: Location)
    ensures Additive(t) ==> loc == Location(Parts(t)[0], Sum(Parts(t)))
    ensures !Additive(t) ==> loc == Location(t, 0)
  {
    var (matched, capture) := MatchSum(t, []);
    MatchesAdditive(t, []);
    if matched {
      assert capture == Parts(t);
      loc := FromCapture(capture);
    } else {
      loc := Location(t, 0);
    }
  }

  /** The loop in `extract`. */
  method FromCapture(capture: seq<Tree>) returns (loc: Location)
    requires capture != [] && capture[0].Physical? && forall i :: 0 < i < |capture| ==> capture[i].Constant?
    ensures loc == Location(capture[0], Sum(capture))
  {
    var reg, offset := capture[0], 0;
    for i := 0 to |capture|
      invariant reg == capture[0] && offset == Sum(capture[..i])
    {
      assert capture[..i + 1][..i] == capture[..i];
      if capture[i].Constant? {
        offset := offset + capture[i].value;
      } else if capture[i].Physical? {
        reg := capture[i];
      }
    }
    assert capture[..|capture|] == capture;
    loc := Location(reg, offset);
  }

  ghost function LocationOf(t: Tree): Location {
    if Additive(t) then Location(Parts(t)[0], Sum(Parts(t))) else Location(t, 0)
  }

  /** The location of a register with constants added to it. */
  lemma {:induction false} SumLocation(reg: Tree, constants: seq<int>)
    requires reg.Physical?
    ensures LocationOf(WithConstants(reg, constants)) == Location(reg, Total(constants))
    ensures constants != [] ==> Additive(WithConstants(reg, constants))
    decreases |constants|
  {
    if constants != [] {
      var init, last := constants[..|constants| - 1], constants[|constants| - 1];
      var inner := WithConstants(reg, init);
      SumLocation(reg, init);
      PartsNext(inner, last);
      if init == [] {
        assert Parts(inner) == [reg] && Parts(inner)[..0] == [];
      }
    }
  }

  lemma PartsNext(t: Tree, constant: int)
    requires t.Physical? || Additive(t)
    ensures var u := Binary("+", t, Constant(constant));
            Additive(u) && Parts(u)[0] == Parts(t)[0] && Sum(Parts(u)) == Sum(Parts(t)) + constant
  {
    var u := Binary("+", t, Constant(constant));
    assert Parts(u)[..|Parts(u)| - 1] == Parts(t);
  }

  /** Every tree that is not its own location is a register with constants added to it. */
  lemma {:induction false} AdditiveIsSum(t: Tree) returns (reg: Tree, constants: seq<int>)
    requires Additive(t)
    ensures reg.Physical? && constants != [] && t == WithConstants(reg, constants)
    decreases t
  {
    if t.left.Physical? {
      reg, constants := t.left, [t.right.value];
    } else {
      reg, constants := AdditiveIsSum(t.left);
      assert (constants + [t.right.value])[..|constants|] == constants;
      constants := constants + [t.right.value];
    }
  }

  /** `operator==` of `MemLocation`. */
  ghost predicate SameLocation(a: Tree, b: Tree) {
    Equal(LocationOf(a).reg, LocationOf(b).reg) && LocationOf(a).offset == LocationOf(b).offset
  }

  /** `+` means addition. */
  ghost predicate Adds(m: Meaning) {
    forall x: int, y: int :: m.binary("+", x, y) == x + y
  }

  lemma {:induction false} PartsValue(t: Tree, m: Meaning)
    requires Adds(m) && (t.Physical? || Additive(t))
    ensures Eval(t, m) == Eval(Parts(t)[0], m) + Sum(Parts(t))
  {
    if t.Physical? {
      assert Parts(t)[..0] == [];
    } else {
      PartsValue(t.left, m);
      assert Parts(t)[..|Parts(t)| - 1] == Parts(t.left);
    }
  }

  /** A location denotes the address that its tree computes. */
  lemma LocationDenotes(t: Tree, m: Meaning)
    requires Adds(m)
    ensures Eval(t, m) == Eval(LocationOf(t).reg, m) + LocationOf(t).offset
  {
    if Additive(t) {
      PartsValue(t, m);
    }
  }

  /** Equal locations are the same address. */
  lemma SameLocationSameAddress(a: Tree, b: Tree, m: Meaning)
    requires Adds(m) && SameLocation(a, b)
    requires OneWay(LocationOf(a).reg, true) == 0 && AllCommute(LocationOf(a).reg, m)
    ensures Eval(a, m) == Eval(b, m)
  {
    LocationDenotes(a, m);
    LocationDenotes(b, m);
    EqualSameValue(LocationOf(a).reg, LocationOf(b).reg, m, true);
  }

  /** The meaning in which register `r` holds `v` and all else is zero. */
  ghost function Only(r: nat, v: int): Meaning {
    Meaning(_ => 0, q => if q == r then v else 0, (_, _) => 0,
            (o, x, y) => if o == "+" then x + y else 0, (_, _) => 0, _ => 0)
  }

  /** For registers, alone or with constants added, locations are equal exactly when the addresses are the
      same whatever the registers hold. */
  lemma SameLocationExactly(a: Tree, b: Tree)
    requires (a.Physical? || Additive(a)) && (b.Physical? || Additive(b))
    ensures SameLocation(a, b) <==> forall m :: Adds(m) ==> Eval(a, m) == Eval(b, m)
  {
    var x, y := LocationOf(a), LocationOf(b);
    if SameLocation(a, b) {
      forall m | Adds(m) ensures Eval(a, m) == Eval(b, m) {
        SameLocationSameAddress(a, b, m);
      }
    } else {
      var m0, m1 := Only(x.reg.number, 0), Only(x.reg.number, 1);
      assert Adds(m0) && Adds(m1);
      LocationDenotes(a, m0);
      LocationDenotes(b, m0);
      LocationDenotes(a, m1);
      LocationDenotes(b, m1);
      assert Eval(a, m0) != Eval(b, m0) || Eval(a, m1) != Eval(b, m1);
    }
  }

  // ---- Who wrote a location ----

  datatype Origin = Origin(place: Tree, state: nat)

  /** The entries of a list that are not for the location of `place`. */
  ghost function Others(place: Tree, list: seq<Origin>): multiset<Origin> {
    if list == [] then multiset{} else Other(place, list[0]) + Others(place, list[1..])
  }

  ghost function Other(place: Tree, e: Origin): multiset<Origin> {
    if SameLocation(place, e.place) then multiset{} else multiset{e}
  }

  /** A backward scan has covered `list[i..]`: of what was there at first, the entries for other
      locations are left, and the new entry if one was found. */
  ghost predicate Scanned(place: Tree, entry: Origin, before: seq<Origin>, list: seq<Origin>, i: nat, found: bool) {
    && i <= |list| && i <= |before| && list[..i] == before[..i]
    && multiset(list[i..]) == Others(place, before[i..]) + (if found then multiset{entry} else multiset{})
  }

  /** The same, stated of every list equal to `list`, so that it is unfolded only where it is used. */
  ghost predicate Scan(place: Tree, entry: Origin, before: seq<Origin>, list: seq<Origin>, i: nat, found: bool) {
    i <= |list| && forall l: seq<Origin> :: l == list ==> Scanned(place, entry, before, l, i, found)
  }

  /** One more entry at the front of the covered part. */
  lemma ScanNext(place: Tree, entry: Origin, before: seq<Origin>, list: seq<Origin>, i: nat, found: bool)
    requires i > 0 && Scanned(place, entry, before, list, i, found)
    ensures list[i - 1] == before[i - 1] && list[..i - 1] == before[..i - 1]
    ensures Others(place, before[i - 1..]) == Other(place, list[i - 1]) + Others(place, before[i..])
  {
    assert list[i - 1] == list[..i][i - 1] && before[i - 1] == before[..i][i - 1];
    assert list[..i - 1] == list[..i][..i - 1] && before[..i - 1] == before[..i][..i - 1];
    assert before[i - 1..][1..] == before[i..];
  }

  lemma ScanStart(place: Tree, entry: Origin, list: seq<Origin>)
    ensures Scan(place, entry, list, list, |list|, false)
  {
    assert list[|list|..] == [];
  }

  lemma ScanDone(place: Tree, entry: Origin, before: seq<Origin>, list: seq<Origin>, found: bool)
    requires Scan(place, entry, before, list, 0, found)
    ensures multiset(if found then list else list + [entry]) == Others(place, before) + multiset{entry}
  {
    assert Scanned(place, entry, before, list, 0, found);
    assert list[0..] == list && before[0..] == before;
  }

  lemma TailCons(list: seq<Origin>, k: nat)
    requires k < |list|
    ensures multiset(list[k..]) == multiset{list[k]} + multiset(list[k + 1..])
  {
    assert list[k..] == [list[k]] + list[k + 1..];
  }

  lemma KeepSum(e: Origin, tail': multiset<Origin>, tail: multiset<Origin>, others': multiset<Origin>,
                others: multiset<Origin>, new_: multiset<Origin>)
    requires tail == others + new_ && tail' == multiset{e} + tail && others' == multiset{e} + others
    ensures tail' == others' + new_
  {
  }

  lemma ScanKeep(place: Tree, entry: Origin, before: seq<Origin>, list: seq<Origin>, i: nat, found: bool)
    requires i > 0 && Scan(place, entry, before, list, i, found) && !SameLocation(place, list[i - 1].place)
    ensures Scan(place, entry, before, list, i - 1, found)
  {
    assert Scanned(place, entry, before, list, i, found);
    ScanNext(place, entry, before, list, i, found);
    TailCons(list, i - 1);
    KeepSum(list[i - 1], multiset(list[i - 1..]), multiset(list[i..]), Others(place, before[i - 1..]),
            Others(place, before[i..]), if found then multiset{entry} else multiset{});
    assert Scanned(place, entry, before, list, i - 1, found);
  }

  /** The entry at `k` goes, and the new one is there behind it. */
  lemma ScanTo(place: Tree, entry: Origin, before: seq<Origin>, list: seq<Origin>, k: nat, found: bool,
               list': seq<Origin>)
    requires k < |list| && Scan(place, entry, before, list, k + 1, found) && SameLocation(place, list[k].place)
    requires k <= |list'| && list'[..k] == list[..k]
    requires multiset(list'[k..]) == multiset(list[k + 1..]) + (if found then multiset{} else multiset{entry})
    ensures Scan(place, entry, before, list', k, true)
  {
    assert Scanned(place, entry, before, list, k + 1, found);
    ScanNext(place, entry, before, list, k + 1, found);
    assert Others(place, before[k..]) == Others(place, before[k + 1..]);
  }

  lemma ScanReplace(place: Tree, entry: Origin, before: seq<Origin>, list: seq<Origin>, i: nat)
    requires i > 0 && Scan(place, entry, before, list, i, false) && SameLocation(place, list[i - 1].place)
    ensures Scan(place, entry, before, list[i - 1 := entry], i - 1, true)
  {
    var list' := list[i - 1 := entry];
    TailCons(list', i - 1);
    assert list'[i..] == list[i..] && list'[..i - 1] == list[..i - 1];
    ScanTo(place, entry, before, list, i - 1, false, list');
  }

  /** The last entry replaces the one at `i - 1`, which goes. */
  lemma ScanMove(place: Tree, entry: Origin, before: seq<Origin>, list: seq<Origin>, i: nat)
    requires i > 0 && Scan(place, entry, before, list, i, true) && SameLocation(place, list[i - 1].place)
    ensures i < |list| && Scan(place, entry, before, SwapOut(list, i - 1), i - 1, true)
  {
    EntryAhead(place, entry, before, list, i);
    SwapOutTail(list, i - 1);
    ScanTo(place, entry, before, list, i - 1, true, SwapOut(list, i - 1));
  }

  lemma EntryAhead(place: Tree, entry: Origin, before: seq<Origin>, list: seq<Origin>, i: nat)
    requires Scan(place, entry, before, list, i, true)
    ensures i < |list|
  {
    assert Scanned(place, entry, before, list, i, true);
    assert entry in multiset(list[i..]);
    assert entry in list[i..];
  }

  lemma SwapOutTail(list: seq<Origin>, k: nat)
    requires k + 1 < |list|
    ensures SwapOut(list, k)[..k] == list[..k]
    ensures multiset(SwapOut(list, k)[k..]) == multiset(list[k + 1..])
  {
    var last, middle := list[|list| - 1], list[k + 1..|list| - 1];
    assert SwapOut(list, k)[k..] == [last] + middle;
    assert list[k + 1..] == middle + [last];
    assert multiset([last] + middle) == multiset(middle + [last]);
  }

  /** `m1 == MemLocation(other)`. */
  method Matches(m1: Location, ghost place: Tree, other: Tree) returns (same: bool)
    requires m1 == LocationOf(place)
    ensures same <==> SameLocation(place, other)
  {
    var m2 := Extract(other);
    same := Equal(m1.reg, m2.reg) && m1.offset == m2.offset;
  }

  class MemOriginList {
    var list: seq<Origin>

    constructor ()
      ensures list == []
    {
      list := [];
    }

    /** Scans backward and deletes by moving the last entry. Exactly one entry for the location is
        left, with the new origin, and all other entries stay. */
    method Set(place: Tree, origin: nat)
      modifies this
      ensures multiset(list) == Others(place, old(list)) + multiset{Origin(place, origin)}
    {
      var found := false;
      var m1 := Extract(place);
      var i := |list|;
      ScanStart(place, Origin(place, origin), list);
      while i > 0
        invariant 0 <= i && Scan(place, Origin(place, origin), old(list), list, i, found)
      {
        found := SetOne(place, origin, m1, i - 1, found, old(list));
        i := i - 1;
      }
      ScanDone(place, Origin(place, origin), old(list), list, found);
      if !found {
        list := list + [Origin(place, origin)];
      }
    }

    /** The body of its loop, for the entry at `k`. */
    method SetOne(place: Tree, origin: nat, m1: Location, k: nat, found: bool, ghost before: seq<Origin>)
      returns (found': bool)
      requires m1 == LocationOf(place) && Scan(place, Origin(place, origin), before, list, k + 1, found)
      modifies this
      ensures Scan(place, Origin(place, origin), before, list, k, found')
    {
      var same := Matches(m1, place, list[k].place);
      found' := found || same;
      if !same {
        ScanKeep(place, Origin(place, origin), before, list, k + 1, found);
      } else if !found {
        ScanReplace(place, Origin(place, origin), before, list, k + 1);
        list := list[k := Origin(place, origin)];
      } else {
        ScanMove(place, Origin(place, origin), before, list, k + 1);
        list := SwapOut(list, k);
      }
    }

    /** Appends unless the same origin is there for the same location. */
    method Add(place: Tree, origin: nat)
      modifies this
      ensures (exists e :: e in old(list) && e.state == origin && SameLocation(place, e.place)) ==> list == old(list)
      ensures (forall e :: e in old(list) && e.state == origin ==> !SameLocation(place, e.place)) ==>
                list == old(list) + [Origin(place, origin)]
    {
      var m1 := Extract(place);
      for i := 0 to |list|
        invariant list == old(list)
        invariant forall e :: e in list[..i] && e.state == origin ==> !SameLocation(place, e.place)
      {
        if list[i].state == origin {
          var same := Matches(m1, place, list[i].place);
          if same {
            return;
          }
        }
      }
      assert list[..|list|] == list;
      list := list + [Origin(place, origin)];
    }
  }

  /** After `Set`, one entry is for the location and it has the new origin. */
  lemma OneEntry(place: Tree, origin: nat, before: seq<Origin>, after: seq<Origin>)
    requires multiset(after) == Others(place, before) + multiset{Origin(place, origin)}
    ensures Others(place, after) == Others(place, before)
    ensures forall e :: e in after && SameLocation(place, e.place) ==> e == Origin(place, origin)
    ensures Origin(place, origin) in after && multiset(after)[Origin(place, origin)] == 1
  {
    var entry := Origin(place, origin);
    EqualReflexive(LocationOf(place).reg);
    forall e ensures Others(place, after)[e] == Others(place, before)[e]
             ensures e in after && SameLocation(place, e.place) ==> e == entry
    {
      EntryCount(place, before, after, entry, e);
    }
    EntryCount(place, before, after, entry, entry);
  }

  lemma EntryCount(place: Tree, before: seq<Origin>, after: seq<Origin>, entry: Origin, e: Origin)
    requires multiset(after) == Others(place, before) + multiset{entry} && SameLocation(place, entry.place)
    ensures Others(place, after)[e] == Others(place, before)[e]
    ensures SameLocation(place, e.place) ==> multiset(after)[e] == if e == entry then 1 else 0
    ensures e in after <==> multiset(after)[e] > 0
  {
    OthersCount(place, before);
    OthersCount(place, after);
  }

  lemma {:induction false} OthersCount(place: Tree, list: seq<Origin>)
    ensures forall e :: Others(place, list)[e] == if SameLocation(place, e.place) then 0 else multiset(list)[e]
    decreases |list|
  {
    if list != [] {
      OthersCount(place, list[1..]);
      assert list == [list[0]] + list[1..];
    }
  }
}
