/** Use-def chains, src/analysis/usedef.cpp: the sweeps over the blocks of a function, the refs and
    uses they record, and the removal of a definition. */
module UseDef {
  import opened Graphs
  import opened Options
  import opened Flow
  import opened RefLists
  import opened Sweeps

  // ---- Refs and uses ----

  /** `d` is in the refs of `s` exactly when `s` is in the uses of `d`, and no list has duplicates. */
  ghost predicate Linked(refs: seq<RefMap>, uses: seq<RefMap>) {
    && |refs| == |uses|
    && (forall s :: 0 <= s < |refs| ==> NoDuplicates(refs[s]) && NoDuplicates(uses[s]))
    && (forall s: nat, r: nat, d: nat :: s < |refs| && Has(refs[s], r, d) ==> d < |refs|)
    && (forall s: nat, r: nat, d: nat :: s < |refs| && Has(uses[s], r, d) ==> d < |refs|)
    && (forall s: nat, r: nat, d: nat :: s < |refs| && d < |refs| ==> (Has(refs[s], r, d) <==> Has(uses[d], r, s)))
  }

  function Put(lists: seq<RefMap>, s: nat, r: nat, x: nat): seq<RefMap>
    requires s < |lists|
  {
    lists[s := Added(lists[s], r, x)]
  }

  /** One more member, in one list. */
  lemma PutHas(lists: seq<RefMap>, s: nat, r: nat, x: nat)
    requires s < |lists|
    ensures forall t: nat, q: nat, y: nat :: t < |lists| ==>
              (Has(Put(lists, s, r, x)[t], q, y) <==> Has(lists[t], q, y) || (t == s && q == r && y == x))
    ensures NoDuplicates(lists[s]) ==> NoDuplicates(Put(lists, s, r, x)[s])
  {
    AddedHas(lists[s], r, x);
  }

  lemma LinkKeeps(refs: seq<RefMap>, uses: seq<RefMap>, s: nat, r: nat, d: nat)
    requires Linked(refs, uses) && s < |refs| && d < |refs|
    ensures Linked(Put(refs, s, r, d), Put(uses, d, r, s))
  {
    PutHas(refs, s, r, d);
    PutHas(uses, d, r, s);
  }

  /** Incoming along one of the first `n` backward links. */
  ghost predicate IncomingFirst(bwd: Graph, exposed: seq<RefMap>, v: nat, n: nat, r: nat, d: nat)
    requires v < |bwd| && n <= |bwd[v]|
  {
    exists u :: u in bwd[v][..n] && Brings(bwd, exposed, u, v, r, d)
  }

  lemma IncomingNext(bwd: Graph, exposed: seq<RefMap>, v: nat, n: nat)
    requires v < |bwd| && n < |bwd[v]| && |exposed| == |bwd|
    ensures forall r: nat, d: nat :: IncomingFirst(bwd, exposed, v, n + 1, r, d) <==>
              IncomingFirst(bwd, exposed, v, n, r, d) || (bwd[v][n] != v && Has(exposed[bwd[v][n]], r, d))
  {
    var u := bwd[v][n];
    assert bwd[v][..n + 1] == bwd[v][..n] + [u];
    forall r: nat, d: nat
      ensures IncomingFirst(bwd, exposed, v, n + 1, r, d) <==>
              IncomingFirst(bwd, exposed, v, n, r, d) || (u != v && Has(exposed[u], r, d))
    {
      assert u != v && Has(exposed[u], r, d) <==> Brings(bwd, exposed, u, v, r, d);
    }
  }

  lemma IncomingAll(bwd: Graph, exposed: seq<RefMap>, v: nat)
    requires v < |bwd|
    ensures forall r: nat, d: nat :: IncomingFirst(bwd, exposed, v, |bwd[v]|, r, d) <==> Incoming(bwd, exposed, v, r, d)
  {
    assert bwd[v][..|bwd[v]|] == bwd[v];
  }

  // ---- The order of refs ----

  /** All uses by `s` are in block `v`. */
  ghost predicate OnlyIn(f: Function, s: nat, v: nat) {
    forall w: nat, i: nat :: w < |f.code| && i < |f.code[w]| && f.code[w][i].Use? && f.code[w][i].state == s ==> w == v
  }

  /** The list of `s` for `r` starts with exactly what arrives in the first sweep. */
  ghost predicate StartsWithFirst(f: Function, list: seq<nat>, s: nat, r: nat, v: nat)
    requires Placed(f)
  {
    exists n: nat :: n <= |list| && AreFirst(f, list[..n], s, r, v)
  }

  ghost predicate AreFirst(f: Function, list: seq<nat>, s: nat, r: nat, v: nat)
    requires Placed(f)
  {
    forall d: nat :: d in list <==> UsedInBlock(f, s, r, d, v, 1)
  }

  /** So it is for all states in the first `c` lists. */
  ghost predicate FirstSweepFirst(f: Function, refs: seq<RefMap>, c: nat)
    requires Placed(f)
  {
    forall s: nat, r: nat, v: nat :: s < |refs| && f.Listed(v) && f.comp[v] < c && OnlyIn(f, s, v) ==>
      StartsWithFirst(f, Get(refs[s], r), s, r, v)
  }

  lemma FirstSweepStays(f: Function, refs: seq<RefMap>, refs': seq<RefMap>, c: nat)
    requires Placed(f) && FirstSweepFirst(f, refs, c) && Extends(refs, refs')
    ensures FirstSweepFirst(f, refs', c)
  {
    forall s: nat, r: nat, v: nat | s < |refs| && f.Listed(v) && f.comp[v] < c && OnlyIn(f, s, v)
      ensures StartsWithFirst(f, Get(refs'[s], r), s, r, v)
    {
      var list, list' := Get(refs[s], r), Get(refs'[s], r);
      assert IsPrefix(list, list') && StartsWithFirst(f, list, s, r, v);
      var n: nat :| n <= |list| && AreFirst(f, list[..n], s, r, v);
      assert list'[..n] == list[..n];
    }
  }

  /** After the first sweep over list `c`. */
  lemma FirstSweepDone(f: Function, refs: seq<RefMap>, refs': seq<RefMap>, c: nat)
    requires Placed(f) && c < |f.order| && FirstSweepFirst(f, refs, c) && Extends(refs, refs')
    requires Refers(f, refs', Levels(f, c, 1, |f.order[c]|))
    ensures FirstSweepFirst(f, refs', c + 1)
  {
    FirstSweepStays(f, refs, refs', c);
    forall s: nat, r: nat, v: nat | s < |refs'| && f.Listed(v) && f.comp[v] == c && OnlyIn(f, s, v)
      ensures StartsWithFirst(f, Get(refs'[s], r), s, r, v)
    {
      var list := Get(refs'[s], r);
      forall d: nat ensures d in list <==> UsedInBlock(f, s, r, d, v, 1) {
        RecordedInOne(f, c, s, r, d, v);
        assert d in list <==> Has(refs'[s], r, d);
      }
      assert list[..|list|] == list;
    }
  }

  lemma RecordedInOne(f: Function, c: nat, s: nat, r: nat, d: nat, v: nat)
    requires Placed(f) && c < |f.order| && f.Listed(v) && f.comp[v] == c && OnlyIn(f, s, v)
    ensures Recorded(f, Levels(f, c, 1, |f.order[c]|), s, r, d) <==> UsedInBlock(f, s, r, d, v, 1)
  {
    var lv := Levels(f, c, 1, |f.order[c]|);
    assert IsAt(f, v, c, f.pos[v]);
    assert lv[v] == 1;
    if Recorded(f, lv, s, r, d) {
      var w: nat, j: nat :| w < |f.g| && UsesFrom(f, s, r, d, w, j, lv[w]);
      assert w == v;
    }
    if UsedInBlock(f, s, r, d, v, 1) {
      var j: nat :| UsesFrom(f, s, r, d, v, j, 1);
      assert UsesFrom(f, s, r, d, v, j, lv[v]);
    }
  }

  /** Lists only grow, and only at their end. */
  ghost predicate Extends(lists: seq<RefMap>, lists': seq<RefMap>) {
    |lists'| == |lists| && forall s: nat, r: nat :: s < |lists| ==> IsPrefix(Get(lists[s], r), Get(lists'[s], r))
  }

  ghost predicate IsPrefix(a: seq<nat>, b: seq<nat>) {
    a <= b
  }

  lemma ExtendsTransitive(a: seq<RefMap>, b: seq<RefMap>, c: seq<RefMap>)
    requires Extends(a, b) && Extends(b, c)
    ensures Extends(a, c)
  {
    forall s: nat, r: nat | s < |a| ensures IsPrefix(Get(a[s], r), Get(c[s], r)) {
      assert IsPrefix(Get(a[s], r), Get(b[s], r)) && IsPrefix(Get(b[s], r), Get(c[s], r));
    }
  }

  lemma PutExtends(lists: seq<RefMap>, s: nat, r: nat, x: nat)
    requires s < |lists|
    ensures Extends(lists, Put(lists, s, r, x))
  {
  }

  /** `state` refers to all in `list` as well. */
  ghost predicate RefersToAll(refs: seq<RefMap>, refs': seq<RefMap>, state: nat, reg: nat, list: seq<nat>) {
    && Extends(refs, refs')
    && forall s: nat, r: nat, d: nat :: s < |refs| ==>
         (Has(refs'[s], r, d) <==> Has(refs[s], r, d) || (s == state && r == reg && d in list))
  }

  lemma RefersToOneMore(refs: seq<RefMap>, refs': seq<RefMap>, state: nat, reg: nat, list: seq<nat>, i: nat)
    requires state < |refs| && i < |list| && RefersToAll(refs, refs', state, reg, list[..i])
    ensures RefersToAll(refs, Put(refs', state, reg, list[i]), state, reg, list[..i + 1])
  {
    PutHas(refs', state, reg, list[i]);
    PutExtends(refs', state, reg, list[i]);
    ExtendsTransitive(refs, refs', Put(refs', state, reg, list[i]));
    assert list[..i + 1] == list[..i] + [list[i]];
  }

  class UseDef {
    const bwd: Graph
    const code: seq<seq<Action>>
    var exposed: seq<RefMap>
    var refs: seq<RefMap>
    var uses: seq<RefMap>

    ghost predicate Valid()
      reads this
    {
      && |code| == |bwd| && |exposed| == |bwd| && Linked(refs, uses)
      && (forall v: nat, i: nat :: v < |code| && i < |code[v]| ==> code[v][i].state < |refs|)
      && (forall v: nat, r: nat, d: nat :: v < |exposed| && Has(exposed[v], r, d) ==> d < |refs|)
    }

    constructor (bwd: Graph, code: seq<seq<Action>>, states: nat)
      requires |code| == |bwd| && forall v: nat, i: nat :: v < |code| && i < |code[v]| ==> code[v][i].state < states
      ensures this.bwd == bwd && this.code == code && Valid() && |refs| == states
      ensures forall v :: 0 <= v < |exposed| ==> exposed[v] == map[]
      ensures forall s :: 0 <= s < |refs| ==> refs[s] == map[] && uses[s] == map[]
    {
      this.bwd := bwd;
      this.code := code;
      exposed := seq(|bwd|, v => map[]);
      refs := seq(states, s => map[]);
      uses := seq(states, s => map[]);
    }

    /** The working set becomes the union of what the predecessors expose. The node's own set is
        emptied first, so a link from the node to itself brings nothing. */
    method TransitionTo(v: nat)
      requires Valid() && v < |bwd|
      modifies this`exposed
      ensures Valid() && |exposed| == |old(exposed)|
      ensures forall u :: 0 <= u < |exposed| && u != v ==> exposed[u] == old(exposed)[u]
      ensures forall r: nat, d: nat :: Has(exposed[v], r, d) <==> Incoming(bwd, old(exposed), v, r, d)
    {
      exposed := exposed[v := map[]];
      for i := 0 to |bwd[v]|
        invariant Valid() && |exposed| == |old(exposed)|
        invariant forall u :: 0 <= u < |exposed| && u != v ==> exposed[u] == old(exposed)[u]
        invariant forall r: nat, d: nat :: Has(exposed[v], r, d) <==>
                    IncomingFirst(bwd, old(exposed), v, i, r, d)
      {
        var u := bwd[v][i];
        IncomingNext(bwd, old(exposed), v, i);
        var grown := AddAll(exposed[v], exposed[u]);
        exposed := exposed[v := grown];
      }
      IncomingAll(bwd, old(exposed), v);
    }

    /** `defReg`, on the working set of node `v`. */
    method DefReg(v: nat, state: nat, reg: nat)
      requires Valid() && v < |exposed| && state < |refs|
      modifies this`exposed
      ensures Valid() && exposed == old(exposed)[v := Replaced(old(exposed)[v], reg, state)]
    {
      ReplacedHas(exposed[v], reg, state);
      exposed := exposed[v := Replaced(exposed[v], reg, state)];
    }

    /** `useReg`: `state` refers to all that is in the working set of node `v`. */
    method UseReg(v: nat, state: nat, reg: nat)
      requires Valid() && v < |exposed| && state < |refs|
      modifies this`refs, this`uses
      ensures Valid() && RefersToAll(old(refs), refs, state, reg, Get(exposed[v], reg))
    {
      var list := Get(exposed[v], reg);
      for i := 0 to |list|
        invariant Valid() && RefersToAll(old(refs), refs, state, reg, list[..i])
      {
        assert Has(exposed[v], reg, list[i]);
        RefersToOneMore(old(refs), refs, state, reg, list, i);
        LinkKeeps(refs, uses, state, reg, list[i]);
        Link(state, reg, list[i]);
      }
      assert list[..|list|] == list;
    }

    /** `addRegRef` on the one side, `addRegUse` on the other. */
    method Link(state: nat, reg: nat, origin: nat)
      requires state < |refs| && origin < |uses|
      modifies this`refs, this`uses
      ensures refs == Put(old(refs), state, reg, origin) && uses == Put(old(uses), origin, reg, state)
    {
      var more := AddRef(refs[state], reg, origin);
      refs := refs[state := more];
      more := AddUse(uses[origin], reg, state);
      uses := uses[origin := more];
    }

    /** The actions of block `v`, in order. */
    method FillBlock(v: nat)
      requires Valid() && v < |exposed|
      modifies this`exposed, this`refs, this`uses
      ensures Valid() && |refs| == |old(refs)| && |exposed| == |old(exposed)|
      ensures forall u :: 0 <= u < |exposed| && u != v ==> exposed[u] == old(exposed)[u]
      ensures forall r: nat, d: nat :: Has(exposed[v], r, d) <==> InForce(code[v], |code[v]|, old(exposed)[v], r, d)
      ensures forall s: nat, r: nat, d: nat :: s < |refs| ==>
                (Has(refs[s], r, d) <==> Has(old(refs)[s], r, d) || Seen(code[v], old(exposed)[v], |code[v]|, s, r, d))
      ensures Extends(old(refs), refs)
    {
      ghost var m := exposed[v];
      for i := 0 to |code[v]|
        invariant Valid() && |refs| == |old(refs)| && |exposed| == |old(exposed)| && Extends(old(refs), refs)
        invariant forall u :: 0 <= u < |exposed| && u != v ==> exposed[u] == old(exposed)[u]
        invariant forall r: nat, d: nat :: Has(exposed[v], r, d) <==> InForce(code[v], i, m, r, d)
        invariant forall s: nat, r: nat, d: nat :: s < |refs| ==>
                    (Has(refs[s], r, d) <==> Has(old(refs)[s], r, d) || Seen(code[v], m, i, s, r, d))
      {
        SeenNext(code[v], m, i);
        match code[v][i] {
          case Use(s, r) =>
            ghost var was := refs;
            UseReg(v, s, r);
            ExtendsTransitive(old(refs), was, refs);
          case Def(s, r) =>
            ReplacedHas(exposed[v], r, s);
            DefReg(v, s, r);
        }
      }
    }

    /** One turn of the loop in `analyzeGraph`. */
    method VisitNode(v: nat)
      requires Valid() && v < |exposed|
      modifies this`exposed, this`refs, this`uses
      ensures Valid()
      ensures Visited(bwd, code[v], v, old(exposed), exposed)
      ensures RefsGrown(bwd, code[v], v, old(exposed), old(refs), refs) && Extends(old(refs), refs)
    {
      TransitionTo(v);
      ghost var m := exposed[v];
      FillBlock(v);
      forall s: nat, r: nat, d: nat
        ensures Seen(code[v], m, |code[v]|, s, r, d) <==> UsedIn(bwd, code[v], v, old(exposed), s, r, d)
      {
        SeenIsUsed(bwd, code[v], v, old(exposed), m, s, r, d);
      }
    }

    /** What `Analyze` has established when sweep `k` over list `c` has covered `i` blocks. */
    ghost predicate Swept(f: Function, c: nat, k: nat, i: nat)
      requires Placed(f) && k >= 1
      reads this
    {
      && Valid() && f.code == code && |f.g| == |bwd|
      && Exposes(f, exposed, Levels(f, c, k, i)) && Refers(f, refs, Levels(f, c, k, i))
    }

    /** `analyzeGraph`: one sweep over one list. */
    method AnalyzeGraph(order: seq<nat>, ghost f: Function, ghost c: nat, ghost k: nat)
      requires Placed(f) && Mirrored(f.g, bwd) && c < |f.order| && order == f.order[c] && 1 <= k <= 2
      requires Swept(f, c, k, 0)
      modifies this`exposed, this`refs, this`uses
      ensures Swept(f, c, k, |order|) && Extends(old(refs), refs)
    {
      for i := 0 to |order|
        invariant Swept(f, c, k, i) && Extends(old(refs), refs)
      {
        ghost var was := refs;
        VisitNext(order[i], f, c, k, i);
        ExtendsTransitive(old(refs), was, refs);
      }
    }

    method VisitNext(v: nat, ghost f: Function, ghost c: nat, ghost k: nat, ghost i: nat)
      requires Placed(f) && Mirrored(f.g, bwd) && c < |f.order| && i < |f.order[c]| && v == f.order[c][i] && 1 <= k <= 2
      requires Swept(f, c, k, i)
      modifies this`exposed, this`refs, this`uses
      ensures Swept(f, c, k, i + 1) && Extends(old(refs), refs)
    {
      NextLevels(f, c, k, i);
      VisitNode(v);
      VisitExposes(f, bwd, old(exposed), exposed, c, k, i);
      VisitRefers(f, bwd, old(exposed), old(refs), refs, c, k, i);
    }

    /** `analyze`: one sweep over each list, two if it has more than one block. */
    method Analyze(order: seq<seq<nat>>, ghost f: Function)
      requires Placed(f) && Mirrored(f.g, bwd) && order == f.order && f.code == code && Valid()
      requires forall v :: 0 <= v < |exposed| ==> exposed[v] == map[]
      requires forall s :: 0 <= s < |refs| ==> refs[s] == map[]
      modifies this`exposed, this`refs, this`uses
      ensures Swept(f, |order|, 1, 0) && |refs| == |old(refs)| && FirstSweepFirst(f, refs, |order|)
    {
      StartLevels(f, exposed, refs);
      for c := 0 to |order|
        invariant Swept(f, c, 1, 0) && |refs| == |old(refs)| && FirstSweepFirst(f, refs, c)
      {
        AnalyzeList(order[c], f, c);
      }
    }

    /** The body of its loop. */
    method AnalyzeList(order: seq<nat>, ghost f: Function, ghost c: nat)
      requires Placed(f) && Mirrored(f.g, bwd) && c < |f.order| && order == f.order[c] && Swept(f, c, 1, 0)
      requires FirstSweepFirst(f, refs, c)
      modifies this`exposed, this`refs, this`uses
      ensures Swept(f, c + 1, 1, 0) && |refs| == |old(refs)| && FirstSweepFirst(f, refs, c + 1)
    {
      AnalyzeGraph(order, f, c, 1);
      FirstSweepDone(f, old(refs), refs, c);
      ghost var once := refs;
      if |order| > 1 {
        SecondSweep(f, c);
        AnalyzeGraph(order, f, c, 2);
        NextList(f, c);
        FirstSweepStays(f, once, refs, c + 1);
      } else if |order| == 1 {
        AloneNextList(f, exposed, refs, c);
      } else {
        EmptyNextList(f, c);
      }
    }

    /** The inner loop of `cancelUseDefReg`: every listed user of the cancelled state now refers to `o`. */
    method Inherit(o: nat, reg: nat, users: seq<nat>)
      requires |refs| == |uses| && o < |refs| && (forall u: nat :: u in users ==> u < |refs|)
      requires forall s :: 0 <= s < |refs| ==> NoDuplicates(refs[s]) && NoDuplicates(uses[s])
      modifies this`refs, this`uses
      ensures |refs| == |uses| == |old(refs)|
      ensures forall s :: 0 <= s < |refs| ==> NoDuplicates(refs[s]) && NoDuplicates(uses[s])
      ensures forall s: nat, r: nat, d: nat :: s < |refs| ==>
                (Has(refs[s], r, d) <==> Has(old(refs)[s], r, d) || (r == reg && s in users && d == o))
      ensures forall d: nat, r: nat, s: nat :: d < |refs| ==>
                (Has(uses[d], r, s) <==> Has(old(uses)[d], r, s) || (r == reg && s in users && d == o))
    {
      for j := 0 to |users|
        invariant |refs| == |uses| == |old(refs)|
        invariant forall s :: 0 <= s < |refs| ==> NoDuplicates(refs[s]) && NoDuplicates(uses[s])
        invariant forall s: nat, r: nat, d: nat :: s < |refs| ==>
                    (Has(refs[s], r, d) <==> Has(old(refs)[s], r, d) || (r == reg && s in users[..j] && d == o))
        invariant forall d: nat, r: nat, s: nat :: d < |refs| ==>
                    (Has(uses[d], r, s) <==> Has(old(uses)[d], r, s) || (r == reg && s in users[..j] && d == o))
      {
        assert users[..j + 1] == users[..j] + [users[j]];
        assert users[j] in users;
        PutHas(refs, users[j], reg, o);
        PutHas(uses, o, reg, users[j]);
        Link(users[j], reg, o);
      }
      assert users[..|users|] == users;
    }

    /** `o->delRegUse(reg, state)`. */
    method Unuse(o: nat, reg: nat, state: nat)
      requires o < |uses| && NoDuplicates(uses[o])
      modifies this`uses
      ensures |uses| == |old(uses)| && NoDuplicates(uses[o])
      ensures forall d :: 0 <= d < |uses| && d != o ==> uses[d] == old(uses)[d]
      ensures forall r: nat, s: nat :: Has(uses[o], r, s) <==> Has(old(uses)[o], r, s) && !(r == reg && s == state)
    {
      var rest := DelUse(uses[o], reg, state);
      uses := uses[o := rest];
    }

    /** `cancelUseDefReg`: the refs of `state` for the register go, and all that used its
        definition now refers to what it referred to. The uses keep up with the refs exactly when
        `state` does not use its own definition, or lists it first. */
    method CancelUseDefReg(state: nat, reg: nat)
      requires Valid() && state < |refs|
      modifies this`refs, this`uses
      ensures |refs| == |uses| == |old(refs)|
      ensures forall s: nat, r: nat, d: nat :: s < |refs| ==>
                (Has(refs[s], r, d) <==> Cancelled(old(refs), state, reg, s, r, d))
      ensures RelinkedUses(old(uses), uses, state, reg, Get(old(uses)[state], reg), Get(old(refs)[state], reg),
                           UpTo(Get(old(refs)[state], reg), state))
      ensures Linked(refs, uses) <==> !Has(old(refs)[state], reg, state) || old(refs)[state][reg][0] == state
    {
      var origins := Get(refs[state], reg);
      ghost var users := Get(uses[state], reg);
      OriginsAndUsers(refs, uses, state, reg);
      Relink(state, reg, origins, users);
      ghost var relinked := refs;
      RelinkedLinks(old(refs), old(uses), refs, uses, state, reg, origins, users);
      refs := refs[state := Drop(refs[state], reg)];
      RelinkedIsCancelled(old(refs), old(uses), relinked, refs, state, reg, origins, users);
    }

    /** The outer loop of `cancelUseDefReg`. */
    method Relink(state: nat, reg: nat, origins: seq<nat>, ghost users: seq<nat>)
      requires Linked(refs, uses) && state < |refs|
      requires origins == Get(refs[state], reg) && users == Get(uses[state], reg)
      modifies this`refs, this`uses
      ensures RelinkedRefs(old(refs), refs, reg, users, origins)
      ensures RelinkedUses(old(uses), uses, state, reg, users, origins, UpTo(origins, state))
    {
      OriginsAndUsers(refs, uses, state, reg);
      for i := 0 to |origins|
        invariant RelinkedRefs(old(refs), refs, reg, users, origins[..i])
        invariant RelinkedUses(old(uses), uses, state, reg, users, origins[..i], UpTo(origins, state))
      {
        assert origins[i] in origins;
        RelinkOne(state, reg, origins, i, users, old(refs), old(uses));
      }
      assert origins[..|origins|] == origins;
    }

    /** One turn of it, for `origins[i]`. */
    method RelinkOne(state: nat, reg: nat, origins: seq<nat>, i: nat, ghost users: seq<nat>, ghost refs0: seq<RefMap>,
                     ghost uses0: seq<RefMap>)
      requires i < |origins| && origins[i] < |refs0| && state < |refs0| && |uses0| == |refs0| && Distinct(origins)
      requires origins == Get(refs0[state], reg) && users == Get(uses0[state], reg)
      requires state in users <==> state in origins
      requires forall u: nat :: u in users ==> u < |refs0|
      requires RelinkedRefs(refs0, refs, reg, users, origins[..i])
      requires RelinkedUses(uses0, uses, state, reg, users, origins[..i], UpTo(origins, state))
      modifies this`refs, this`uses
      ensures RelinkedRefs(refs0, refs, reg, users, origins[..i + 1])
      ensures RelinkedUses(uses0, uses, state, reg, users, origins[..i + 1], UpTo(origins, state))
    {
      var o := origins[i];
      Unuse(o, reg, state);
      var current := Get(uses[state], reg);
      CurrentUsers(uses0, old(uses), uses, state, reg, users, origins, i);
      Inherit(o, reg, current);
      RelinkStep(uses0, old(uses), uses, state, reg, users, origins, i, current);
      RelinkRefsStep(refs0, old(refs), refs, state, reg, users, origins, i, current);
    }
  }

  /** The elements before the first `x`. */
  ghost function UpTo(list: seq<nat>, x: nat): (early: seq<nat>)
    ensures x !in early && early <= list
    ensures |early| < |list| ==> list[|early|] == x
  {
    if list == [] || list[0] == x then [] else [list[0]] + UpTo(list[1..], x)
  }

  /** The users refer to the origins dealt with so far. */
  ghost predicate RelinkedRefs(refs: seq<RefMap>, refs': seq<RefMap>, reg: nat, users: seq<nat>, done: seq<nat>) {
    && |refs'| == |refs|
    && (forall s :: 0 <= s < |refs| ==> NoDuplicates(refs'[s]))
    && forall s: nat, r: nat, d: nat :: s < |refs| ==>
         (Has(refs'[s], r, d) <==> Has(refs[s], r, d) || (r == reg && s in users && d in done))
  }

  /** Those origins are used by the users, and by `state` only if it uses its own definition and
      they come before that. */
  ghost predicate RelinkedUses(uses: seq<RefMap>, uses': seq<RefMap>, state: nat, reg: nat, users: seq<nat>,
                               done: seq<nat>, early: seq<nat>)
  {
    && |uses'| == |uses|
    && (forall s :: 0 <= s < |uses| ==> NoDuplicates(uses'[s]))
    && forall d: nat, r: nat, s: nat :: d < |uses| ==>
         (Has(uses'[d], r, s) <==>
          if r != reg || d !in done then Has(uses[d], r, s)
          else if s == state then state in users && d in early
          else Has(uses[d], r, s) || s in users)
  }

  lemma OriginsAndUsers(refs: seq<RefMap>, uses: seq<RefMap>, state: nat, reg: nat)
    requires Linked(refs, uses) && state < |refs|
    ensures forall d: nat :: d in Get(refs[state], reg) <==> Has(refs[state], reg, d)
    ensures forall s: nat :: s in Get(uses[state], reg) <==> Has(uses[state], reg, s)
    ensures forall d: nat :: d in Get(refs[state], reg) || d in Get(uses[state], reg) ==> d < |refs|
    ensures Distinct(Get(refs[state], reg))
    ensures state in Get(uses[state], reg) <==> state in Get(refs[state], reg)
  {
    forall d: nat | d in Get(refs[state], reg) || d in Get(uses[state], reg) ensures d < |refs| {
      assert Has(refs[state], reg, d) || Has(uses[state], reg, d);
    }
  }

  /** Whom the inner loop visits: the users as they were, but `state` only while its own definition
      has not been dealt with. */
  lemma CurrentUsers(uses: seq<RefMap>, uses0: seq<RefMap>, uses1: seq<RefMap>, state: nat, reg: nat, users: seq<nat>,
                     origins: seq<nat>, i: nat)
    requires state < |uses| && users == Get(uses[state], reg) && i < |origins| && Distinct(origins)
    requires state in users <==> state in origins
    requires RelinkedUses(uses, uses0, state, reg, users, origins[..i], UpTo(origins, state))
    requires |uses1| == |uses0| && (state != origins[i] ==> uses1[state] == uses0[state])
    requires state == origins[i] ==> forall s: nat :: Has(uses1[state], reg, s) <==>
               Has(uses0[state], reg, s) && s != state
    ensures forall s: nat :: s in Get(uses1[state], reg) <==>
              s in users && (s == state ==> origins[i] in UpTo(origins, state))
  {
    var early := UpTo(origins, state);
    EarlyIffUnseen(origins, state, i);
    forall s: nat ensures s in Get(uses1[state], reg) <==> s in users && (s == state ==> origins[i] in early) {
      assert s in Get(uses1[state], reg) <==> Has(uses1[state], reg, s);
      assert s in users <==> Has(uses[state], reg, s);
    }
  }

  lemma EarlyIffUnseen(origins: seq<nat>, state: nat, i: nat)
    requires i < |origins| && Distinct(origins)
    ensures origins[i] in UpTo(origins, state) <==> state !in origins[..i + 1]
  {
    var k := |UpTo(origins, state)|;
    if i < k {
      assert UpTo(origins, state)[i] == origins[i];
      assert origins[..i + 1] == UpTo(origins, state)[..i + 1];
    } else {
      assert origins[..i + 1][k] == state;
    }
  }

  lemma RelinkStep(uses: seq<RefMap>, uses0: seq<RefMap>, uses': seq<RefMap>, state: nat, reg: nat, users: seq<nat>,
                   origins: seq<nat>, i: nat, current: seq<nat>)
    requires i < |origins| && origins[i] < |uses| && Distinct(origins) && |uses'| == |uses|
    requires RelinkedUses(uses, uses0, state, reg, users, origins[..i], UpTo(origins, state))
    requires forall s: nat :: s in current <==> s in users && (s == state ==> origins[i] in UpTo(origins, state))
    requires forall s :: 0 <= s < |uses| ==> NoDuplicates(uses'[s])
    requires forall d: nat, r: nat, s: nat :: d < |uses| ==>
               (Has(uses'[d], r, s) <==>
                (Has(uses0[d], r, s) && !(d == origins[i] && r == reg && s == state)) ||
                  (r == reg && s in current && d == origins[i]))
    ensures RelinkedUses(uses, uses', state, reg, users, origins[..i + 1], UpTo(origins, state))
  {
    var o, early := origins[i], UpTo(origins, state);
    assert origins[..i + 1] == origins[..i] + [o];
    assert o !in origins[..i];
  }

  lemma RelinkRefsStep(refs: seq<RefMap>, refs0: seq<RefMap>, refs': seq<RefMap>, state: nat, reg: nat,
                       users: seq<nat>, origins: seq<nat>, i: nat, current: seq<nat>)
    requires state < |refs| && i < |origins|
    requires |refs'| == |refs| && forall s :: 0 <= s < |refs| ==> NoDuplicates(refs'[s])
    requires RelinkedRefs(refs, refs0, reg, users, origins[..i]) && origins == Get(refs[state], reg)
    requires forall s: nat :: s in current ==> s in users
    requires forall s: nat :: s in users && s != state ==> s in current
    requires forall s: nat, r: nat, d: nat :: s < |refs| ==>
               (Has(refs'[s], r, d) <==> Has(refs0[s], r, d) || (r == reg && s in current && d == origins[i]))
    ensures RelinkedRefs(refs, refs', reg, users, origins[..i + 1])
  {
    assert origins[..i + 1] == origins[..i] + [origins[i]];
    assert Has(refs[state], reg, origins[i]);
  }

  lemma RelinkedIsCancelled(refs: seq<RefMap>, uses: seq<RefMap>, refs': seq<RefMap>, final: seq<RefMap>, state: nat,
                            reg: nat, origins: seq<nat>, users: seq<nat>)
    requires Linked(refs, uses) && state < |refs| && origins == Get(refs[state], reg) && users == Get(uses[state], reg)
    requires RelinkedRefs(refs, refs', reg, users, origins) && final == refs'[state := Drop(refs'[state], reg)]
    ensures forall s: nat, r: nat, d: nat :: s < |refs| ==>
              (Has(final[s], r, d) <==> Cancelled(refs, state, reg, s, r, d))
    ensures forall s :: 0 <= s < |refs| ==> NoDuplicates(final[s])
  {
    OriginsAndUsers(refs, uses, state, reg);
    DropHas(refs'[state], reg);
    forall s: nat, r: nat, d: nat | s < |refs| ensures Has(final[s], r, d) <==> Cancelled(refs, state, reg, s, r, d) {
      assert s in users <==> Has(refs[s], reg, state);
    }
  }

  lemma RelinkedLinks(refs: seq<RefMap>, uses: seq<RefMap>, refs': seq<RefMap>, uses': seq<RefMap>, state: nat,
                      reg: nat, origins: seq<nat>, users: seq<nat>)
    requires Linked(refs, uses) && state < |refs| && origins == Get(refs[state], reg) && users == Get(uses[state], reg)
    requires RelinkedRefs(refs, refs', reg, users, origins)
    requires RelinkedUses(uses, uses', state, reg, users, origins, UpTo(origins, state))
    ensures Linked(refs'[state := Drop(refs'[state], reg)], uses') <==>
              !Has(refs[state], reg, state) || refs[state][reg][0] == state
  {
    var final, early := refs'[state := Drop(refs'[state], reg)], UpTo(origins, state);
    OriginsAndUsers(refs, uses, state, reg);
    RelinkedIsCancelled(refs, uses, refs', final, state, reg, origins, users);
    if state in users && origins[0] != state {
      assert origins[0] in origins && early[0] == origins[0];
      assert Has(uses'[origins[0]], reg, state) && !Has(final[state], reg, origins[0]);
    } else {
      assert state in users ==> early == [];
      LinksKept(refs, uses, final, uses', state, reg, origins, users);
    }
  }

  lemma LinksKept(refs: seq<RefMap>, uses: seq<RefMap>, final: seq<RefMap>, uses': seq<RefMap>, state: nat, reg: nat,
                  origins: seq<nat>, users: seq<nat>)
    requires Linked(refs, uses) && state < |refs| && origins == Get(refs[state], reg) && users == Get(uses[state], reg)
    requires |final| == |refs| && (forall s :: 0 <= s < |refs| ==> NoDuplicates(final[s]))
    requires forall s: nat, r: nat, d: nat :: s < |refs| ==>
               (Has(final[s], r, d) <==> Cancelled(refs, state, reg, s, r, d))
    requires RelinkedUses(uses, uses', state, reg, users, origins, if state in users then [] else UpTo(origins, state))
    ensures Linked(final, uses')
  {
    OriginsAndUsers(refs, uses, state, reg);
    forall s: nat, r: nat, d: nat | d < |refs| && s < |refs| ensures Has(uses'[d], r, s) <==> Has(final[s], r, d) {
      assert s in users <==> Has(refs[s], reg, state);
      assert d in origins <==> Has(refs[state], reg, d);
    }
  }

  function Drop(m: RefMap, reg: nat): RefMap {
    m - {reg}
  }

  lemma DropHas(m: RefMap, reg: nat)
    ensures forall r: nat, d: nat :: Has(Drop(m, reg), r, d) <==> r != reg && Has(m, r, d)
    ensures NoDuplicates(m) ==> NoDuplicates(Drop(m, reg))
  {
  }

  /** `s` refers to `d` once the definition of `reg` by `state` is cancelled. */
  ghost predicate Cancelled(refs: seq<RefMap>, state: nat, reg: nat, s: nat, r: nat, d: nat)
    requires s < |refs| && state < |refs|
  {
    || (Has(refs[s], r, d) && !(s == state && r == reg))
    || (r == reg && s != state && Has(refs[s], reg, state) && Has(refs[state], reg, d))
  }

  /** A use of `r` by `s` among the first `n` actions of a block sees `d`, when `m` enters the block. */
  ghost predicate Seen(code: seq<Action>, m: RefMap, n: nat, s: nat, r: nat, d: nat) {
    exists j: nat :: j < n && SeenAt(code, m, j, s, r, d)
  }

  ghost predicate SeenAt(code: seq<Action>, m: RefMap, j: nat, s: nat, r: nat, d: nat) {
    j < |code| && code[j] == Use(s, r) && InForce(code, j, m, r, d)
  }

  lemma SeenNext(code: seq<Action>, m: RefMap, n: nat)
    requires n < |code|
    ensures forall s: nat, r: nat, d: nat :: Seen(code, m, n + 1, s, r, d) <==>
              Seen(code, m, n, s, r, d) || SeenAt(code, m, n, s, r, d)
    ensures forall r: nat, d: nat :: InForce(code, n + 1, m, r, d) <==>
              if code[n].Def? && code[n].reg == r then d == code[n].state else InForce(code, n, m, r, d)
  {
    forall s: nat, r: nat, d: nat
      ensures Seen(code, m, n + 1, s, r, d) <==> Seen(code, m, n, s, r, d) || SeenAt(code, m, n, s, r, d)
    {
    }
    var n' := n + 1;
    forall r: nat, d: nat
      ensures InForce(code, n', m, r, d) <==>
              if code[n].Def? && code[n].reg == r then d == code[n].state else InForce(code, n, m, r, d)
    {
      assert LastDef(code, n', r) ==
             if code[n].Def? && code[n].reg == r then Some(code[n].state) else LastDef(code, n, r);
    }
  }

  lemma SeenIsUsed(bwd: Graph, code: seq<Action>, v: nat, before: seq<RefMap>, m: RefMap, s: nat, r: nat, d: nat)
    requires forall q: nat, x: nat :: Has(m, q, x) <==> Incoming(bwd, before, v, q, x)
    ensures Seen(code, m, |code|, s, r, d) <==> UsedIn(bwd, code, v, before, s, r, d)
  {
    forall j: nat ensures SeenAt(code, m, j, s, r, d) <==> UsedAt(bwd, code, v, before, s, r, d, j) {
    }
    if Seen(code, m, |code|, s, r, d) {
      var j: nat :| j < |code| && SeenAt(code, m, j, s, r, d);
      assert UsedAt(bwd, code, v, before, s, r, d, j);
    }
    if UsedIn(bwd, code, v, before, s, r, d) {
      var j: nat :| UsedAt(bwd, code, v, before, s, r, d, j);
      assert SeenAt(code, m, j, s, r, d);
    }
  }

  /** Adds all lists of one map to another. */
  method AddAll(m: RefMap, more: RefMap) returns (m': RefMap)
    ensures forall r: nat, d: nat :: Has(m', r, d) <==> Has(m, r, d) || Has(more, r, d)
    ensures NoDuplicates(m) ==> NoDuplicates(m')
  {
    m' := m;
    var todo := more.Keys;
    while todo != {}
      invariant todo <= more.Keys
      invariant forall r: nat, d: nat :: Has(m', r, d) <==> Has(m, r, d) || (r !in todo && Has(more, r, d))
      invariant NoDuplicates(m) ==> NoDuplicates(m')
      decreases todo
    {
      var reg :| reg in todo;
      m' := AddList(m', reg, more[reg]);
      todo := todo - {reg};
    }
  }

  method AddList(m: RefMap, reg: nat, list: seq<nat>) returns (m': RefMap)
    ensures forall r: nat, d: nat :: Has(m', r, d) <==> Has(m, r, d) || (r == reg && d in list)
    ensures NoDuplicates(m) ==> NoDuplicates(m')
  {
    m' := m;
    for i := 0 to |list|
      invariant forall r: nat, d: nat :: Has(m', r, d) <==> Has(m, r, d) || (r == reg && d in list[..i])
      invariant NoDuplicates(m) ==> NoDuplicates(m')
    {
      AddedHas(m', reg, list[i]);
      m' := AddRef(m', reg, list[i]);
      assert list[..i + 1] == list[..i] + [list[i]];
    }
    assert list[..|list|] == list;
  }
}
