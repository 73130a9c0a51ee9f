/** Building the control flow graph of a function from the last instruction of each block (x86-64). */
module ControlFlow {
  import opened Graphs

  /** Where a link leads: nowhere known, to a block of the function, to an instruction in a block of
      the function, or to an instruction elsewhere. */
  datatype Target = Nowhere | ToBlock(block: nat) | ToInstruction(block: nat) | Outside

  /** A jump table entry: the address its link leads to, if it has one, and what is there. */
  datatype Entry = NoLink | Link(address: int, target: Target)

  datatype Last =
    | Jump(target: Target)                       // jmp
    | ConditionalJump(target: Target)
    | Call(returns_: bool)                       // callq
    | IndirectCall                               // callq through a register
    | IndirectJump(tables: seq<seq<Entry>>)      // all jump tables of an indirect jump
    | Return
    | Break
    | Other

  predicate TargetFits(t: Target, n: nat) {
    (t.ToBlock? || t.ToInstruction?) ==> t.block < n
  }

  /** Blocks named by links are blocks of the function. */
  predicate Fits(last: Last, n: nat) {
    match last
    case Jump(t) => TargetFits(t, n)
    case ConditionalJump(t) => TargetFits(t, n)
    case IndirectJump(tables) =>
      forall i, j :: 0 <= i < |tables| && 0 <= j < |tables[i]| && tables[i][j].Link? ==>
        TargetFits(tables[i][j].target, n)
    case _ => true
  }

  // ---- Where control goes ----

  /** What executing the last instruction of a block can come to: a jump into a block of the function,
      going on with what follows, or neither. */
  datatype Outcome = Enters(block: nat) | GoesOn | Leaves

  /** A jump through a link ends in the block it leads to, or leaves the function. */
  ghost predicate Lands(t: Target, o: Outcome) {
    match t
    case ToBlock(b) => o == Enters(b)
    case ToInstruction(b) => o == Enters(b)
    case Nowhere => o == Leaves
    case Outside => o == Leaves
  }

  /** The outcomes of each kind of instruction: a conditional jump is taken or not, a call comes back
      unless its function never returns, a jump through tables ends where the first entry for some
      address leads. */
  ghost predicate Possible(last: Last, o: Outcome) {
    match last
    case Jump(t) => Lands(t, o)
    case ConditionalJump(t) => Lands(t, o) || o == GoesOn
    case Call(returns_) => o == if returns_ then GoesOn else Leaves
    case IndirectCall => o == GoesOn
    case IndirectJump(tables) =>
      o == Leaves || (o.Enters? && exists k: nat :: k < |tables| && LeadsTo(tables[k], o.block))
    case Return => o == Leaves
    case Break => o == Leaves
    case Other => o == GoesOn
  }

  /** From block `id` of `n`, control can go to block `v`. */
  ghost predicate CanFollow(last: Last, id: nat, n: nat, v: nat) {
    Possible(last, Enters(v)) || (Possible(last, GoesOn) && v == id + 1 < n)
  }

  function JumpTargets(t: Target): seq<nat> {
    if t.ToBlock? || t.ToInstruction? then [t.block] else []
  }

  /** The blocks named by a jump table: those of the entries whose address has not occurred before. */
  function TableTargets(table: seq<Entry>): seq<nat> {
    if table == [] then []
    else
      var init, e := table[..|table| - 1], table[|table| - 1];
      TableTargets(init) +
      (if e.Link? && !e.target.Nowhere? && e.address !in Addresses(init) && e.target.ToInstruction?
       then [e.target.block] else [])
  }

  function Addresses(table: seq<Entry>): set<int> {
    set e | e in table && e.Link? && !e.target.Nowhere? :: e.address
  }

  function TablesTargets(tables: seq<seq<Entry>>): seq<nat> {
    if tables == [] then []
    else TablesTargets(tables[..|tables| - 1]) + TableTargets(tables[|tables| - 1])
  }

  /** The successors of block `id` of `n`, in the order in which they are added. */
  function Successors(last: Last, id: nat, n: nat): seq<nat> {
    var next := if id + 1 < n then [id + 1] else [];
    match last
    case Jump(t) => JumpTargets(t)
    case ConditionalJump(t) => JumpTargets(t) + next
    case Call(returns_) => if returns_ then next else []
    case IndirectCall => next
    case IndirectJump(tables) => TablesTargets(tables)
    case Return => []
    case Break => []
    case Other => next
  }

  /** Every link is recorded as often in one direction as in the other. */
  ghost predicate Paired(fwd: seq<seq<nat>>, bwd: seq<seq<nat>>) {
    && |fwd| == |bwd|
    && (forall u, v :: 0 <= u < |fwd| && 0 <= v < |fwd| ==> CountsAgree(fwd, bwd, u, v))
  }

  ghost predicate CountsAgree(fwd: seq<seq<nat>>, bwd: seq<seq<nat>>, u: nat, v: nat)
    requires u < |fwd| && v < |bwd|
  {
    multiset(fwd[u])[v] == multiset(bwd[v])[u]
  }

  ghost predicate Ascending(s: seq<nat>) {
    forall i, j :: 0 <= i < j < |s| ==> s[i] <= s[j]
  }

  lemma PairKeeps(fwd: seq<seq<nat>>, bwd: seq<seq<nat>>, id: nat, other: nat)
    requires Paired(fwd, bwd) && id < |fwd| && other < |fwd|
    ensures Paired(Grown(fwd, id, [other]), Grown(bwd, other, [id]))
  {
    forall u: nat, v: nat | u < |fwd| && v < |fwd|
      ensures CountsAgree(Grown(fwd, id, [other]), Grown(bwd, other, [id]), u, v)
    {
      assert CountsAgree(fwd, bwd, u, v);
    }
  }

  class ControlFlowGraph {
    var links: seq<seq<nat>>
    var reverseLinks: seq<seq<nat>>

    ghost predicate Valid(n: nat, id: nat)
      reads this
    {
      && |links| == |reverseLinks| == n
      && Closed(links) && Closed(reverseLinks) && Paired(links, reverseLinks)
      && (forall v :: 0 <= v < n ==> Ascending(reverseLinks[v]))
      && forall v, i :: 0 <= v < n && 0 <= i < |reverseLinks[v]| ==> reverseLinks[v][i] <= id
    }

    /** `addLink` on one end, `addReverseLink` on the other. */
    method AddEdge(id: nat, other: nat)
      requires Valid(|links|, id) && id < |links| && other < |links|
      modifies this
      ensures |links| == old(|links|) && Valid(|links|, id)
      ensures links == Grown(old(links), id, [other])
    {
      PairKeeps(links, reverseLinks, id, other);
      links := links[id := links[id] + [other]];
      reverseLinks := reverseLinks[other := reverseLinks[other] + [id]];
    }

    method AddTable(id: nat, table: seq<Entry>)
      requires Valid(|links|, id) && id < |links|
      requires forall j :: 0 <= j < |table| && table[j].Link? ==> TargetFits(table[j].target, |links|)
      modifies this
      ensures |links| == old(|links|) && Valid(|links|, id)
      ensures links == Grown(old(links), id, TableTargets(table))
    {
      ghost var l := links;
      var added: set<int> := {};
      GrownTwice(l, id, [], []);
      for j := 0 to |table|
        invariant |links| == |l| && Valid(|links|, id)
        invariant added == Addresses(table[..j])
        invariant links == Grown(l, id, TableTargets(table[..j]))
      {
        var e := table[j];
        assert table[..j + 1][..j] == table[..j] && table[..j + 1] == table[..j] + [e];
        assert TableTargets(table[..j]) + [] == TableTargets(table[..j]);
        if e.Link? && !e.target.Nowhere? {
          if e.address !in added {
            if e.target.ToInstruction? {
              GrownTwice(l, id, TableTargets(table[..j]), [e.target.block]);
              AddEdge(id, e.target.block);
            }
          }
          added := added + {e.address};
        }
      }
      assert table[..|table|] == table;
    }

    method AddTables(id: nat, tables: seq<seq<Entry>>)
      requires Valid(|links|, id) && id < |links| && Fits(IndirectJump(tables), |links|)
      modifies this
      ensures |links| == old(|links|) && Valid(|links|, id)
      ensures links == Grown(old(links), id, TablesTargets(tables))
    {
      ghost var l := links;
      GrownTwice(l, id, [], []);
      for i := 0 to |tables|
        invariant |links| == |l| && Valid(|links|, id)
        invariant links == Grown(l, id, TablesTargets(tables[..i]))
      {
        assert tables[..i + 1][..i] == tables[..i];
        GrownTwice(l, id, TablesTargets(tables[..i]), TableTargets(tables[i]));
        AddTable(id, tables[i]);
      }
      assert tables[..|tables|] == tables;
    }

    /** `construct(block)`. */
    method ConstructBlock(id: nat, last: Last)
      requires Valid(|links|, id) && id < |links| && Fits(last, |links|)
      modifies this
      ensures |links| == old(|links|) && Valid(|links|, id)
      ensures links == Grown(old(links), id, Successors(last, id, |links|))
    {
      ghost var l := links;
      GrownTwice(l, id, [], []);
      var fallThrough := false;
      match last {
        case Jump(t) => AddJump(id, t);
        case ConditionalJump(t) =>
          AddJump(id, t);
          fallThrough := true;
        case Call(returns_) => fallThrough := returns_;
        case IndirectCall => fallThrough := true;
        case IndirectJump(tables) => AddTables(id, tables);
        case Return =>
        case Break =>
        case Other => fallThrough := true;
      }
      ghost var jumps := if last.ConditionalJump? then JumpTargets(last.target) else [];
      GrownTwice(l, id, jumps, [id + 1]);
      assert jumps + [] == jumps && [] + [id + 1] == [id + 1];
      if fallThrough {
        if id + 1 < |links| {
          AddEdge(id, id + 1);
        }
      }
    }

    /** The link of a jump, if it leads to a block of the function. */
    method AddJump(id: nat, t: Target)
      requires Valid(|links|, id) && id < |links| && TargetFits(t, |links|)
      modifies this
      ensures |links| == old(|links|) && Valid(|links|, id)
      ensures links == Grown(old(links), id, JumpTargets(t))
    {
      GrownTwice(links, id, [], []);
      if t.ToBlock? || t.ToInstruction? {
        AddEdge(id, t.block);
      }
    }

    /** `construct(function)`: the graph has exactly the links that the last instructions call for,
        and each of them in both directions. */
    constructor (lasts: seq<Last>)
      requires forall b :: 0 <= b < |lasts| ==> Fits(lasts[b], |lasts|)
      ensures |links| == |reverseLinks| == |lasts| && Closed(links) && Closed(reverseLinks)
      ensures forall b :: 0 <= b < |lasts| ==> links[b] == Successors(lasts[b], b, |lasts|)
      ensures Paired(links, reverseLinks) && forall v :: 0 <= v < |lasts| ==> Ascending(reverseLinks[v])
    {
      links := seq(|lasts|, _ => []);
      reverseLinks := seq(|lasts|, _ => []);
      new;
      for b := 0 to |lasts|
        invariant |links| == |lasts| && Valid(|lasts|, b)
        invariant forall c :: 0 <= c < b ==> links[c] == Successors(lasts[c], c, |lasts|)
        invariant forall c :: b <= c < |lasts| ==> links[c] == []
      {
        ConstructBlock(b, lasts[b]);
        assert [] + Successors(lasts[b], b, |lasts|) == Successors(lasts[b], b, |lasts|);
      }
    }
  }

  /** Counted links in both directions mirror each other. */
  lemma PairedMirrors(fwd: Graph, bwd: Graph, u: nat, v: nat)
    requires Paired(fwd, bwd)
    ensures Edge(fwd, u, v) <==> Edge(bwd, v, u)
  {
    if u < |fwd| && v < |fwd| {
      assert CountsAgree(fwd, bwd, u, v);
      assert v in fwd[u] <==> v in multiset(fwd[u]);
      assert u in bwd[v] <==> u in multiset(bwd[v]);
    }
  }

  // ---- What the links mean ----

  /** Entry `i` is the first of its table to lead to its address, an instruction in block `v`. */
  ghost predicate FirstEntryTo(table: seq<Entry>, i: nat, v: nat) {
    && i < |table| && table[i].Link? && table[i].target == ToInstruction(v)
    && forall j :: 0 <= j < i && table[j].Link? && !table[j].target.Nowhere? ==> table[j].address != table[i].address
  }

  ghost predicate LeadsTo(table: seq<Entry>, v: nat) {
    exists i: nat :: FirstEntryTo(table, i, v)
  }

  lemma AddressesAre(table: seq<Entry>, a: int)
    ensures a in Addresses(table) <==>
            exists j :: 0 <= j < |table| && table[j].Link? && !table[j].target.Nowhere? && table[j].address == a
  {
    if j :| 0 <= j < |table| && table[j].Link? && !table[j].target.Nowhere? && table[j].address == a {
      assert table[j] in table;
    }
  }

  lemma {:induction false} TableLeadsTo(table: seq<Entry>, v: nat)
    ensures v in TableTargets(table) <==> LeadsTo(table, v)
    decreases |table|
  {
    if table != [] {
      var n := |table| - 1;
      var init := table[..n];
      TableLeadsTo(init, v);
      AddressesAre(init, if table[n].Link? then table[n].address else 0);
      forall i: nat | i < n ensures FirstEntryTo(table, i, v) <==> FirstEntryTo(init, i, v) {
        assert forall j :: 0 <= j <= i ==> init[j] == table[j];
      }
      if v in TableTargets(init) {
        var i: nat :| FirstEntryTo(init, i, v);
        assert FirstEntryTo(table, i, v);
      }
      assert forall j :: 0 <= j < n ==> init[j] == table[j];
      assert FirstEntryTo(table, n, v) <==>
             table[n].Link? && table[n].target == ToInstruction(v) && table[n].address !in Addresses(init);
    }
  }

  lemma {:induction false} TablesLeadTo(tables: seq<seq<Entry>>, v: nat)
    ensures v in TablesTargets(tables) <==> exists k: nat :: k < |tables| && LeadsTo(tables[k], v)
    decreases |tables|
  {
    if tables != [] {
      var n := |tables| - 1;
      var init := tables[..n];
      TablesLeadTo(init, v);
      TableLeadsTo(tables[n], v);
      if v in TablesTargets(init) {
        var k: nat :| k < n && LeadsTo(init[k], v);
        assert LeadsTo(tables[k], v);
      }
      assert forall k: nat :: k < n ==> init[k] == tables[k];
    }
  }

  /** The links of a block are exactly where control can go from it. */
  lemma SuccessorsAre(last: Last, id: nat, n: nat, v: nat)
    ensures v in Successors(last, id, n) <==> CanFollow(last, id, n, v)
  {
    if last.IndirectJump? {
      TablesLeadTo(last.tables, v);
    }
  }

  /** The graph of a function, by what its last instructions do. */
  ghost predicate FlowGraph(lasts: seq<Last>, g: Graph) {
    |g| == |lasts| && forall u: nat, v: nat :: u < |g| ==> (Edge(g, u, v) <==> CanFollow(lasts[u], u, |g|, v))
  }
}
