/** What the handlers of src/analysis/reachingdef.cpp declare about an instruction (x86-64). */
module Footprints {
  const REGISTER_NUMBER := 16
  const SP := 4
  const FLAGS := REGISTER_NUMBER
  const MEMORY_REG := REGISTER_NUMBER + 1

  /** Registers, flags, and all of memory as one more location. */
  const LOCATIONS := MEMORY_REG + 1

  /** A call of `setRegRead` or `setRegWrite`. */
  datatype Access = Read(loc: nat) | Write(loc: nat)

  /** What a handler declares: a barrier, or these accesses in this order. */
  datatype Footprint = Barrier | Accesses(list: seq<Access>)

  predicate InRange(fp: Footprint) {
    fp.Accesses? ==> forall k :: 0 <= k < |fp.list| ==> fp.list[k].loc < LOCATIONS
  }

  predicate Reads(fp: Footprint, loc: nat) {
    fp.Accesses? && Read(loc) in fp.list
  }

  predicate Writes(fp: Footprint, loc: nat) {
    fp.Accesses? && Write(loc) in fp.list
  }

  predicate Touches(fp: Footprint, loc: nat) {
    Reads(fp, loc) || Writes(fp, loc)
  }

  /** Some location is declared as written more than once. */
  predicate WritesTwice(list: seq<Access>) {
    exists a, b :: 0 <= a < b < |list| && list[a].Write? && list[a] == list[b]
  }

  /** The later instruction must stay behind the earlier one: one of them writes a location that
      the other touches, the later one is a barrier, or the earlier one is and the later one
      touches anything. */
  ghost predicate Conflict(earlier: Footprint, later: Footprint) {
    || later.Barrier?
    || (earlier.Barrier? && later.list != [])
    || exists loc :: Clash(earlier, later, loc)
  }

  ghost predicate Clash(earlier: Footprint, later: Footprint, loc: nat) {
    (Writes(earlier, loc) && Touches(later, loc)) || (Touches(earlier, loc) && Writes(later, loc))
  }

  // ---- The handlers ----

  datatype Op = And | Add | Cmp | Lea | Mov | Movabs | Movsxd | Movzx | Push | Pop | Sub | Xor | Unhandled

  datatype Base = NoBase | Rip | Base(reg: nat)

  datatype Memory = Memory(index: seq<nat>, base: Base)  // at most one index register

  datatype Operands =
    | ImmReg(dst: nat)
    | RegReg(src: nat, dst: nat)
    | MemReg(mem: Memory, dst: nat)
    | RegMem(src: nat, mem: Memory)
    | ImmMem(mem: Memory)
    | OneReg(reg: nat)
    | OneMem(mem: Memory)
    | OtherMode

  predicate IsRegister(r: nat) {
    r < REGISTER_NUMBER
  }

  predicate MemoryFits(m: Memory) {
    && |m.index| <= 1 && (forall i :: 0 <= i < |m.index| ==> IsRegister(m.index[i]))
    && (m.base.Base? ==> IsRegister(m.base.reg))
  }

  predicate OperandsFit(ops: Operands) {
    match ops
    case ImmReg(d) => IsRegister(d)
    case RegReg(s, d) => IsRegister(s) && IsRegister(d)
    case MemReg(m, d) => MemoryFits(m) && IsRegister(d)
    case RegMem(s, m) => IsRegister(s) && MemoryFits(m)
    case ImmMem(m) => MemoryFits(m)
    case OneReg(r) => IsRegister(r)
    case OneMem(m) => MemoryFits(m)
    case OtherMode => true
  }

  /** `handleMem`: the registers in an address. */
  function AddressReads(m: Memory): seq<Access> {
    (if |m.index| == 0 then [] else [Read(m.index[0])]) + (if m.base.Base? then [Read(m.base.reg)] else [])
  }

  function FillAddOrSub(ops: Operands): Footprint {
    match ops
    case ImmReg(d) => Accesses([Read(d), Write(d), Write(FLAGS)])
    case RegReg(s, d) => Accesses([Read(s), Read(d), Write(d), Write(FLAGS)])
    case MemReg(m, d) => Accesses(AddressReads(m) + [Read(MEMORY_REG), Read(d), Write(d), Write(FLAGS)])
    case _ => Barrier
  }

  function FillCmp(ops: Operands): Footprint {
    match ops
    case RegReg(s, d) => Accesses([Read(s), Read(d), Write(FLAGS)])
    case ImmReg(d) => Accesses([Read(d), Write(FLAGS)])
    case ImmMem(m) => Accesses(AddressReads(m) + [Read(MEMORY_REG), Write(FLAGS)])
    case _ => Barrier
  }

  function FillMov(ops: Operands): Footprint {
    match ops
    case ImmReg(d) => Accesses([Write(d)])
    case RegMem(s, m) => Accesses([Read(s)] + AddressReads(m) + [Write(MEMORY_REG)])
    case MemReg(m, d) => Accesses(AddressReads(m) + [Read(MEMORY_REG), Write(d)])
    case RegReg(s, d) => Accesses([Read(s), Write(d)])
    case _ => Barrier
  }

  function FillPush(ops: Operands): Footprint {
    match ops
    case OneReg(r) => Accesses([Read(r), Write(MEMORY_REG), Read(SP), Write(SP)])
    case OneMem(m) => Accesses(AddressReads(m) + [Write(MEMORY_REG), Read(SP), Write(SP)])
    case _ => Barrier
  }

  function FillPop(ops: Operands): Footprint {
    match ops
    case OneReg(r) => Accesses([Write(r), Read(MEMORY_REG), Read(SP), Write(SP)])
    case OneMem(m) => Accesses(AddressReads(m) + [Read(MEMORY_REG), Read(SP), Write(SP)])
    case _ => Barrier
  }

  /** The handler table. `movabs` is only ever given an immediate and a register. */
  function Declared(op: Op, ops: Operands): Footprint
    requires op.Movabs? ==> ops.ImmReg?
  {
    match op
    case And => if ops.ImmReg? then FillAddOrSub(ops) else Barrier
    case Add => FillAddOrSub(ops)
    case Sub => FillAddOrSub(ops)
    case Xor => FillAddOrSub(ops)
    case Cmp => FillCmp(ops)
    case Lea => if ops.MemReg? then Accesses(AddressReads(ops.mem) + [Write(ops.dst)]) else Barrier
    case Mov => FillMov(ops)
    case Movabs => Accesses([Write(ops.dst)])
    case Movsxd => FillMov(ops)
    case Movzx => FillMov(ops)
    case Push => FillPush(ops)
    case Pop => FillPop(ops)
    case Unhandled => Barrier
  }

  /** Declared reads do not matter for writing twice. */
  lemma ReadsFirst(before: seq<Access>, rest: seq<Access>)
    requires forall k :: 0 <= k < |before| ==> before[k].Read?
    ensures WritesTwice(before + rest) <==> WritesTwice(rest)
  {
    if WritesTwice(rest) {
      var a, b :| 0 <= a < b < |rest| && rest[a].Write? && rest[a] == rest[b];
      assert (before + rest)[|before| + a] == (before + rest)[|before| + b] == rest[a];
    }
    if WritesTwice(before + rest) {
      var a, b :| 0 <= a < b < |before + rest| && (before + rest)[a].Write? && (before + rest)[a] == (before + rest)[b];
      assert rest[a - |before|] == rest[b - |before|];
    }
  }

  lemma TwoWrites(before: seq<Access>, r: nat, q: nat)
    requires forall k :: 0 <= k < |before| ==> before[k].Read?
    ensures WritesTwice(before + [Write(r), Write(q)]) <==> r == q
    ensures !WritesTwice(before + [Write(r)])
  {
    ReadsFirst(before, [Write(r), Write(q)]);
    ReadsFirst(before, [Write(r)]);
    var two := [Write(r), Write(q)];
    assert two[0] == Write(r) && two[1] == Write(q);
  }

  /** `push` and `pop` declare a write, some reads, and the write of the stack pointer. */
  lemma StackWrites(before: seq<Access>, r: nat)
    requires forall k :: 0 <= k < |before| ==> before[k].Read?
    ensures WritesTwice(before + [Write(r), Read(SP), Write(SP)]) <==> r == SP
    ensures WritesTwice(before + [Write(r), Read(MEMORY_REG), Read(SP), Write(SP)]) <==> r == SP
  {
    var short, long := [Write(r), Read(SP), Write(SP)], [Write(r), Read(MEMORY_REG), Read(SP), Write(SP)];
    ReadsFirst(before, short);
    ReadsFirst(before, long);
    assert short[0] == Write(r) && short[2] == Write(SP);
    assert long[0] == Write(r) && long[3] == Write(SP);
  }

  lemma AddOrSubWritesOnce(ops: Operands)
    requires OperandsFit(ops) && FillAddOrSub(ops).Accesses?
    ensures !WritesTwice(FillAddOrSub(ops).list)
  {
    var d := ops.dst;
    match ops {
      case ImmReg(_) =>
        TwoWrites([Read(d)], d, FLAGS);
        assert FillAddOrSub(ops).list == [Read(d)] + [Write(d), Write(FLAGS)];
      case RegReg(s, _) =>
        TwoWrites([Read(s), Read(d)], d, FLAGS);
        assert FillAddOrSub(ops).list == [Read(s), Read(d)] + [Write(d), Write(FLAGS)];
      case MemReg(m, _) =>
        var before := AddressReads(m) + [Read(MEMORY_REG), Read(d)];
        TwoWrites(before, d, FLAGS);
        assert FillAddOrSub(ops).list == before + [Write(d), Write(FLAGS)];
    }
  }

  /** Lists with a single write at the end. */
  lemma OneWrite(before: seq<Access>, r: nat, list: seq<Access>)
    requires (forall k :: 0 <= k < |before| ==> before[k].Read?) && list == before + [Write(r)]
    ensures !WritesTwice(list)
  {
    TwoWrites(before, r, r);
  }

  lemma CmpAndMovWriteOnce(ops: Operands)
    ensures FillCmp(ops).Accesses? ==> !WritesTwice(FillCmp(ops).list)
    ensures FillMov(ops).Accesses? ==> !WritesTwice(FillMov(ops).list)
  {
    match ops {
      case ImmReg(d) =>
        OneWrite([Read(d)], FLAGS, FillCmp(ops).list);
        OneWrite([], d, FillMov(ops).list);
      case RegReg(s, d) =>
        OneWrite([Read(s), Read(d)], FLAGS, FillCmp(ops).list);
        OneWrite([Read(s)], d, FillMov(ops).list);
      case ImmMem(m) => OneWrite(AddressReads(m) + [Read(MEMORY_REG)], FLAGS, FillCmp(ops).list);
      case RegMem(s, m) => OneWrite([Read(s)] + AddressReads(m), MEMORY_REG, FillMov(ops).list);
      case MemReg(m, d) => OneWrite(AddressReads(m) + [Read(MEMORY_REG)], d, FillMov(ops).list);
      case _ =>
    }
  }

  lemma PushWritesOnce(ops: Operands)
    ensures FillPush(ops).Accesses? ==> !WritesTwice(FillPush(ops).list)
  {
    if ops.OneReg? {
      StackWrites([Read(ops.reg)], MEMORY_REG);
      assert FillPush(ops).list == [Read(ops.reg)] + [Write(MEMORY_REG), Read(SP), Write(SP)];
    } else if ops.OneMem? {
      StackWrites(AddressReads(ops.mem), MEMORY_REG);
    }
  }

  lemma PopWritesTwice(ops: Operands)
    ensures (FillPop(ops).Accesses? && WritesTwice(FillPop(ops).list)) <==> ops == OneReg(SP)
  {
    if ops.OneReg? {
      StackWrites([], ops.reg);
      assert FillPop(ops).list == [] + [Write(ops.reg), Read(MEMORY_REG), Read(SP), Write(SP)];
    } else if ops.OneMem? {
      OneWrite(AddressReads(ops.mem) + [Read(MEMORY_REG), Read(SP)], SP, FillPop(ops).list);
    }
  }

  lemma FillsInRange(ops: Operands)
    requires OperandsFit(ops)
    ensures InRange(FillAddOrSub(ops)) && InRange(FillCmp(ops)) && InRange(FillMov(ops))
  {
  }

  lemma StackFillsInRange(ops: Operands)
    requires OperandsFit(ops)
    ensures InRange(FillPush(ops)) && InRange(FillPop(ops))
  {
  }

  /** Handlers only name registers, the flags and memory. */
  lemma DeclaredInRange(op: Op, ops: Operands)
    requires OperandsFit(ops) && (op.Movabs? ==> ops.ImmReg?)
    ensures InRange(Declared(op, ops))
  {
    match op {
      case Push => StackFillsInRange(ops);
      case Pop => StackFillsInRange(ops);
      case Lea =>
      case Movabs =>
      case Unhandled =>
      case _ => FillsInRange(ops);
    }
  }

  /** The only instruction that declares a location as written twice is `pop %rsp`. */
  lemma OnlyPopSpWritesTwice(op: Op, ops: Operands)
    requires OperandsFit(ops) && (op.Movabs? ==> ops.ImmReg?)
    ensures (Declared(op, ops).Accesses? && WritesTwice(Declared(op, ops).list)) <==> op.Pop? && ops == OneReg(SP)
  {
    match op {
      case Push => PushWritesOnce(ops);
      case Pop => PopWritesTwice(ops);
      case Lea =>
        if ops.MemReg? {
          OneWrite(AddressReads(ops.mem), ops.dst, Declared(op, ops).list);
        }
      case Movabs => OneWrite([], ops.dst, Declared(op, ops).list);
      case _ =>
        CmpAndMovWriteOnce(ops);
        if FillAddOrSub(ops).Accesses? {
          AddOrSubWritesOnce(ops);
        }
    }
  }

  // ---- What the processor really accesses ----

  /** The operand forms whose accesses the model of the processor below describes. Anything else may
      access whatever it likes. */
  predicate Known(op: Op, ops: Operands) {
    match op
    case And => ops.ImmReg?
    case Add => ops.ImmReg? || ops.RegReg? || ops.MemReg?
    case Sub => ops.ImmReg? || ops.RegReg? || ops.MemReg?
    case Xor => ops.ImmReg? || ops.RegReg? || ops.MemReg?
    case Cmp => ops.ImmReg? || ops.RegReg? || ops.ImmMem?
    case Lea => ops.MemReg?
    case Mov => ops.ImmReg? || ops.RegReg? || ops.MemReg? || ops.RegMem?
    case Movsxd => ops.ImmReg? || ops.RegReg? || ops.MemReg? || ops.RegMem?
    case Movzx => ops.ImmReg? || ops.RegReg? || ops.MemReg? || ops.RegMem?
    case Movabs => ops.ImmReg?
    case Push => ops.OneReg? || ops.OneMem?
    case Pop => ops.OneReg? || ops.OneMem?
    case Unhandled => false
  }

  /** Exactly these are not treated as barriers. */
  lemma KnownIsDeclared(op: Op, ops: Operands)
    requires op.Movabs? ==> ops.ImmReg?
    ensures Declared(op, ops).Accesses? <==> Known(op, ops)
  {
  }

  /** The locations an instruction may change, for the operand forms the handlers accept. */
  function Stores(op: Op, ops: Operands): set<nat> {
    match op
    case Cmp => {FLAGS}
    case Push => {MEMORY_REG, SP}
    case Pop => (if ops.OneReg? then {ops.reg} else {MEMORY_REG}) + {SP}
    case Unhandled => {}
    case _ => Destination(ops) + (if op.And? || op.Add? || op.Sub? || op.Xor? then {FLAGS} else {})
  }

  function Destination(ops: Operands): set<nat> {
    match ops
    case ImmReg(d) => {d}
    case RegReg(_, d) => {d}
    case MemReg(_, d) => {d}
    case RegMem(_, _) => {MEMORY_REG}
    case ImmMem(_) => {MEMORY_REG}
    case _ => {}
  }

  function AddressRegisters(m: Memory): set<nat> {
    (set r | r in m.index) + (if m.base.Base? then {m.base.reg} else {})
  }

  /** The locations its result may depend on. */
  function Loads(op: Op, ops: Operands): set<nat> {
    match op
    case Lea => if ops.MemReg? then AddressRegisters(ops.mem) else {}
    case Push => Sources(ops) + {SP}
    case Pop => (if ops.OneMem? then AddressRegisters(ops.mem) else {}) + {MEMORY_REG, SP}
    case Unhandled => {}
    case _ => Sources(ops) + (if op.And? || op.Add? || op.Sub? || op.Xor? || op.Cmp? then Destination(ops) else {})
  }

  function Sources(ops: Operands): set<nat> {
    match ops
    case RegReg(s, _) => {s}
    case MemReg(m, _) => AddressRegisters(m) + {MEMORY_REG}
    case RegMem(s, m) => {s} + AddressRegisters(m)
    case ImmMem(m) => AddressRegisters(m)
    case OneReg(r) => {r}
    case OneMem(m) => AddressRegisters(m) + {MEMORY_REG}
    case _ => {}
  }

  /** All that is stored is declared as written, all that is loaded is declared at all. */
  ghost predicate Covers(fp: Footprint, loads: set<nat>, stores: set<nat>) {
    fp.Accesses? ==> (forall l :: l in stores ==> Writes(fp, l)) && (forall l :: l in loads ==> Touches(fp, l))
  }

  lemma AddressCovered(m: Memory)
    requires |m.index| <= 1
    ensures forall r :: r in AddressRegisters(m) ==> Read(r) in AddressReads(m)
  {
  }

  lemma ArithmeticCovered(op: Op, ops: Operands)
    requires OperandsFit(ops) && (op.And? || op.Add? || op.Sub? || op.Xor? || op.Cmp?)
    ensures Covers(Declared(op, ops), Loads(op, ops), Stores(op, ops))
  {
    if ops.MemReg? || ops.ImmMem? {
      AddressCovered(ops.mem);
    }
  }

  lemma MoveCovered(op: Op, ops: Operands)
    requires OperandsFit(ops) && (op.Lea? || op.Mov? || op.Movsxd? || op.Movzx? || (op.Movabs? && ops.ImmReg?))
    ensures Covers(Declared(op, ops), Loads(op, ops), Stores(op, ops))
  {
    if ops.MemReg? || ops.RegMem? {
      AddressCovered(ops.mem);
    }
  }

  lemma StackCovered(op: Op, ops: Operands)
    requires OperandsFit(ops) && (op.Push? || op.Pop?)
    ensures Covers(Declared(op, ops), Loads(op, ops), Stores(op, ops)) <==> !(op.Pop? && ops.OneMem?)
  {
    if ops.OneMem? {
      AddressCovered(ops.mem);
      if op.Pop? {
        assert !Writes(Declared(op, ops), MEMORY_REG);
        assert MEMORY_REG in Stores(op, ops);
      }
    }
  }

  /** Every declaration covers what the instruction does, except that of `pop` into memory, whose
      store is not declared. */
  lemma OnlyPopToMemoryIsNotCovered(op: Op, ops: Operands)
    requires OperandsFit(ops) && (op.Movabs? ==> ops.ImmReg?)
    ensures Covers(Declared(op, ops), Loads(op, ops), Stores(op, ops)) <==> !(op.Pop? && ops.OneMem?)
  {
    match op {
      case Push => StackCovered(op, ops);
      case Pop => StackCovered(op, ops);
      case Lea => MoveCovered(op, ops);
      case Mov => MoveCovered(op, ops);
      case Movabs => MoveCovered(op, ops);
      case Movsxd => MoveCovered(op, ops);
      case Movzx => MoveCovered(op, ops);
      case Unhandled =>
      case _ => ArithmeticCovered(op, ops);
    }
  }

  /** And nothing else is declared: writes are stores, reads are loads. */
  lemma NothingElseDeclared(op: Op, ops: Operands)
    requires OperandsFit(ops) && (op.Movabs? ==> ops.ImmReg?)
    ensures forall l: nat :: Writes(Declared(op, ops), l) ==> l in Stores(op, ops)
    ensures forall l: nat :: Reads(Declared(op, ops), l) ==> l in Loads(op, ops)
  {
    forall l: nat | Writes(Declared(op, ops), l) ensures l in Stores(op, ops) {
      WriteIsStore(op, ops, l);
    }
    forall l: nat | Reads(Declared(op, ops), l) ensures l in Loads(op, ops) {
      ReadIsLoad(op, ops, l);
    }
  }

  lemma ReadIsLoad(op: Op, ops: Operands, l: nat)
    requires (op.Movabs? ==> ops.ImmReg?) && Reads(Declared(op, ops), l)
    ensures l in Loads(op, ops)
  {
    if ops.MemReg? || ops.RegMem? || ops.ImmMem? || ops.OneMem? {
      AddressIsRead(ops.mem);
    }
  }

  lemma WriteIsStore(op: Op, ops: Operands, l: nat)
    requires (op.Movabs? ==> ops.ImmReg?) && Writes(Declared(op, ops), l)
    ensures l in Stores(op, ops)
  {
    if ops.MemReg? || ops.RegMem? || ops.ImmMem? || ops.OneMem? {
      AddressIsRead(ops.mem);
    }
  }

  lemma AddressIsRead(m: Memory)
    ensures forall k :: 0 <= k < |AddressReads(m)| ==>
              AddressReads(m)[k].Read? && AddressReads(m)[k].loc in AddressRegisters(m)
  {
  }

  /** A known instruction declares something, and changes something. */
  lemma SomethingIsStored(op: Op, ops: Operands) returns (l: nat)
    requires OperandsFit(ops) && (op.Movabs? ==> ops.ImmReg?) && Known(op, ops)
    ensures Declared(op, ops).Accesses? && Declared(op, ops).list != [] && l < LOCATIONS && l in Stores(op, ops)
  {
    KnownIsDeclared(op, ops);
    if op.Push? || op.Pop? {
      l := SP;
    } else if op.And? || op.Add? || op.Sub? || op.Xor? || op.Cmp? {
      l := FLAGS;
    } else if ops.RegMem? {
      l := MEMORY_REG;
    } else {
      l := ops.dst;
    }
  }
}
