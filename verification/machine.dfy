/*
 * The machine-level state the inline spiller reads and rewrites: registers,
 * slot indexes, instructions, live intervals with their value numbers, the
 * virtual register map and the stack slot intervals. The analyses and target
 * hooks the spiller calls but does not implement are the fields of `Env`.
 *
 * Pointers of the source become names: an instruction is known by its id, a
 * value number (VNInfo) by its register and its position in that register's
 * value list.
 */
module SpillMachine {
  import opened Optional

  /** Register numbers; 0 means "no register". */
  type Reg = nat

  /** TargetRegisterInfo::isVirtualRegister: virtual registers have bit 31 set. */
  const VIRTUAL_REG_BASE: nat := 0x8000_0000

  predicate IsVirtual(r: Reg) {
    r >= VIRTUAL_REG_BASE
  }

  /** VirtRegMap::NO_STACK_SLOT, (1 << 30) - 1. */
  const NO_STACK_SLOT: int := 0x3FFF_FFFF

  /** A SlotIndex. Each instruction owns four consecutive slots, in the order
      load, use, def, store; an instruction's own index is its load slot. */
  type SlotIndex = int

  function BaseIndex(i: SlotIndex): SlotIndex {
    i - i % 4
  }

  function UseIndex(i: SlotIndex): SlotIndex {
    BaseIndex(i) + 1
  }

  function DefIndex(i: SlotIndex): SlotIndex {
    BaseIndex(i) + 2
  }

  function PrevSlot(i: SlotIndex): SlotIndex {
    i - 1
  }

  predicate SameInstr(a: SlotIndex, b: SlotIndex) {
    BaseIndex(a) == BaseIndex(b)
  }

  /** A register operand. `tiedToDef` is only meaningful on a use: whether
      MachineInstr::isRegTiedToDefOperand holds for it. */
  datatype Operand = Operand(reg: Reg, subReg: nat, isDef: bool, isImplicit: bool,
                             isDead: bool, isUndef: bool, isKill: bool, tiedToDef: bool)

  /** What an instruction stands for an operand index it does not have. */
  const NoOperand := Operand(0, 0, false, false, false, false, false, false)

  function UseOf(r: Reg, kill: bool): Operand {
    Operand(r, 0, false, false, false, false, kill, false)
  }

  function DefOf(r: Reg): Operand {
    Operand(r, 0, true, false, false, false, false, false)
  }

  /** The instruction kinds the spiller tells apart. A stack load defines its
      operand 0 from the slot, a stack store stores its operand 0 there; these
      are what the target's loadRegFromStackSlot / storeRegToStackSlot emit and
      what isLoadFromStackSlot / isStoreToStackSlot recognise. */
  datatype Opcode =
    | Copy
    | DebugValue(offset: nat, variable: nat)
    | FrameDebugValue(slot: int, offset: nat, variable: nat)
    | StackLoad(slot: int)
    | StackStore(slot: int)
    | Kill
    | Phi
    | Label
    | Other(name: nat, mayStore: bool, canFoldAsLoad: bool)

  datatype Instr = Instr(id: nat, opcode: Opcode, ops: seq<Operand>, index: SlotIndex, block: nat)

  function Op(mi: Instr, i: nat): Operand {
    if i < |mi.ops| then mi.ops[i] else NoOperand
  }

  predicate MayStore(mi: Instr) {
    mi.opcode.StackStore? || (mi.opcode.Other? && mi.opcode.mayStore)
  }

  predicate CanFoldAsLoad(mi: Instr) {
    mi.opcode.Other? && mi.opcode.canFoldAsLoad
  }

  /** isLoadFromStackSlot: the register a direct stack load defines, or 0. */
  function StackLoadReg(mi: Instr): Reg {
    if mi.opcode.StackLoad? then Op(mi, 0).reg else 0
  }

  /** isStoreToStackSlot: the register a direct stack store stores, or 0. */
  function StackStoreReg(mi: Instr): Reg {
    if mi.opcode.StackStore? then Op(mi, 0).reg else 0
  }

  predicate IsReloadOf(mi: Instr, reg: Reg, slot: int) {
    mi.opcode.StackLoad? && reg == StackLoadReg(mi) && mi.opcode.slot == slot
  }

  predicate IsSpillOf(mi: Instr, reg: Reg, slot: int) {
    mi.opcode.StackStore? && reg == StackStoreReg(mi) && mi.opcode.slot == slot
  }

  /** Whether any operand of the instruction names the register. */
  predicate References(mi: Instr, reg: Reg) {
    exists i | 0 <= i < |mi.ops| :: mi.ops[i].reg == reg
  }

  predicate ReadsOperand(mi: Instr, reg: Reg) {
    exists i | 0 <= i < |mi.ops| :: mi.ops[i].reg == reg && !mi.ops[i].isDef
  }

  /** A value number (VNInfo) of a live interval. */
  datatype VNInfo = VNInfo(def: SlotIndex, isPHIDef: bool, isUnused: bool, hasCopy: bool)

  /** A live range [start, end) of the value numbered `valno`. */
  datatype Segment = Segment(start: SlotIndex, end: SlotIndex, valno: nat)

  datatype Interval = Interval(values: seq<VNInfo>, segments: seq<Segment>, spillable: bool)

  const EmptyInterval := Interval([], [], true)

  /** The value of the first segment containing `idx`, among values below n. */
  function SegmentValno(segs: seq<Segment>, n: nat, idx: SlotIndex): (r: Option<nat>)
    ensures r.Some? ==> r.value < n
    ensures r.Some? ==> exists k | 0 <= k < |segs| :: segs[k].start <= idx < segs[k].end && segs[k].valno == r.value
  {
    if |segs| == 0 then None
    else if segs[0].start <= idx < segs[0].end && segs[0].valno < n then Some(segs[0].valno)
    else
      var r := SegmentValno(segs[1..], n, idx);
      if r.Some? then
        var k :| 0 <= k < |segs[1..]| && segs[1..][k].start <= idx < segs[1..][k].end && segs[1..][k].valno == r.value;
        assert segs[k + 1] == segs[1..][k];
        r
      else r
  }

  /** LiveInterval::getVNInfoAt. */
  function ValnoAt(li: Interval, idx: SlotIndex): (r: Option<nat>)
    ensures r.Some? ==> r.value < |li.values|
  {
    SegmentValno(li.segments, |li.values|, idx)
  }

  /** A value number, named by its register and its number in that register's interval. */
  datatype Val = Val(reg: Reg, valno: nat)

  /** The segments of one value of an interval, renumbered as value 0 of a stack
      interval (LiveInterval::MergeValueInAsValue). */
  function ValueSegments(segs: seq<Segment>, valno: nat): (r: seq<Segment>)
    ensures forall k | 0 <= k < |r| :: r[k].valno == 0
  {
    if |segs| == 0 then []
    else
      (if segs[0].valno == valno then [Segment(segs[0].start, segs[0].end, 0)] else [])
      + ValueSegments(segs[1..], valno)
  }

  /** All segments of an interval as value 0 (LiveInterval::MergeRangesInAsValue). */
  function AllSegments(segs: seq<Segment>): (r: seq<Segment>)
    ensures |r| == |segs|
    ensures forall k | 0 <= k < |r| :: r[k].valno == 0
  {
    if |segs| == 0 then [] else [Segment(segs[0].start, segs[0].end, 0)] + AllSegments(segs[1..])
  }

  /** The stack slot interval with more segments merged in; a slot without an
      interval starts empty. */
  function MergeIntoSlot(si: map<int, seq<Segment>>, slot: int, segs: seq<Segment>): (r: map<int, seq<Segment>>)
    ensures slot in r && r.Keys == si.Keys + {slot}
    ensures r[slot] == (if slot in si then si[slot] else []) + segs
    ensures forall s | s in si && s != slot :: r[s] == si[s]
  {
    si[slot := (if slot in si then si[slot] else []) + segs]
  }

  lemma AppendAssoc<T>(a: seq<T>, b: seq<T>, c: seq<T>)
    ensures a + b + c == a + (b + c)
  {
  }

  /** The analyses and target hooks the spiller consults.
      - blockOf: LiveIntervals::getMBBFromIndex; preds, blockEnd: the
        predecessors and end index of a block; dominates: the dominator tree;
        loopDepth: MachineLoopInfo::getLoopDepth.
      - newIndex: the slot index InsertMachineInstrInMaps gives an inserted
        instruction, by its id.
      - rematerializable: TargetInstrInfo::isTriviallyReMaterializable;
        usesAvailableAt(OrigMI, DefIdx, UseIdx): whether every register OrigMI
        reads has the same value at UseIdx as at DefIdx.
      - foldIntoSlot, foldLoad: TargetInstrInfo::foldMemoryOperand with a stack
        slot or a load instruction, giving the opcode and operands of the folded
        instruction or nothing.
      - frameDebugValue: TargetInstrInfo::emitFrameIndexDebugValue.
      - eliminateDeadDefs: LiveRangeEdit::eliminateDeadDefs on the code and the
        intervals, given the ids of the dead defs. */
  datatype Env = Env(
    blockOf: SlotIndex -> nat,
    preds: nat -> seq<nat>,
    blockEnd: nat -> SlotIndex,
    dominates: (nat, nat) -> bool,
    loopDepth: nat -> nat,
    newIndex: nat -> SlotIndex,
    rematerializable: Instr -> bool,
    usesAvailableAt: (Instr, SlotIndex, SlotIndex) -> bool,
    foldIntoSlot: (Instr, seq<nat>, int) -> Option<(Opcode, seq<Operand>)>,
    foldLoad: (Instr, seq<nat>, Instr) -> Option<(Opcode, seq<Operand>)>,
    frameDebugValue: (int, nat, nat) -> Option<Opcode>,
    eliminateDeadDefs: (seq<Instr>, map<Reg, Interval>, seq<nat>) -> (seq<Instr>, map<Reg, Interval>))

  /** The function being allocated: its instructions in program order, the
      live intervals (LiveIntervals), the original of each split register and
      the stack slot of each spilled register (VirtRegMap), the stack slot
      intervals (LiveStacks), the recorded spill slot uses, and the next fresh
      stack slot, register and instruction id. */
  datatype MachineState = MachineState(
    code: seq<Instr>,
    intervals: map<Reg, Interval>,
    originals: map<Reg, Reg>,
    stackSlots: map<Reg, int>,
    stackIntervals: map<int, seq<Segment>>,
    slotUses: seq<(int, nat)>,
    nextSlot: int,
    nextReg: Reg,
    nextId: nat)

  /** VirtRegMap::getOriginal: a register that was not split from another is its own original. */
  function Original(st: MachineState, r: Reg): Reg {
    if r in st.originals then st.originals[r] else r
  }

  predicate HasVal(st: MachineState, v: Val) {
    v.reg in st.intervals && v.valno < |st.intervals[v.reg].values|
  }

  function Vni(st: MachineState, v: Val): VNInfo
    requires HasVal(st, v)
  {
    st.intervals[v.reg].values[v.valno]
  }

  /** Every value number of every interval. */
  function AllVals(intervals: map<Reg, Interval>): set<Val> {
    set r, k | r in intervals && 0 <= k < |intervals[r].values| :: Val(r, k)
  }

  lemma InAllVals(st: MachineState, v: Val)
    requires HasVal(st, v)
    ensures v in AllVals(st.intervals)
  {
    assert Val(v.reg, v.valno) in AllVals(st.intervals);
  }

  /** Marking a value visited shrinks the set of unvisited values. */
  lemma VisitShrinks(all: set<Val>, visited: set<Val>, v: Val)
    requires v in all && v !in visited
    ensures |all - (visited + {v})| < |all - visited|
  {
    assert all - (visited + {v}) == (all - visited) - {v};
  }

  /** getInterval(reg).getVNInfoAt(idx); nothing when reg has no interval. */
  function ValAt(st: MachineState, reg: Reg, idx: SlotIndex): (r: Option<Val>)
    ensures r.Some? ==> HasVal(st, r.value) && r.value.reg == reg
  {
    if reg !in st.intervals then None
    else
      match ValnoAt(st.intervals[reg], idx)
      case None => None
      case Some(k) => Some(Val(reg, k))
  }

  /** The values of `reg` live out of each block of `preds`, read at the slot
      before the block's end, in predecessor order. */
  function LiveOutValues(st: MachineState, env: Env, reg: Reg, preds: seq<nat>): (r: seq<Val>)
    ensures forall k | 0 <= k < |r| :: HasVal(st, r[k]) && r[k].reg == reg
  {
    if |preds| == 0 then []
    else
      var here := ValAt(st, reg, PrevSlot(env.blockEnd(preds[0])));
      (if here.Some? then [here.value] else []) + LiveOutValues(st, env, reg, preds[1..])
  }

  /** The live-out values of the predecessors of the block holding a PHI-def. */
  function PhiInputs(st: MachineState, env: Env, v: Val): (r: seq<Val>)
    requires HasVal(st, v)
    ensures forall k | 0 <= k < |r| :: HasVal(st, r[k]) && r[k].reg == v.reg
  {
    LiveOutValues(st, env, v.reg, env.preds(env.blockOf(Vni(st, v).def)))
  }

  /** LiveIntervals::intervalIsInOneMBB: the interval is not empty and starts
      and ends in the same block. */
  predicate InOneBlock(env: Env, li: Interval) {
    |li.segments| > 0
    && env.blockOf(li.segments[0].start) == env.blockOf(PrevSlot(li.segments[|li.segments| - 1].end))
  }

  // ---------------------------------------------------------------------
  // Instructions in program order.

  /** The position of the first instruction with the given id. */
  function PositionOf(code: seq<Instr>, id: nat): (r: Option<nat>)
    ensures r.Some? ==> r.value < |code| && code[r.value].id == id
    ensures r.Some? ==> forall k | 0 <= k < r.value :: code[k].id != id
    ensures r.None? ==> forall k | 0 <= k < |code| :: code[k].id != id
  {
    if |code| == 0 then None
    else if code[0].id == id then Some(0)
    else
      match PositionOf(code[1..], id)
      case None => None
      case Some(p) => Some(p + 1)
  }

  function FindInstr(code: seq<Instr>, id: nat): (r: Option<Instr>)
    ensures r.Some? ==> r.value in code && r.value.id == id
    ensures r.None? ==> forall k | 0 <= k < |code| :: code[k].id != id
  {
    match PositionOf(code, id)
    case None => None
    case Some(p) => Some(code[p])
  }

  /** The position of the first instruction owning the index. */
  function PositionAtIndex(code: seq<Instr>, idx: SlotIndex): (r: Option<nat>)
    ensures r.Some? ==> r.value < |code| && SameInstr(code[r.value].index, idx)
    ensures r.Some? ==> forall k | 0 <= k < r.value :: !SameInstr(code[k].index, idx)
    ensures r.None? ==> forall k | 0 <= k < |code| :: !SameInstr(code[k].index, idx)
  {
    if |code| == 0 then None
    else if SameInstr(code[0].index, idx) then Some(0)
    else
      match PositionAtIndex(code[1..], idx)
      case None => None
      case Some(p) => Some(p + 1)
  }

  /** LiveIntervals::getInstructionFromIndex: the instruction owning the index. */
  function InstrAtIndex(code: seq<Instr>, idx: SlotIndex): (r: Option<Instr>)
    ensures r.Some? ==> r.value in code && BaseIndex(r.value.index) == BaseIndex(idx)
  {
    match PositionAtIndex(code, idx)
    case None => None
    case Some(p) => Some(code[p])
  }

  function InsertAt(code: seq<Instr>, p: nat, x: Instr): (r: seq<Instr>)
    requires p <= |code|
    ensures |r| == |code| + 1 && r[p] == x
    ensures r[..p] == code[..p] && r[p + 1..] == code[p..]
  {
    code[..p] + [x] + code[p..]
  }

  /** Insert before the instruction with the given id (nothing when it is absent). */
  function InsertBefore(code: seq<Instr>, id: nat, x: Instr): seq<Instr> {
    match PositionOf(code, id)
    case None => code
    case Some(p) => InsertAt(code, p, x)
  }

  /** Insert after the instruction with the given id (nothing when it is absent). */
  function InsertAfter(code: seq<Instr>, id: nat, x: Instr): seq<Instr> {
    match PositionOf(code, id)
    case None => code
    case Some(p) => InsertAt(code, p + 1, x)
  }

  /** Put `x` in place of the instruction with the given id. */
  function ReplaceId(code: seq<Instr>, id: nat, x: Instr): (r: seq<Instr>)
    ensures |r| == |code|
  {
    match PositionOf(code, id)
    case None => code
    case Some(p) => code[p := x]
  }

  /** Replace the instruction with x's id by x. */
  function Update(code: seq<Instr>, x: Instr): (r: seq<Instr>)
    ensures |r| == |code|
    ensures forall k | 0 <= k < |r| :: r[k].id == code[k].id
  {
    ReplaceId(code, x.id, x)
  }

  /** The first position holding an id. */
  lemma PositionIs(code: seq<Instr>, id: nat, q: nat)
    requires q < |code| && code[q].id == id && forall k | 0 <= k < q :: code[k].id != id
    ensures PositionOf(code, id) == Some(q)
  {
  }

  /** Where an id is found depends on the ids alone. */
  lemma {:induction false} SameIdsSamePositions(a: seq<Instr>, b: seq<Instr>, id: nat)
    requires |a| == |b| && forall k | 0 <= k < |a| :: a[k].id == b[k].id
    ensures PositionOf(a, id) == PositionOf(b, id)
  {
    if |a| > 0 && a[0].id != id {
      SameIdsSamePositions(a[1..], b[1..], id);
    }
  }

  /** Erase the first instruction with the given id (nothing when it is absent). */
  function EraseId(code: seq<Instr>, id: nat): (r: seq<Instr>)
    ensures PositionOf(code, id).None? ==> r == code
    ensures PositionOf(code, id).Some? ==> |r| + 1 == |code|
  {
    match PositionOf(code, id)
    case None => code
    case Some(p) => code[..p] + code[p + 1..]
  }

  /** The first instruction of block b, or the end of the block. */
  function FirstNonPhiFrom(code: seq<Instr>, b: nat, k: nat): (p: nat)
    requires k <= |code|
    ensures k <= p <= |code|
    decreases |code| - k
  {
    if k == |code| then k
    else if code[k].block == b && !code[k].opcode.Phi? && !code[k].opcode.Label? then k
    else FirstNonPhiFrom(code, b, k + 1)
  }

  /** Just past the last instruction of block b, or the end of the code. */
  function BlockEnd(code: seq<Instr>, b: nat, k: nat): (p: nat)
    requires k <= |code|
    ensures p <= |code|
    decreases k
  {
    if k == 0 then |code|
    else if code[k - 1].block == b then k
    else BlockEnd(code, b, k - 1)
  }

  /** MachineBasicBlock::SkipPHIsAndLabels(begin()): the first instruction of
      the block that is neither a PHI nor a label, or the block's end. */
  function SkipPhisAndLabels(code: seq<Instr>, b: nat): (p: nat)
    ensures p <= |code|
  {
    var q := FirstNonPhiFrom(code, b, 0);
    if q < |code| then q else BlockEnd(code, b, |code|)
  }

  /** The instructions with an operand naming reg (MachineRegisterInfo::reg_begin). */
  function RegInstrs(code: seq<Instr>, reg: Reg): (r: seq<Instr>)
    ensures forall k | 0 <= k < |r| :: r[k] in code && References(r[k], reg)
    ensures forall mi | mi in code && References(mi, reg) :: mi in r
  {
    if |code| == 0 then []
    else (if References(code[0], reg) then [code[0]] else []) + RegInstrs(code[1..], reg)
  }

  /** The same without debug values (reg_nodbg_begin). */
  function RegInstrsNoDbg(code: seq<Instr>, reg: Reg): (r: seq<Instr>)
    ensures forall k | 0 <= k < |r| :: r[k] in code && References(r[k], reg) && !r[k].opcode.DebugValue?
  {
    if |code| == 0 then []
    else
      (if References(code[0], reg) && !code[0].opcode.DebugValue? then [code[0]] else [])
      + RegInstrsNoDbg(code[1..], reg)
  }

  /** The instructions reading reg, without debug values (use_nodbg_begin). */
  function UseInstrsNoDbg(code: seq<Instr>, reg: Reg): (r: seq<Instr>)
    ensures forall k | 0 <= k < |r| :: r[k] in code && ReadsOperand(r[k], reg) && !r[k].opcode.DebugValue?
  {
    if |code| == 0 then []
    else
      (if ReadsOperand(code[0], reg) && !code[0].opcode.DebugValue? then [code[0]] else [])
      + UseInstrsNoDbg(code[1..], reg)
  }

  function Ids(instrs: seq<Instr>): (r: seq<nat>)
    ensures |r| == |instrs|
    ensures forall k | 0 <= k < |r| :: r[k] == instrs[k].id
  {
    if |instrs| == 0 then [] else [instrs[0].id] + Ids(instrs[1..])
  }

  /** LiveRangeEdit::createFrom: a fresh virtual register split from the same
      original as `from`, with an empty interval. */
  function CreateFrom(st: MachineState, from: Reg): (r: (MachineState, Reg))
    ensures r.1 == st.nextReg && r.1 in r.0.intervals
    ensures r.0.intervals[r.1] == EmptyInterval
    ensures Original(r.0, r.1) == Original(st, from)
    ensures r.0.code == st.code && r.0.nextId == st.nextId && r.0.stackSlots == st.stackSlots
  {
    var nr := st.nextReg;
    (st.(intervals := st.intervals[nr := EmptyInterval],
         originals := st.originals[nr := Original(st, from)],
         nextReg := nr + 1), nr)
  }

  /** What traceSiblingValue learns about a value: whether all its real defs
      are reloads from the stack slot, the best value to spill instead, and an
      instruction that could rematerialize it. */
  datatype SibValueInfo = SibValueInfo(allDefsAreReloads: bool, spillReg: Reg, spillVal: Val, defMI: Option<Instr>)

  /** The state of one spill: the locals of InlineSpiller that live for one
      call of spill(), and the LiveRangeEdit sets it fills (remattable values,
      whether they were scanned, rematerialized values, created registers). */
  datatype Spiller = Spiller(
    reg: Reg,
    original: Reg,
    stackSlot: int,
    regsToSpill: seq<Reg>,
    snippetCopies: set<nat>,
    usedValues: set<Val>,
    sibValues: map<Val, SibValueInfo>,
    deadDefs: seq<nat>,
    remattable: set<Val>,
    scannedRemattable: bool,
    rematted: set<Val>,
    newRegs: seq<Reg>)

  predicate IsRegToSpill(sp: Spiller, r: Reg) {
    r in sp.regsToSpill
  }

  /** isSibling: a virtual register split from the same original. */
  predicate IsSibling(st: MachineState, original: Reg, r: Reg) {
    IsVirtual(r) && Original(st, r) == original
  }
}
