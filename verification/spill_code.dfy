/*
 * Spilling (InlineSpiller.cpp, spillAroundUses, spillAll and spill): every
 * remaining instruction using a register to spill either loses the access
 * (debug values, coalesced stack accesses, folded operands, hoisted copies)
 * or is rewritten to a fresh register that is reloaded right before it and
 * stored right after it; then the spilled registers are deleted.
 */
module SpillCode {
  import opened Optional
  import opened SpillMachine
  import opened SpillSnippets
  import opened Hoisting
  import opened StackAccess
  import opened SiblingAnalysis
  import opened Remat

  // ---------------------------------------------------------------------
  // Rewriting one instruction around a new register.

  /** The operand now names newReg; a use becomes a kill unless it is tied to a def. */
  function RewriteOperand(o: Operand, newReg: Reg): Operand {
    if o.isDef then o.(reg := newReg)
    else o.(reg := newReg, isKill := if o.tiedToDef then o.isKill else true)
  }

  /** Rewrite every operand naming reg. */
  function RewriteOps(ops: seq<Operand>, reg: Reg, newReg: Reg): (r: seq<Operand>)
    ensures |r| == |ops|
    ensures forall j | 0 <= j < |ops| :: r[j] == if ops[j].reg == reg then RewriteOperand(ops[j], newReg) else ops[j]
  {
    if |ops| == 0 then []
    else [if ops[0].reg == reg then RewriteOperand(ops[0], newReg) else ops[0]] + RewriteOps(ops[1..], reg, newReg)
  }

  /** After the rewrite the instruction names newReg exactly where it named
      reg, and reg nowhere. */
  lemma RewriteOpsMeaning(mi: Instr, reg: Reg, newReg: Reg)
    requires reg != newReg && !References(mi, newReg)
    ensures var m := mi.(ops := RewriteOps(mi.ops, reg, newReg));
      && !References(m, reg)
      && (References(m, newReg) <==> References(mi, reg))
      && (ReadsOperand(m, newReg) <==> ReadsOperand(mi, reg))
      && forall j | 0 <= j < |mi.ops| :: (m.ops[j].reg == newReg <==> mi.ops[j].reg == reg)
  {
    var m := mi.(ops := RewriteOps(mi.ops, reg, newReg));
    forall j | 0 <= j < |mi.ops| ensures (m.ops[j].reg == newReg <==> mi.ops[j].reg == reg) && m.ops[j].reg != reg {
      assert mi.ops[j].reg != newReg;
    }
    if References(mi, reg) {
      var i :| 0 <= i < |mi.ops| && mi.ops[i].reg == reg;
      assert m.ops[i].reg == newReg;
    }
    if ReadsOperand(mi, reg) {
      var i :| 0 <= i < |mi.ops| && mi.ops[i].reg == reg && !mi.ops[i].isDef;
      assert m.ops[i].reg == newReg && !m.ops[i].isDef;
    }
    if ReadsOperand(m, newReg) {
      var i :| 0 <= i < |m.ops| && m.ops[i].reg == newReg && !m.ops[i].isDef;
      assert mi.ops[i].reg == reg && !mi.ops[i].isDef;
    }
  }

  /** Some def of reg in the operands is not dead. */
  predicate HasLiveDef(ops: seq<Operand>, reg: Reg) {
    exists j | 0 <= j < |ops| :: ops[j].reg == reg && ops[j].isDef && !ops[j].isDead
  }

  /** The first half of the tail of the loop body of spillAroundUses: a new
      unspillable register split from reg, a reload of it before mi when mi
      reads reg, and mi's operands renamed. */
  function Reloaded(st: MachineState, env: Env, sp: Spiller, reg: Reg, mi: Instr, isRead: bool, idx: SlotIndex): MachineState {
    var s1 := SplitReg(st, reg);
    var st2 := if isRead then InsertReload(s1.0, env, sp, s1.1, idx, mi) else s1.0;
    st2.(code := Update(st2.code, mi.(ops := RewriteOps(mi.ops, reg, s1.1))))
  }

  /** The whole tail: the first half, then a spill of the new register after
      mi when mi writes a live def of reg; the new register joins the
      spill's new registers. */
  function RewriteUse(st: MachineState, env: Env, sp: Spiller, reg: Reg, mi: Instr, isRead: bool, isWrite: bool, idx: SlotIndex): (r: (MachineState, Spiller)) {
    var nr := st.nextReg;
    var st3 := Reloaded(st, env, sp, reg, mi, isRead, idx);
    var newMI := mi.(ops := RewriteOps(mi.ops, reg, nr));
    var st4 := if isWrite && HasLiveDef(mi.ops, reg) then InsertSpill(st3, env, sp, nr, idx, newMI) else st3;
    (st4, sp.(newRegs := sp.newRegs + [nr]))
  }

  /** Every instruction id is below the next fresh id. */
  predicate FreshIds(st: MachineState) {
    forall k | 0 <= k < |st.code| :: st.code[k].id < st.nextId
  }

  /** The reload RewriteUse inserts, and the spill, by id. */
  function ReloadOf(env: Env, sp: Spiller, newReg: Reg, id: nat, block: nat): Instr {
    Instr(id, StackLoad(sp.stackSlot), [DefOf(newReg)], env.newIndex(id), block)
  }

  function SpillOf(env: Env, sp: Spiller, newReg: Reg, id: nat, block: nat): Instr {
    Instr(id, StackStore(sp.stackSlot), [UseOf(newReg, true)], env.newIndex(id), block)
  }

  /** The instructions RewriteUse inserts: a reload when mi reads reg, a
      spill when it writes a live def of it. */
  function ReloadFor(st: MachineState, env: Env, sp: Spiller, mi: Instr, isRead: bool): Option<Instr> {
    if isRead then Some(ReloadOf(env, sp, st.nextReg, st.nextId, mi.block)) else None
  }

  function SpillFor(st: MachineState, env: Env, sp: Spiller, reg: Reg, mi: Instr, isRead: bool, isWrite: bool): Option<Instr> {
    var spillId := st.nextId + (if isRead then 1 else 0);
    if isWrite && HasLiveDef(mi.ops, reg) then Some(SpillOf(env, sp, st.nextReg, spillId, mi.block)) else None
  }

  function OptSeq(x: Option<Instr>): seq<Instr> {
    if x.Some? then [x.value] else []
  }

  lemma SpillForIs(st: MachineState, env: Env, sp: Spiller, reg: Reg, mi: Instr, isRead: bool, isWrite: bool, n: nat)
    requires n == st.nextId + (if isRead then 1 else 0)
    ensures SpillFor(st, env, sp, reg, mi, isRead, isWrite) ==
      if isWrite && HasLiveDef(mi.ops, reg) then Some(SpillOf(env, sp, st.nextReg, n, mi.block)) else None
  {
  }

  /** The new register and its empty unspillable interval. */
  function SplitReg(st: MachineState, reg: Reg): (r: (MachineState, Reg)) {
    var c := CreateFrom(st, reg);
    (c.0.(intervals := c.0.intervals[c.1 := EmptyInterval.(spillable := false)]), c.1)
  }

  /** The interval of the new register after the first half. */
  function ReloadedInterval(st: MachineState, env: Env, isRead: bool, idx: SlotIndex): Interval {
    var loadIdx := DefIndex(env.newIndex(st.nextId));
    var li0 := EmptyInterval.(spillable := false);
    if isRead then AddValue(li0, loadIdx, loadIdx, idx) else li0
  }

  /** The interval of the new register after both halves: a value from the
      reload when mi reads reg, then a value to the spill when it writes a
      live def. */
  function NewInterval(st: MachineState, env: Env, reg: Reg, mi: Instr, isRead: bool, isWrite: bool, idx: SlotIndex): Interval {
    var spillId := st.nextId + (if isRead then 1 else 0);
    var storeIdx := DefIndex(env.newIndex(spillId));
    var li2 := ReloadedInterval(st, env, isRead, idx);
    if isWrite && HasLiveDef(mi.ops, reg) then AddValue(li2, idx, idx, storeIdx) else li2
  }

  /** What the first half changes besides the code. */
  lemma ReloadedState(st: MachineState, env: Env, sp: Spiller, reg: Reg, mi: Instr, isRead: bool, idx: SlotIndex)
    ensures var s := Reloaded(st, env, sp, reg, mi, isRead, idx);
      var nr := st.nextReg;
      && s == st.(code := s.code, intervals := s.intervals, originals := s.originals, nextReg := nr + 1,
                  nextId := s.nextId, slotUses := s.slotUses)
      && s.intervals == st.intervals[nr := ReloadedInterval(st, env, isRead, idx)]
      && s.originals == st.originals[nr := Original(st, reg)]
      && s.nextId == st.nextId + (if isRead then 1 else 0)
      && s.slotUses == st.slotUses + (if isRead then [(sp.stackSlot, st.nextId)] else [])
  {
    var nr := st.nextReg;
    var li0 := EmptyInterval.(spillable := false);
    var s1 := SplitReg(st, reg);
    UpdateTwice(st.intervals, nr, EmptyInterval, li0);
    assert s1.0 == st.(intervals := st.intervals[nr := li0], originals := st.originals[nr := Original(st, reg)],
                       nextReg := nr + 1);
    if isRead {
      ReloadStepIntervals(s1.0, env, sp, nr, idx, mi, li0);
      UpdateTwice(st.intervals, nr, li0, ReloadedInterval(st, env, isRead, idx));
    }
  }

  /** The code after the first half. */
  lemma ReloadedCode(st: MachineState, env: Env, sp: Spiller, reg: Reg, mi: Instr, isRead: bool, idx: SlotIndex)
    ensures var load := ReloadFor(st, env, sp, mi, isRead);
      Reloaded(st, env, sp, reg, mi, isRead, idx).code
      == Update(if load.Some? then InsertBefore(st.code, mi.id, load.value) else st.code,
                mi.(ops := RewriteOps(mi.ops, reg, st.nextReg)))
  {
  }

  /** The interval maps after the reload step and the spill step. */
  lemma ReloadStepIntervals(s: MachineState, env: Env, sp: Spiller, nr: Reg, idx: SlotIndex, mi: Instr, li: Interval)
    requires IntervalOf(s, nr) == li
    ensures InsertReload(s, env, sp, nr, idx, mi).intervals
      == s.intervals[nr := AddValue(li, DefIndex(env.newIndex(s.nextId)), DefIndex(env.newIndex(s.nextId)), idx)]
  {
  }

  lemma SpillStepIntervals(s: MachineState, env: Env, sp: Spiller, nr: Reg, idx: SlotIndex, mi: Instr, li: Interval)
    requires IntervalOf(s, nr) == li
    ensures InsertSpill(s, env, sp, nr, idx, mi).intervals
      == s.intervals[nr := AddValue(li, idx, idx, DefIndex(env.newIndex(s.nextId)))]
  {
  }

  /** The spill step changes only the code, the intervals, the slot uses and
      the next id. */
  lemma SpillStepFields(s: MachineState, env: Env, sp: Spiller, nr: Reg, idx: SlotIndex, mi: Instr)
    ensures var r := InsertSpill(s, env, sp, nr, idx, mi);
      r == s.(code := r.code, intervals := r.intervals, slotUses := s.slotUses + [(sp.stackSlot, s.nextId)], nextId := s.nextId + 1)
  {
  }

  lemma UpdateTwice<K, V>(m: map<K, V>, k: K, a: V, b: V)
    ensures m[k := a][k := b] == m[k := b]
  {
  }

  /** The shape of the code after the steps, on plain sequences. */
  lemma RewriteShape(code: seq<Instr>, p: nat, load: Option<Instr>, newMI: Instr, store: Option<Instr>)
    requires p < |code|
    ensures var c2 := if load.Some? then InsertAt(code, p, load.value) else code;
      var q := if load.Some? then p + 1 else p;
      var c3 := c2[q := newMI];
      var c4 := if store.Some? then InsertAt(c3, q + 1, store.value) else c3;
      c4 == code[..p] + OptSeq(load) + [newMI] + OptSeq(store) + code[p + 1..]
  {
  }

  /** The same on the code alone: inserting before an id that is found,
      updating it, and inserting after it. */
  lemma RewriteCodeSteps(code: seq<Instr>, id: nat, load: Option<Instr>, newMI: Instr, store: Option<Instr>,
                         c2: seq<Instr>, c3: seq<Instr>, c4: seq<Instr>)
    requires PositionOf(code, id).Some? && newMI.id == id
    requires load.Some? ==> load.value.id != id
    requires c2 == if load.Some? then InsertBefore(code, id, load.value) else code
    requires c3 == Update(c2, newMI)
    requires c4 == if store.Some? then InsertAfter(c3, id, store.value) else c3
    ensures var p := PositionOf(code, id).value;
      c4 == code[..p] + OptSeq(load) + [newMI] + OptSeq(store) + code[p + 1..]
  {
    var p := PositionOf(code, id).value;
    var q := if load.Some? then p + 1 else p;
    if load.Some? {
      PositionIs(c2, id, q);
    }
    assert c3 == c2[q := newMI];
    if store.Some? {
      PositionIs(c3, id, q);
    }
    RewriteShape(code, p, load, newMI, store);
  }

  /** With fresh ids, the instruction is rewritten in place, with the reload
      right before it when it reads reg and the spill right after it when it
      writes a live def of reg; nothing else in the code moves. */
  lemma RewriteUseCode(st: MachineState, env: Env, sp: Spiller, reg: Reg, mi: Instr, isRead: bool, isWrite: bool, idx: SlotIndex)
    requires FreshIds(st) && PositionOf(st.code, mi.id).Some?
    ensures var r := RewriteUse(st, env, sp, reg, mi, isRead, isWrite, idx);
      var p := PositionOf(st.code, mi.id).value;
      r.0.code == st.code[..p] + OptSeq(ReloadFor(st, env, sp, mi, isRead))
                  + [mi.(ops := RewriteOps(mi.ops, reg, st.nextReg))]
                  + OptSeq(SpillFor(st, env, sp, reg, mi, isRead, isWrite)) + st.code[p + 1..]
  {
    var nr := st.nextReg;
    var newMI := mi.(ops := RewriteOps(mi.ops, reg, nr));
    var load := ReloadFor(st, env, sp, mi, isRead);
    var st3 := Reloaded(st, env, sp, reg, mi, isRead, idx);
    ReloadedCode(st, env, sp, reg, mi, isRead, idx);
    RewriteUseStore(st, env, sp, reg, mi, isRead, isWrite, idx);
    var c2 := if load.Some? then InsertBefore(st.code, mi.id, load.value) else st.code;
    var store := SpillFor(st, env, sp, reg, mi, isRead, isWrite);
    assert mi.id < st.nextId;
    var r := RewriteUse(st, env, sp, reg, mi, isRead, isWrite, idx);
    RewriteCodeSteps(st.code, mi.id, load, newMI, store, c2, st3.code, r.0.code);
  }

  /** The second half adds the spill right after the instruction. */
  lemma RewriteUseStore(st: MachineState, env: Env, sp: Spiller, reg: Reg, mi: Instr, isRead: bool, isWrite: bool, idx: SlotIndex)
    ensures var st3 := Reloaded(st, env, sp, reg, mi, isRead, idx);
      var store := SpillFor(st, env, sp, reg, mi, isRead, isWrite);
      RewriteUse(st, env, sp, reg, mi, isRead, isWrite, idx).0.code
      == if store.Some? then InsertAfter(st3.code, mi.id, store.value) else st3.code
  {
    var st3 := Reloaded(st, env, sp, reg, mi, isRead, idx);
    ReloadedIntervals(st, env, sp, reg, mi, isRead, idx);
    RewriteUseSpills(st, env, sp, reg, mi, isRead, isWrite, idx);
    SpillForIs(st, env, sp, reg, mi, isRead, isWrite, st3.nextId);
  }

  /** RewriteUse gives the new register the interval NewInterval and leaves
      every other interval alone. */
  lemma RewriteUseInterval(st: MachineState, env: Env, sp: Spiller, reg: Reg, mi: Instr, isRead: bool, isWrite: bool, idx: SlotIndex)
    ensures var r := RewriteUse(st, env, sp, reg, mi, isRead, isWrite, idx);
      && st.nextReg in r.0.intervals && r.0.intervals[st.nextReg] == NewInterval(st, env, reg, mi, isRead, isWrite, idx)
      && (forall q | q in st.intervals && q != st.nextReg :: q in r.0.intervals && r.0.intervals[q] == st.intervals[q])
  {
    RewriteUseIntervals(st, env, sp, reg, mi, isRead, isWrite, idx);
  }

  lemma ReloadedIntervals(st: MachineState, env: Env, sp: Spiller, reg: Reg, mi: Instr, isRead: bool, idx: SlotIndex)
    ensures var s := Reloaded(st, env, sp, reg, mi, isRead, idx);
      && s.intervals == st.intervals[st.nextReg := ReloadedInterval(st, env, isRead, idx)]
      && s.nextId == st.nextId + (if isRead then 1 else 0)
  {
    ReloadedState(st, env, sp, reg, mi, isRead, idx);
  }

  lemma RewriteUseSpills(st: MachineState, env: Env, sp: Spiller, reg: Reg, mi: Instr, isRead: bool, isWrite: bool, idx: SlotIndex)
    ensures var st3 := Reloaded(st, env, sp, reg, mi, isRead, idx);
      var newMI := mi.(ops := RewriteOps(mi.ops, reg, st.nextReg));
      RewriteUse(st, env, sp, reg, mi, isRead, isWrite, idx).0
      == if isWrite && HasLiveDef(mi.ops, reg) then InsertSpill(st3, env, sp, st.nextReg, idx, newMI) else st3
  {
  }

  lemma NewIntervalSpill(st: MachineState, env: Env, reg: Reg, mi: Instr, isRead: bool, isWrite: bool, idx: SlotIndex, n: nat)
    requires isWrite && HasLiveDef(mi.ops, reg) && n == st.nextId + (if isRead then 1 else 0)
    ensures NewInterval(st, env, reg, mi, isRead, isWrite, idx)
      == AddValue(ReloadedInterval(st, env, isRead, idx), idx, idx, DefIndex(env.newIndex(n)))
  {
  }

  lemma UpdateChain<K, V>(m: map<K, V>, m3: map<K, V>, r: map<K, V>, k: K, a: V, b: V)
    requires m3 == m[k := a] && r == m3[k := b]
    ensures r == m[k := b]
  {
  }

  lemma RewriteUseIntervalsSpill(st: MachineState, env: Env, sp: Spiller, reg: Reg, mi: Instr, isRead: bool, isWrite: bool, idx: SlotIndex)
    requires isWrite && HasLiveDef(mi.ops, reg)
    ensures RewriteUse(st, env, sp, reg, mi, isRead, isWrite, idx).0.intervals
      == st.intervals[st.nextReg := NewInterval(st, env, reg, mi, isRead, isWrite, idx)]
  {
    var nr := st.nextReg;
    var st3 := Reloaded(st, env, sp, reg, mi, isRead, idx);
    ReloadedIntervals(st, env, sp, reg, mi, isRead, idx);
    RewriteUseSpills(st, env, sp, reg, mi, isRead, isWrite, idx);
    var li2 := ReloadedInterval(st, env, isRead, idx);
    var newMI := mi.(ops := RewriteOps(mi.ops, reg, nr));
    SpillStepIntervals(st3, env, sp, nr, idx, newMI, li2);
    NewIntervalSpill(st, env, reg, mi, isRead, isWrite, idx, st3.nextId);
    UpdateChain(st.intervals, st3.intervals, InsertSpill(st3, env, sp, nr, idx, newMI).intervals,
                nr, li2, AddValue(li2, idx, idx, DefIndex(env.newIndex(st3.nextId))));
  }

  lemma RewriteUseIntervals(st: MachineState, env: Env, sp: Spiller, reg: Reg, mi: Instr, isRead: bool, isWrite: bool, idx: SlotIndex)
    ensures RewriteUse(st, env, sp, reg, mi, isRead, isWrite, idx).0.intervals
      == st.intervals[st.nextReg := NewInterval(st, env, reg, mi, isRead, isWrite, idx)]
  {
    if isWrite && HasLiveDef(mi.ops, reg) {
      RewriteUseIntervalsSpill(st, env, sp, reg, mi, isRead, isWrite, idx);
    } else {
      ReloadedIntervals(st, env, sp, reg, mi, isRead, idx);
      RewriteUseSpills(st, env, sp, reg, mi, isRead, isWrite, idx);
    }
  }

  /** The new register is not spillable, and is live exactly from the
      reload to the instruction's read and from its write to the spill. */
  lemma NewIntervalLive(st: MachineState, env: Env, reg: Reg, mi: Instr, isRead: bool, isWrite: bool, idx: SlotIndex)
    ensures var spill := isWrite && HasLiveDef(mi.ops, reg);
      var loadIdx := DefIndex(env.newIndex(st.nextId));
      var storeIdx := DefIndex(env.newIndex(st.nextId + (if isRead then 1 else 0)));
      var li := NewInterval(st, env, reg, mi, isRead, isWrite, idx);
      && !li.spillable
      && forall x :: (ValnoAt(li, x).Some? <==> (isRead && loadIdx <= x < idx) || (spill && idx <= x < storeIdx))
  {
    var loadIdx := DefIndex(env.newIndex(st.nextId));
    var spillId := st.nextId + (if isRead then 1 else 0);
    var storeIdx := DefIndex(env.newIndex(spillId));
    var li0 := EmptyInterval.(spillable := false);
    assert WellNumbered(li0);
    var li2 := if isRead then AddValue(li0, loadIdx, loadIdx, idx) else li0;
    if isRead {
      AddValueLookupAll(li0, loadIdx, loadIdx, idx);
    }
    assert forall x :: (ValnoAt(li2, x).Some? <==> isRead && loadIdx <= x < idx);
    if isWrite && HasLiveDef(mi.ops, reg) {
      AddValueLookupAll(li2, idx, idx, storeIdx);
    }
  }

  /** RewriteUse adds the new register to the spill's new registers,
      records the reload and the spill as uses of the slot, and changes
      nothing else but the code, the intervals and the counters. */
  lemma RewriteUseFrame(st: MachineState, env: Env, sp: Spiller, reg: Reg, mi: Instr, isRead: bool, isWrite: bool, idx: SlotIndex)
    ensures var r := RewriteUse(st, env, sp, reg, mi, isRead, isWrite, idx);
      var nr := st.nextReg;
      var spill := isWrite && HasLiveDef(mi.ops, reg);
      var spillId := st.nextId + (if isRead then 1 else 0);
      && r.1 == sp.(newRegs := sp.newRegs + [nr])
      && r.0 == st.(code := r.0.code, intervals := r.0.intervals, originals := r.0.originals, nextReg := nr + 1,
                    nextId := spillId + (if spill then 1 else 0), slotUses := r.0.slotUses)
      && r.0.slotUses == st.slotUses + (if isRead then [(sp.stackSlot, st.nextId)] else [])
                                     + (if spill then [(sp.stackSlot, spillId)] else [])
      && r.0.originals == st.originals[nr := Original(st, reg)]
      && Original(r.0, nr) == Original(st, reg)
  {
    var st3 := Reloaded(st, env, sp, reg, mi, isRead, idx);
    ReloadedState(st, env, sp, reg, mi, isRead, idx);
    if isWrite && HasLiveDef(mi.ops, reg) {
      SpillStepFields(st3, env, sp, st.nextReg, idx, mi.(ops := RewriteOps(mi.ops, reg, st.nextReg)));
    }
  }

  // ---------------------------------------------------------------------
  // One instruction of spillAroundUses.

  /** A DBG_VALUE of a register now in the stack slot: it becomes a frame
      index debug value with a fresh id in the same place, or is erased when
      the target gives none. */
  function SpillDebugValue(st: MachineState, env: Env, sp: Spiller, mi: Instr): (r: MachineState)
    requires mi.opcode.DebugValue?
  {
    match env.frameDebugValue(sp.stackSlot, mi.opcode.offset, mi.opcode.variable)
    case Some(opc) =>
      st.(code := ReplaceId(st.code, mi.id, Instr(st.nextId, opc, [], mi.index, mi.block)), nextId := st.nextId + 1)
    case None => st.(code := EraseId(st.code, mi.id))
  }

  /** The slot where mi reads and writes reg: its def slot, or the def of the
      value live at its use slot when that value is defined by mi itself (a
      tied early clobber). */
  function AccessIndex(st: MachineState, reg: Reg, mi: Instr): SlotIndex {
    var idx := DefIndex(mi.index);
    match ValAt(st, reg, UseIndex(idx))
    case None => idx
    case Some(v) => if SameInstr(idx, Vni(st, v).def) then Vni(st, v).def else idx
  }

  /** The copy with its operand 0 marked dead. */
  function DeadCopy(mi: Instr): Instr {
    if |mi.ops| == 0 then mi else mi.(ops := mi.ops[0 := mi.ops[0].(isDead := true)])
  }

  /** A full copy between reg and a sibling: a copy writing reg has its spill
      hoisted to the sibling value's def, and is then dead and done with; a
      copy reading reg is a reload of the sibling, whose spills downstream
      are redundant. The flag says whether mi is done with. */
  function SiblingCopy(st: MachineState, env: Env, sp: Spiller, reg: Reg, mi: Instr, isWrite: bool, idx: SlotIndex): (r: (MachineState, Spiller, bool)) {
    var sib := IsFullCopyOf(mi, reg);
    if sib == 0 || !IsSibling(st, sp.original, sib) then (st, sp, false)
    else if isWrite then
      var h := HoistSpill(st, env, sp, reg, mi);
      if h.2 then (h.0.(code := Update(h.0.code, DeadCopy(mi))), h.1.(deadDefs := h.1.deadDefs + [mi.id]), true)
      else (st, sp, false)
    else
      match ValAt(st, sib, idx)
      case None => (st, sp, false)
      case Some(v) =>
        var e := EliminateRedundantSpills(st, sp, v);
        (e.0, e.1, false)
  }

  /** The end of the loop body: fold the stack slot into mi, or else rewrite
      mi around a new register. */
  function FoldOrRewrite(st: MachineState, env: Env, sp: Spiller, reg: Reg, mi: Instr, ra: RegAccess, idx: SlotIndex): (r: (MachineState, Spiller)) {
    var f := FoldMemoryOperand(st, env, sp, mi, ra.ops, None);
    if f.1 then (f.0, sp)
    else RewriteUse(st, env, sp, reg, mi, ra.readsReg, ra.writesReg, idx)
  }

  /** The loop body for an instruction that really accesses reg: a sibling
      copy, then the fold or the rewrite. */
  function SpillAccess(st: MachineState, env: Env, sp: Spiller, reg: Reg, mi: Instr): (r: (MachineState, Spiller)) {
    var ra := ReadsWrites(mi, reg);
    var idx := AccessIndex(st, reg, mi);
    var s := SiblingCopy(st, env, sp, reg, mi, ra.writesReg, idx);
    if s.2 then (s.0, s.1)
    else FoldOrRewrite(s.0, env, s.1, reg, mi, ra, idx)
  }

  /** The loop body of spillAroundUses for an instruction referencing reg:
      debug values, snippet copies and coalesced stack accesses first. */
  function SpillUse(st: MachineState, env: Env, sp: Spiller, reg: Reg, mi: Instr): (r: (MachineState, Spiller)) {
    if mi.opcode.DebugValue? then (SpillDebugValue(st, env, sp, mi), sp)
    else if mi.id in sp.snippetCopies then (st, sp)
    else
      var c := CoalesceStackAccess(st, sp, mi, reg);
      if c.1 then (c.0, sp)
      else SpillAccess(st, env, sp, reg, mi)
  }

  /** spillAroundUses over the instructions referencing reg, by id; an
      instruction gone from the code or no longer referencing reg is
      skipped. */
  function SpillAroundUses(st: MachineState, env: Env, sp: Spiller, reg: Reg, ids: seq<nat>): (r: (MachineState, Spiller))
    decreases |ids|
  {
    if |ids| == 0 then (st, sp)
    else
      match FindInstr(st.code, ids[0])
      case None => SpillAroundUses(st, env, sp, reg, ids[1..])
      case Some(mi) =>
        if !References(mi, reg) then SpillAroundUses(st, env, sp, reg, ids[1..])
        else
          var x := SpillUse(st, env, sp, reg, mi);
          SpillAroundUses(x.0, env, x.1, reg, ids[1..])
  }

  /** spillAroundUses for each register, over its instructions at the time
      its turn comes. */
  function SpillRegs(st: MachineState, env: Env, sp: Spiller, regs: seq<Reg>): (r: (MachineState, Spiller))
    decreases |regs|
  {
    if |regs| == 0 then (st, sp)
    else
      var x := SpillAroundUses(st, env, sp, regs[0], Ids(RegInstrs(st.code, regs[0])));
      SpillRegs(x.0, env, x.1, regs[1..])
  }

  // ---------------------------------------------------------------------
  // What spilling around uses keeps.

  /** The stack slot intervals only grow: no slot disappears, a slot other
      than `slot` is untouched, and `slot` keeps its segments as a prefix. */
  predicate StackGrows(a: map<int, seq<Segment>>, b: map<int, seq<Segment>>, slot: int) {
    && a.Keys <= b.Keys
    && (forall s | s in a && s != slot :: b[s] == a[s])
    && (slot in a ==> |a[slot]| <= |b[slot]| && b[slot][..|a[slot]|] == a[slot])
  }

  /** The registers created between a and b: fresh, split from `orig`, and
      unspillable. */
  predicate FreshUnspillable(a: MachineState, b: MachineState, newRegs: seq<Reg>, from: nat, orig: Reg) {
    forall k | from <= k < |newRegs| ::
      && a.nextReg <= newRegs[k] < b.nextReg
      && newRegs[k] in b.intervals && !b.intervals[newRegs[k]].spillable
      && Original(b, newRegs[k]) == orig
  }

  /** What spilling around the uses of reg changes: the code, the stack slot
      intervals (growing), the slot uses, the dead defs (growing) and the
      counters; the intervals and originals of existing registers stay; every
      register it creates is fresh, split from reg's original, and
      unspillable. */
  predicate SpillFrame(st: MachineState, sp: Spiller, orig: Reg, r: (MachineState, Spiller)) {
    && r.1 == sp.(deadDefs := r.1.deadDefs, newRegs := r.1.newRegs)
    && |sp.deadDefs| <= |r.1.deadDefs| && r.1.deadDefs[..|sp.deadDefs|] == sp.deadDefs
    && |sp.newRegs| <= |r.1.newRegs| && r.1.newRegs[..|sp.newRegs|] == sp.newRegs
    && r.0 == st.(code := r.0.code, intervals := r.0.intervals, originals := r.0.originals,
                  stackIntervals := r.0.stackIntervals, slotUses := r.0.slotUses,
                  nextReg := r.0.nextReg, nextId := r.0.nextId)
    && st.nextReg <= r.0.nextReg && st.nextId <= r.0.nextId
    && StackGrows(st.stackIntervals, r.0.stackIntervals, sp.stackSlot)
    && (forall q | q in st.intervals && q < st.nextReg :: q in r.0.intervals && r.0.intervals[q] == st.intervals[q])
    && (forall q: Reg | q < st.nextReg :: Original(r.0, q) == Original(st, q))
    && FreshUnspillable(st, r.0, r.1.newRegs, |sp.newRegs|, orig)
  }

  lemma StackGrowsTrans(a: map<int, seq<Segment>>, b: map<int, seq<Segment>>, c: map<int, seq<Segment>>, slot: int)
    requires StackGrows(a, b, slot) && StackGrows(b, c, slot)
    ensures StackGrows(a, c, slot)
  {
    if slot in a {
      assert c[slot][..|a[slot]|] == c[slot][..|b[slot]|][..|a[slot]|];
    }
  }

  /** What the sibling copy and fold steps change: the code, the stack slot
      intervals (growing), the slot uses, the next id and the dead defs
      (growing). */
  predicate SideFrame(st: MachineState, sp: Spiller, r: (MachineState, Spiller)) {
    && r.0 == st.(code := r.0.code, stackIntervals := r.0.stackIntervals, slotUses := r.0.slotUses, nextId := r.0.nextId)
    && st.nextId <= r.0.nextId
    && StackGrows(st.stackIntervals, r.0.stackIntervals, sp.stackSlot)
    && r.1 == sp.(deadDefs := r.1.deadDefs)
    && |sp.deadDefs| <= |r.1.deadDefs| && r.1.deadDefs[..|sp.deadDefs|] == sp.deadDefs
  }

  lemma SideFrameTrans(st: MachineState, sp: Spiller, x: (MachineState, Spiller), r: (MachineState, Spiller))
    requires SideFrame(st, sp, x) && SideFrame(x.0, x.1, r)
    ensures SideFrame(st, sp, r)
  {
    StackGrowsTrans(st.stackIntervals, x.0.stackIntervals, r.0.stackIntervals, sp.stackSlot);
    assert r.1.deadDefs[..|sp.deadDefs|] == r.1.deadDefs[..|x.1.deadDefs|][..|sp.deadDefs|];
  }

  /** eliminateRedundantSpills only kills stores, queues dead defs and grows
      the stack slot's interval. */
  lemma EliminateFrame(st: MachineState, sp: Spiller, v: Val)
    ensures var e := EliminateRedundantSpills(st, sp, v);
      SideFrame(st, sp, e) && e.0.nextId == st.nextId && e.0.slotUses == st.slotUses
  {
    EliminateLoopCode(st, sp, [v], StartElim(st, sp));
    EliminateLoopStack(st, sp, [v], StartElim(st, sp));
  }

  lemma MergeOrigFrame(st: MachineState, sp: Spiller, idx: SlotIndex)
    ensures SideFrame(st, sp, (MergeOrigValue(st, sp, idx), sp))
  {
  }

  lemma InsertStoreFrame(st: MachineState, sp: Spiller, p: nat, store: Instr)
    requires p <= |st.code|
    ensures SideFrame(st, sp, (st.(code := InsertAt(st.code, p, store), nextId := st.nextId + 1,
                                   slotUses := st.slotUses + [(sp.stackSlot, store.id)]), sp))
  {
  }

  lemma HoistFrame(st: MachineState, env: Env, sp: Spiller, reg: Reg, mi: Instr)
    ensures var h := HoistSpill(st, env, sp, reg, mi);
      SideFrame(st, sp, (h.0, h.1))
  {
    var idx := mi.index;
    match ValAt(st, reg, DefIndex(idx))
    case None =>
    case Some(v) =>
      if v in sp.sibValues {
        var svi := sp.sibValues[v];
        if svi.allDefsAreReloads || svi.spillVal != v {
          var st1 := MergeOrigValue(st, sp, idx);
          MergeOrigFrame(st, sp, idx);
          if !svi.allDefsAreReloads {
            var e := EliminateRedundantSpills(st1, sp, svi.spillVal);
            EliminateFrame(st1, sp, svi.spillVal);
            SideFrameTrans(st, sp, (st1, sp), e);
            match HoistPoint(e.0, env, svi.spillVal)
            case None =>
            case Some(p) =>
              var store := HoistedStore(e.0, env, sp, svi, env.blockOf(Vni(e.0, svi.spillVal).def));
              InsertStoreFrame(e.0, e.1, p, store);
              SideFrameTrans(st, sp, e, (e.0.(code := InsertAt(e.0.code, p, store), nextId := e.0.nextId + 1,
                                              slotUses := e.0.slotUses + [(sp.stackSlot, store.id)]), e.1));
          }
        }
      }
  }

  lemma SiblingCopyFrame(st: MachineState, env: Env, sp: Spiller, reg: Reg, mi: Instr, isWrite: bool, idx: SlotIndex)
    ensures var s := SiblingCopy(st, env, sp, reg, mi, isWrite, idx);
      SideFrame(st, sp, (s.0, s.1))
  {
    var sib := IsFullCopyOf(mi, reg);
    if sib != 0 && IsSibling(st, sp.original, sib) {
      if isWrite {
        HoistFrame(st, env, sp, reg, mi);
      } else if ValAt(st, sib, idx).Some? {
        EliminateFrame(st, sp, ValAt(st, sib, idx).value);
      }
    }
  }

  lemma SideFrameSpill(st: MachineState, sp: Spiller, orig: Reg, r: (MachineState, Spiller))
    requires SideFrame(st, sp, r)
    ensures SpillFrame(st, sp, orig, r)
  {
    assert r.1.newRegs == sp.newRegs;
  }

  lemma SpillFrameTrans(st: MachineState, sp: Spiller, orig: Reg, x: (MachineState, Spiller), r: (MachineState, Spiller))
    requires SpillFrame(st, sp, orig, x) && SpillFrame(x.0, x.1, orig, r)
    ensures SpillFrame(st, sp, orig, r)
  {
    StackGrowsTrans(st.stackIntervals, x.0.stackIntervals, r.0.stackIntervals, sp.stackSlot);
    assert r.1.deadDefs[..|sp.deadDefs|] == r.1.deadDefs[..|x.1.deadDefs|][..|sp.deadDefs|];
    assert r.1.newRegs[..|sp.newRegs|] == r.1.newRegs[..|x.1.newRegs|][..|sp.newRegs|];
    forall k | |sp.newRegs| <= k < |x.1.newRegs|
      ensures && st.nextReg <= r.1.newRegs[k] < r.0.nextReg
              && r.1.newRegs[k] in r.0.intervals && !r.0.intervals[r.1.newRegs[k]].spillable
              && Original(r.0, r.1.newRegs[k]) == orig
    {
      assert r.1.newRegs[k] == r.1.newRegs[..|x.1.newRegs|][k] == x.1.newRegs[k];
    }
  }

  /** Rewriting around a use creates one fresh unspillable register split
      from reg's original and touches nothing else that SpillFrame keeps. */
  lemma RewriteUseSpillFrame(st: MachineState, env: Env, sp: Spiller, reg: Reg, mi: Instr, isRead: bool, isWrite: bool, idx: SlotIndex)
    ensures SpillFrame(st, sp, Original(st, reg), RewriteUse(st, env, sp, reg, mi, isRead, isWrite, idx))
  {
    var r := RewriteUse(st, env, sp, reg, mi, isRead, isWrite, idx);
    RewriteUseFrame(st, env, sp, reg, mi, isRead, isWrite, idx);
    RewriteUseInterval(st, env, sp, reg, mi, isRead, isWrite, idx);
    NewIntervalLive(st, env, reg, mi, isRead, isWrite, idx);
    assert r.1.newRegs[|sp.newRegs|] == st.nextReg;
    assert r.1.newRegs[..|sp.newRegs|] == sp.newRegs;
  }

  lemma FoldOrRewriteFrame(st: MachineState, env: Env, sp: Spiller, reg: Reg, mi: Instr, ra: RegAccess, idx: SlotIndex)
    ensures SpillFrame(st, sp, Original(st, reg), FoldOrRewrite(st, env, sp, reg, mi, ra, idx))
  {
    var r := FoldOrRewrite(st, env, sp, reg, mi, ra, idx);
    if FoldMemoryOperand(st, env, sp, mi, ra.ops, None).1 {
      assert SideFrame(st, sp, r);
      SideFrameSpill(st, sp, Original(st, reg), r);
    } else {
      RewriteUseSpillFrame(st, env, sp, reg, mi, ra.readsReg, ra.writesReg, idx);
    }
  }

  lemma SpillAccessFrame(st: MachineState, env: Env, sp: Spiller, reg: Reg, mi: Instr)
    ensures SpillFrame(st, sp, Original(st, reg), SpillAccess(st, env, sp, reg, mi))
  {
    var orig := Original(st, reg);
    var ra := ReadsWrites(mi, reg);
    var idx := AccessIndex(st, reg, mi);
    var s := SiblingCopy(st, env, sp, reg, mi, ra.writesReg, idx);
    SiblingCopyFrame(st, env, sp, reg, mi, ra.writesReg, idx);
    SideFrameSpill(st, sp, orig, (s.0, s.1));
    if !s.2 {
      FoldOrRewriteFrame(s.0, env, s.1, reg, mi, ra, idx);
      assert Original(s.0, reg) == orig;
      SpillFrameTrans(st, sp, orig, (s.0, s.1), FoldOrRewrite(s.0, env, s.1, reg, mi, ra, idx));
    }
  }

  /** An instruction that is not a debug value, a snippet copy, a coalesced
      stack access or a sibling copy, and that the target does not fold, is
      rewritten in place around a new register: a reload comes right before
      it exactly when it reads reg (a use without <undef>, or a partial
      redefinition without a full one), and a spill right after it exactly
      when it has a live def of reg. */
  lemma SpillUseRewrites(st: MachineState, env: Env, sp: Spiller, reg: Reg, mi: Instr)
    requires FreshIds(st) && PositionOf(st.code, mi.id).Some?
    requires !mi.opcode.DebugValue? && mi.id !in sp.snippetCopies
    requires !CoalesceStackAccess(st, sp, mi, reg).1
    requires IsFullCopyOf(mi, reg) == 0 || !IsSibling(st, sp.original, IsFullCopyOf(mi, reg))
    requires !FoldMemoryOperand(st, env, sp, mi, ReadsWrites(mi, reg).ops, None).1
    ensures var r := SpillUse(st, env, sp, reg, mi);
      var ra := ReadsWrites(mi, reg);
      var p := PositionOf(st.code, mi.id).value;
      var reload := ReloadFor(st, env, sp, mi, ra.readsReg);
      var spill := SpillFor(st, env, sp, reg, mi, ra.readsReg, ra.writesReg);
      && r.0.code == st.code[..p] + OptSeq(reload) + [mi.(ops := RewriteOps(mi.ops, reg, st.nextReg))]
                     + OptSeq(spill) + st.code[p + 1..]
      && (reload.Some? <==> SomeFrom(mi, reg, 0, 0) || (SomeFrom(mi, reg, 0, 1) && !SomeFrom(mi, reg, 0, 2)))
      && (spill.Some? <==> HasLiveDef(mi.ops, reg))
      && r.1 == sp.(newRegs := sp.newRegs + [st.nextReg])
  {
    var ra := ReadsWrites(mi, reg);
    ReadsWritesMeaning(mi, reg);
    RewriteUseCode(st, env, sp, reg, mi, ra.readsReg, ra.writesReg, AccessIndex(st, reg, mi));
    RewriteUseFrame(st, env, sp, reg, mi, ra.readsReg, ra.writesReg, AccessIndex(st, reg, mi));
  }

  lemma SpillUseFrame(st: MachineState, env: Env, sp: Spiller, reg: Reg, mi: Instr)
    ensures SpillFrame(st, sp, Original(st, reg), SpillUse(st, env, sp, reg, mi))
  {
    var r := SpillUse(st, env, sp, reg, mi);
    if mi.opcode.DebugValue? || mi.id in sp.snippetCopies || CoalesceStackAccess(st, sp, mi, reg).1 {
      assert SideFrame(st, sp, r);
      SideFrameSpill(st, sp, Original(st, reg), r);
    } else {
      SpillAccessFrame(st, env, sp, reg, mi);
    }
  }

  /** The loop keeps SpillFrame for an existing register. */
  lemma {:induction false} SpillAroundUsesFrame(st: MachineState, env: Env, sp: Spiller, reg: Reg, ids: seq<nat>)
    requires reg < st.nextReg
    ensures SpillFrame(st, sp, Original(st, reg), SpillAroundUses(st, env, sp, reg, ids))
    decreases |ids|
  {
    var orig := Original(st, reg);
    if |ids| == 0 {
      SideFrameSpill(st, sp, orig, (st, sp));
    } else {
      match FindInstr(st.code, ids[0])
      case None => SpillAroundUsesFrame(st, env, sp, reg, ids[1..]);
      case Some(mi) =>
        if !References(mi, reg) {
          SpillAroundUsesFrame(st, env, sp, reg, ids[1..]);
        } else {
          var x := SpillUse(st, env, sp, reg, mi);
          SpillUseFrame(st, env, sp, reg, mi);
          SpillAroundUsesFrame(x.0, env, x.1, reg, ids[1..]);
          SpillFrameTrans(st, sp, orig, x, SpillAroundUses(x.0, env, x.1, reg, ids[1..]));
        }
    }
  }

  /** The same over all registers to spill, when they share one original. */
  lemma {:induction false} SpillRegsFrame(st: MachineState, env: Env, sp: Spiller, regs: seq<Reg>, orig: Reg)
    requires forall k | 0 <= k < |regs| :: regs[k] < st.nextReg && Original(st, regs[k]) == orig
    ensures SpillFrame(st, sp, orig, SpillRegs(st, env, sp, regs))
    decreases |regs|
  {
    if |regs| == 0 {
      SideFrameSpill(st, sp, orig, (st, sp));
    } else {
      var x := SpillAroundUses(st, env, sp, regs[0], Ids(RegInstrs(st.code, regs[0])));
      SpillAroundUsesFrame(st, env, sp, regs[0], Ids(RegInstrs(st.code, regs[0])));
      SpillRegsFrame(x.0, env, x.1, regs[1..], orig);
      SpillFrameTrans(st, sp, orig, x, SpillRegs(x.0, env, x.1, regs[1..]));
    }
  }

  // ---------------------------------------------------------------------
  // spillAll.

  /** The stack slot of the spill: the original's, or else a new one assigned
      to the original; the register itself is assigned it too when it is not
      the original. The slot has an interval afterwards. */
  function AssignStackSlot(st: MachineState, sp: Spiller): (r: (MachineState, Spiller)) {
    var isNew := sp.stackSlot == NO_STACK_SLOT;
    var slot := if isNew then st.nextSlot else sp.stackSlot;
    var slots := if isNew then st.stackSlots[sp.original := slot] else st.stackSlots;
    var slots' := if sp.original != sp.reg then slots[sp.reg := slot] else slots;
    (st.(stackSlots := slots', nextSlot := if isNew then st.nextSlot + 1 else st.nextSlot,
         stackIntervals := MergeIntoSlot(st.stackIntervals, slot, [])),
     sp.(stackSlot := slot))
  }

  /** The segments of a register's interval (none without an interval). */
  function SegmentsOf(intervals: map<Reg, Interval>, reg: Reg): seq<Segment> {
    if reg in intervals then intervals[reg].segments else []
  }

  /** The segments the registers to spill bring to the stack slot, in order,
      all as its value 0. */
  function SpilledSegments(intervals: map<Reg, Interval>, regs: seq<Reg>): (r: seq<Segment>)
    ensures forall k | 0 <= k < |r| :: r[k].valno == 0
  {
    if |regs| == 0 then [] else AllSegments(SegmentsOf(intervals, regs[0])) + SpilledSegments(intervals, regs[1..])
  }

  /** The merge loop of spillAll, one register at a time. */
  function MergeSpilled(si: map<int, seq<Segment>>, slot: int, intervals: map<Reg, Interval>, regs: seq<Reg>): map<int, seq<Segment>>
    decreases |regs|
  {
    if |regs| == 0 then si
    else MergeSpilled(MergeIntoSlot(si, slot, AllSegments(SegmentsOf(intervals, regs[0]))), slot, intervals, regs[1..])
  }

  /** The merge loop leaves the other slots alone. */
  lemma {:induction false} MergeSpilledOthers(si: map<int, seq<Segment>>, slot: int, intervals: map<Reg, Interval>, regs: seq<Reg>)
    requires slot in si
    ensures var r := MergeSpilled(si, slot, intervals, regs);
      && r.Keys == si.Keys
      && forall s | s in si && s != slot :: r[s] == si[s]
    decreases |regs|
  {
    if |regs| > 0 {
      var si' := MergeIntoSlot(si, slot, AllSegments(SegmentsOf(intervals, regs[0])));
      MergeSpilledOthers(si', slot, intervals, regs[1..]);
    }
  }

  /** The merge loop appends the segments of all registers to the slot's
      interval. */
  lemma {:induction false} MergeSpilledSlot(si: map<int, seq<Segment>>, slot: int, intervals: map<Reg, Interval>, regs: seq<Reg>)
    requires slot in si
    ensures var r := MergeSpilled(si, slot, intervals, regs);
      slot in r && r[slot] == si[slot] + SpilledSegments(intervals, regs)
    decreases |regs|
  {
    if |regs| == 0 {
      assert SpilledSegments(intervals, regs) == [];
    } else {
      var segs := AllSegments(SegmentsOf(intervals, regs[0]));
      var si' := MergeIntoSlot(si, slot, segs);
      var tail := SpilledSegments(intervals, regs[1..]);
      assert MergeSpilled(si, slot, intervals, regs) == MergeSpilled(si', slot, intervals, regs[1..]);
      assert SpilledSegments(intervals, regs) == segs + tail;
      MergeSpilledSlot(si', slot, intervals, regs[1..]);
      AppendAssoc(si[slot], segs, tail);
    }
  }

  /** The merge loop appends the segments of all registers to the slot's
      interval and leaves the other slots alone. */
  lemma MergeSpilledSpec(si: map<int, seq<Segment>>, slot: int, intervals: map<Reg, Interval>, regs: seq<Reg>)
    requires slot in si
    ensures var r := MergeSpilled(si, slot, intervals, regs);
      && r.Keys == si.Keys
      && r[slot] == si[slot] + SpilledSegments(intervals, regs)
      && forall s | s in si && s != slot :: r[s] == si[s]
  {
    MergeSpilledOthers(si, slot, intervals, regs);
    MergeSpilledSlot(si, slot, intervals, regs);
  }

  /** The code without the instructions referencing reg. */
  function Unreferencing(code: seq<Instr>, reg: Reg): (r: seq<Instr>)
    ensures forall k | 0 <= k < |r| :: !References(r[k], reg) && r[k] in code
    ensures forall mi | mi in code && !References(mi, reg) :: mi in r
  {
    if |code| == 0 then []
    else (if References(code[0], reg) then [] else [code[0]]) + Unreferencing(code[1..], reg)
  }

  /** The recorded slot uses without those of erased instructions
      (VirtRegMap::RemoveMachineInstrFromMaps). */
  function DropSlotUses(uses: seq<(int, nat)>, ids: set<nat>): (r: seq<(int, nat)>)
    ensures forall k | 0 <= k < |r| :: r[k] in uses && r[k].1 !in ids
    ensures forall u | u in uses && u.1 !in ids :: u in r
  {
    if |uses| == 0 then []
    else (if uses[0].1 in ids then [] else [uses[0]]) + DropSlotUses(uses[1..], ids)
  }

  /** The ids of the instructions referencing reg. */
  function ReferencingIds(code: seq<Instr>, reg: Reg): set<nat> {
    set mi | mi in code && References(mi, reg) :: mi.id
  }

  /** The dead defs, if any, handed to LiveRangeEdit::eliminateDeadDefs,
      which empties the list. */
  function EliminateDead(st: MachineState, env: Env, sp: Spiller): (MachineState, Spiller) {
    if |sp.deadDefs| == 0 then (st, sp)
    else
      var e := env.eliminateDeadDefs(st.code, st.intervals, sp.deadDefs);
      (st.(code := e.0, intervals := e.1), sp.(deadDefs := []))
  }

  /** The first part of spillAll: take the stack slot, merge the intervals
      of the registers to spill into its interval, spill around their uses,
      and eliminate the dead defs. */
  function SpillAllUses(st: MachineState, env: Env, sp: Spiller): (r: (MachineState, Spiller)) {
    var a := AssignStackSlot(st, sp);
    var st1 := a.0.(stackIntervals := MergeSpilled(a.0.stackIntervals, a.1.stackSlot, a.0.intervals, sp.regsToSpill));
    var x := SpillRegs(st1, env, a.1, sp.regsToSpill);
    EliminateDead(x.0, env, x.1)
  }

  /** The last part: erase the instructions still referencing the register
      (the snippet copies), with their slot uses, and the intervals of the
      spilled registers. */
  function EraseSpilled(st: MachineState, reg: Reg, regs: seq<Reg>): (r: MachineState) {
    st.(code := Unreferencing(st.code, reg), slotUses := DropSlotUses(st.slotUses, ReferencingIds(st.code, reg)),
        intervals := st.intervals - Elems(regs))
  }

  /** spillAll. */
  function SpillAll(st: MachineState, env: Env, sp: Spiller): (r: (MachineState, Spiller)) {
    var y := SpillAllUses(st, env, sp);
    (EraseSpilled(y.0, sp.reg, sp.regsToSpill), y.1)
  }

  /** Erasing leaves no instruction referencing reg and keeps every other
      one, keeps the slot uses of the instructions kept, and leaves no
      interval to the registers; nothing else changes. */
  lemma EraseSpilledSpec(st: MachineState, reg: Reg, regs: seq<Reg>)
    ensures var r := EraseSpilled(st, reg, regs);
      && r == st.(code := r.code, slotUses := r.slotUses, intervals := r.intervals)
      && (forall k | 0 <= k < |r.code| :: !References(r.code[k], reg))
      && (forall mi | mi in st.code && !References(mi, reg) :: mi in r.code)
      && (forall u | u in st.slotUses && u.1 !in ReferencingIds(st.code, reg) :: u in r.slotUses)
      && (forall q | q in regs :: q !in r.intervals)
      && (forall q | q in st.intervals && q !in regs :: q in r.intervals && r.intervals[q] == st.intervals[q])
  {
  }

  /** The slot spillAll uses. */
  function ChosenSlot(st: MachineState, sp: Spiller): int {
    if sp.stackSlot == NO_STACK_SLOT then st.nextSlot else sp.stackSlot
  }

  /** Taking the stack slot assigns it to the original (when it is new) and
      to the register (when it is not the original), and makes sure it has
      an interval. */
  lemma AssignStackSlotSpec(st: MachineState, sp: Spiller)
    ensures var r := AssignStackSlot(st, sp);
      var slot := ChosenSlot(st, sp);
      && r.1 == sp.(stackSlot := slot)
      && r.0 == st.(stackSlots := r.0.stackSlots, nextSlot := r.0.nextSlot, stackIntervals := r.0.stackIntervals)
      && (sp.stackSlot == NO_STACK_SLOT ==>
            sp.original in r.0.stackSlots && r.0.stackSlots[sp.original] == slot && r.0.nextSlot == st.nextSlot + 1)
      && (sp.stackSlot != NO_STACK_SLOT ==> r.0.nextSlot == st.nextSlot)
      && (sp.original != sp.reg ==> sp.reg in r.0.stackSlots && r.0.stackSlots[sp.reg] == slot)
      && (forall q | q in st.stackSlots && q != sp.reg && q != sp.original :: q in r.0.stackSlots && r.0.stackSlots[q] == st.stackSlots[q])
      && r.0.stackIntervals == st.stackIntervals[slot := if slot in st.stackIntervals then st.stackIntervals[slot] else []]
  {
    var slot := ChosenSlot(st, sp);
    var prior: seq<Segment> := if slot in st.stackIntervals then st.stackIntervals[slot] else [];
    assert prior + [] == prior;
  }

  /** Before the uses are spilled, the slot's interval is its old segments
      followed by those of every register to spill. */
  lemma SpillAllMerged(st: MachineState, sp: Spiller)
    ensures var a := AssignStackSlot(st, sp);
      var slot := ChosenSlot(st, sp);
      var m := MergeSpilled(a.0.stackIntervals, a.1.stackSlot, a.0.intervals, sp.regsToSpill);
      && slot in m
      && m[slot] == (if slot in st.stackIntervals then st.stackIntervals[slot] else []) + SpilledSegments(st.intervals, sp.regsToSpill)
      && forall s | s in st.stackIntervals && s != slot :: s in m && m[s] == st.stackIntervals[s]
  {
    var a := AssignStackSlot(st, sp);
    AssignStackSlotSpec(st, sp);
    MergeSpilledSpec(a.0.stackIntervals, a.1.stackSlot, a.0.intervals, sp.regsToSpill);
  }

  /** Eliminating the dead defs touches only the code and the intervals, and
      empties the queue. */
  lemma EliminateDeadFrame(st: MachineState, env: Env, sp: Spiller)
    ensures var y := EliminateDead(st, env, sp);
      y.0 == st.(code := y.0.code, intervals := y.0.intervals) && y.1 == sp.(deadDefs := [])
  {
  }

  /** Merging and spilling around the uses: the spill has its slot, the slot is
      assigned, and the slot's interval starts with the merged segments. */
  lemma SpillRegsAfterMerge(st: MachineState, env: Env, sp: Spiller)
    ensures var a := AssignStackSlot(st, sp);
      var st1 := a.0.(stackIntervals := MergeSpilled(a.0.stackIntervals, a.1.stackSlot, a.0.intervals, sp.regsToSpill));
      var x := SpillRegs(st1, env, a.1, sp.regsToSpill);
      var slot := ChosenSlot(st, sp);
      var merged := (if slot in st.stackIntervals then st.stackIntervals[slot] else []) + SpilledSegments(st.intervals, sp.regsToSpill);
      && x.1 == sp.(stackSlot := slot, deadDefs := x.1.deadDefs, newRegs := x.1.newRegs)
      && (sp.stackSlot == NO_STACK_SLOT ==> sp.original in x.0.stackSlots && x.0.stackSlots[sp.original] == slot)
      && (sp.original != sp.reg ==> sp.reg in x.0.stackSlots && x.0.stackSlots[sp.reg] == slot)
      && slot in x.0.stackIntervals
      && |merged| <= |x.0.stackIntervals[slot]| && x.0.stackIntervals[slot][..|merged|] == merged
  {
    var a := AssignStackSlot(st, sp);
    AssignStackSlotSpec(st, sp);
    SpillAllMerged(st, sp);
    var st1 := a.0.(stackIntervals := MergeSpilled(a.0.stackIntervals, a.1.stackSlot, a.0.intervals, sp.regsToSpill));
    SpillRegsStack(st1, env, a.1, sp.regsToSpill);
  }

  /** Before the erasing, the spill has its slot and has no dead defs left,
      the slot is assigned, and the slot's interval starts with its old
      segments followed by those of every register to spill, as they were
      before spilling. */
  lemma SpillAllUsesSpec(st: MachineState, env: Env, sp: Spiller)
    ensures var r := SpillAllUses(st, env, sp);
      var slot := ChosenSlot(st, sp);
      var merged := (if slot in st.stackIntervals then st.stackIntervals[slot] else []) + SpilledSegments(st.intervals, sp.regsToSpill);
      && r.1 == sp.(stackSlot := slot, deadDefs := [], newRegs := r.1.newRegs)
      && (sp.stackSlot == NO_STACK_SLOT ==> sp.original in r.0.stackSlots && r.0.stackSlots[sp.original] == slot)
      && (sp.original != sp.reg ==> sp.reg in r.0.stackSlots && r.0.stackSlots[sp.reg] == slot)
      && slot in r.0.stackIntervals
      && |merged| <= |r.0.stackIntervals[slot]| && r.0.stackIntervals[slot][..|merged|] == merged
  {
    var a := AssignStackSlot(st, sp);
    var st1 := a.0.(stackIntervals := MergeSpilled(a.0.stackIntervals, a.1.stackSlot, a.0.intervals, sp.regsToSpill));
    var x := SpillRegs(st1, env, a.1, sp.regsToSpill);
    SpillRegsAfterMerge(st, env, sp);
    EliminateDeadFrame(x.0, env, x.1);
  }

  /** After spillAll no instruction references the register, no register to
      spill has an interval, and the slot facts above still hold. */
  lemma SpillAllSpec(st: MachineState, env: Env, sp: Spiller)
    ensures var r := SpillAll(st, env, sp);
      var slot := ChosenSlot(st, sp);
      var merged := (if slot in st.stackIntervals then st.stackIntervals[slot] else []) + SpilledSegments(st.intervals, sp.regsToSpill);
      && (forall k | 0 <= k < |r.0.code| :: !References(r.0.code[k], sp.reg))
      && (forall q | q in sp.regsToSpill :: q !in r.0.intervals)
      && r.1 == sp.(stackSlot := slot, deadDefs := [], newRegs := r.1.newRegs)
      && (sp.stackSlot == NO_STACK_SLOT ==> sp.original in r.0.stackSlots && r.0.stackSlots[sp.original] == slot)
      && (sp.original != sp.reg ==> sp.reg in r.0.stackSlots && r.0.stackSlots[sp.reg] == slot)
      && slot in r.0.stackIntervals
      && |merged| <= |r.0.stackIntervals[slot]| && r.0.stackIntervals[slot][..|merged|] == merged
  {
    var y := SpillAllUses(st, env, sp);
    SpillAllUsesSpec(st, env, sp);
    EraseSpilledSpec(y.0, sp.reg, sp.regsToSpill);
  }

  /** Spilling around uses keeps the spill's identity, the stack slot
      assignments, and grows the stack slot intervals. */
  lemma {:induction false} SpillRegsStack(st: MachineState, env: Env, sp: Spiller, regs: seq<Reg>)
    ensures var r := SpillRegs(st, env, sp, regs);
      && r.1 == sp.(deadDefs := r.1.deadDefs, newRegs := r.1.newRegs)
      && r.0.stackSlots == st.stackSlots
      && StackGrows(st.stackIntervals, r.0.stackIntervals, sp.stackSlot)
    decreases |regs|
  {
    if |regs| > 0 {
      var x := SpillAroundUses(st, env, sp, regs[0], Ids(RegInstrs(st.code, regs[0])));
      SpillAroundUsesStack(st, env, sp, regs[0], Ids(RegInstrs(st.code, regs[0])));
      SpillRegsStack(x.0, env, x.1, regs[1..]);
      StackGrowsTrans(st.stackIntervals, x.0.stackIntervals, SpillRegs(x.0, env, x.1, regs[1..]).0.stackIntervals, sp.stackSlot);
    }
  }

  lemma {:induction false} SpillAroundUsesStack(st: MachineState, env: Env, sp: Spiller, reg: Reg, ids: seq<nat>)
    ensures var r := SpillAroundUses(st, env, sp, reg, ids);
      && r.1 == sp.(deadDefs := r.1.deadDefs, newRegs := r.1.newRegs)
      && r.0.stackSlots == st.stackSlots
      && StackGrows(st.stackIntervals, r.0.stackIntervals, sp.stackSlot)
    decreases |ids|
  {
    if |ids| > 0 {
      match FindInstr(st.code, ids[0])
      case None => SpillAroundUsesStack(st, env, sp, reg, ids[1..]);
      case Some(mi) =>
        if !References(mi, reg) {
          SpillAroundUsesStack(st, env, sp, reg, ids[1..]);
        } else {
          var x := SpillUse(st, env, sp, reg, mi);
          SpillUseFrame(st, env, sp, reg, mi);
          SpillAroundUsesStack(x.0, env, x.1, reg, ids[1..]);
          StackGrowsTrans(st.stackIntervals, x.0.stackIntervals, SpillAroundUses(x.0, env, x.1, reg, ids[1..]).0.stackIntervals, sp.stackSlot);
        }
    }
  }

  // ---------------------------------------------------------------------
  // spill: the whole of one spill.

  /** The spiller as spill() starts it: the register, its original, the
      original's stack slot (NO_STACK_SLOT when it has none) and nothing
      collected yet. */
  function StartSpill(st: MachineState, reg: Reg): Spiller {
    var original := Original(st, reg);
    Spiller(reg, original, if original in st.stackSlots then st.stackSlots[original] else NO_STACK_SLOT,
            [], {}, {}, map[], [], {}, false, {}, [])
  }

  /** spill: collect the registers to spill, analyze their values,
      rematerialize what can be, and spill whatever is left. */
  function Spill(st: MachineState, env: Env, reg: Reg): (MachineState, Spiller) {
    var x := Rematted(st, env, reg);
    if |x.1.regsToSpill| == 0 then x else SpillAll(x.0, env, x.1)
  }

  /** The state after the first three phases of spill. */
  function Rematted(st: MachineState, env: Env, reg: Reg): (MachineState, Spiller) {
    var sp := StartSpill(st, reg);
    var sp1 := CollectRegsToSpill(st, env, sp);
    var sp2 := AnalyzeSiblingValues(st, env, sp1);
    ReMaterializeAll(st, env, sp2)
  }

  /** Before remat, the spiller holds the collected registers, starting
      with the register itself, and no dead defs. */
  lemma SpillPrepared(st: MachineState, env: Env, reg: Reg)
    ensures var sp := StartSpill(st, reg);
      var sp1 := CollectRegsToSpill(st, env, sp);
      var sp2 := AnalyzeSiblingValues(st, env, sp1);
      && sp2.reg == reg && sp2.original == Original(st, reg) && sp2.stackSlot == sp.stackSlot
      && sp2.deadDefs == [] && sp2.regsToSpill == sp1.regsToSpill
      && |sp1.regsToSpill| >= 1 && sp1.regsToSpill[0] == reg
  {
    var sp := StartSpill(st, reg);
    var sp1 := CollectRegsToSpill(st, env, sp);
    CollectRegsToSpillSpec(st, env, sp);
    if sp1.reg != sp1.original {
      AnalyzeRegsFrame(st, env, sp1.(sibValues := map[]), sp1.regsToSpill);
    }
  }

  /** After spill, every register left to spill is gone, and when remat
      handled everything, so is every collected register and the stack is
      untouched. Otherwise no instruction mentions the register any more,
      and the register and its original share one stack slot: the
      original's own when it had one, a new one assigned to the original
      when it had none. */
  lemma SpillSpec(st: MachineState, env: Env, reg: Reg)
    ensures var r := Spill(st, env, reg);
      var collected := CollectRegsToSpill(st, env, StartSpill(st, reg)).regsToSpill;
      var original := Original(st, reg);
      && r.1.reg == reg && r.1.original == original && r.1.deadDefs == []
      && (forall q | q in r.1.regsToSpill :: q in collected && q !in r.0.intervals)
      && (|r.1.regsToSpill| == 0 ==>
            && (forall q | q in collected :: q !in r.0.intervals)
            && r.0.stackSlots == st.stackSlots && r.0.stackIntervals == st.stackIntervals)
      && (|r.1.regsToSpill| > 0 ==>
            && (forall k | 0 <= k < |r.0.code| :: !References(r.0.code[k], reg))
            && (original in st.stackSlots && st.stackSlots[original] != NO_STACK_SLOT ==>
                  r.1.stackSlot == st.stackSlots[original])
            && (original !in st.stackSlots ==>
                  original in r.0.stackSlots && r.0.stackSlots[original] == r.1.stackSlot)
            && (original != reg ==> reg in r.0.stackSlots && r.0.stackSlots[reg] == r.1.stackSlot)
            && r.1.stackSlot in r.0.stackIntervals)
  {
    var x := Rematted(st, env, reg);
    if |x.1.regsToSpill| == 0 {
      SpillRematted(st, env, reg);
      assert Spill(st, env, reg) == x;
    } else {
      SpillSpilled(st, env, reg, x);
      assert Spill(st, env, reg) == SpillAll(x.0, env, x.1);
    }
  }

  /** When remat leaves nothing to spill, every collected register is gone and
      the stack is untouched. */
  lemma SpillRematted(st: MachineState, env: Env, reg: Reg)
    requires |Rematted(st, env, reg).1.regsToSpill| == 0
    ensures var r := Rematted(st, env, reg);
      && r.1.reg == reg && r.1.original == Original(st, reg) && r.1.deadDefs == []
      && (forall q | q in CollectRegsToSpill(st, env, StartSpill(st, reg)).regsToSpill :: q !in r.0.intervals)
      && r.0.stackSlots == st.stackSlots && r.0.stackIntervals == st.stackIntervals
  {
    var sp := StartSpill(st, reg);
    var sp1 := CollectRegsToSpill(st, env, sp);
    var sp2 := AnalyzeSiblingValues(st, env, sp1);
    SpillPrepared(st, env, reg);
    var x := ReMaterializeAll(st, env, sp2);
    ReMaterializeAllSpec(st, env, sp2);
    assert x.1.regsToSpill != sp2.regsToSpill;
    forall q | q in sp1.regsToSpill
      ensures q !in x.0.intervals
    {
      assert q !in KeptRegs(x.0.intervals, sp2.regsToSpill);
    }
  }

  /** When registers are left to spill, spillAll removes every reference to
      the register and shares one stack slot between it and its original. */
  lemma SpillSpilled(st: MachineState, env: Env, reg: Reg, x: (MachineState, Spiller))
    requires x == Rematted(st, env, reg) && |x.1.regsToSpill| > 0
    ensures var r := SpillAll(x.0, env, x.1);
      var collected := CollectRegsToSpill(st, env, StartSpill(st, reg)).regsToSpill;
      var original := Original(st, reg);
      && r.1.reg == reg && r.1.original == original && r.1.deadDefs == []
      && r.1.regsToSpill == x.1.regsToSpill
      && (forall q | q in r.1.regsToSpill :: q in collected && q !in r.0.intervals)
      && (forall k | 0 <= k < |r.0.code| :: !References(r.0.code[k], reg))
      && (original in st.stackSlots && st.stackSlots[original] != NO_STACK_SLOT ==>
            r.1.stackSlot == st.stackSlots[original])
      && (original !in st.stackSlots ==>
            original in r.0.stackSlots && r.0.stackSlots[original] == r.1.stackSlot)
      && (original != reg ==> reg in r.0.stackSlots && r.0.stackSlots[reg] == r.1.stackSlot)
      && r.1.stackSlot in r.0.stackIntervals
  {
    var sp := StartSpill(st, reg);
    var sp1 := CollectRegsToSpill(st, env, sp);
    var sp2 := AnalyzeSiblingValues(st, env, sp1);
    SpillPrepared(st, env, reg);
    ReMaterializeAllSpec(st, env, sp2);
    SpillAllSpec(x.0, env, x.1);
    forall q | q in x.1.regsToSpill
      ensures q in sp1.regsToSpill
    {
    }
  }
}
