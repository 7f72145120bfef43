/*
 * The per-instruction pieces of spilling (InlineSpiller.cpp, "Spilling"):
 * which operands of an instruction read or write a register, removing a
 * stack access that became a no-op, folding the stack slot into an
 * instruction, and inserting a reload before or a spill after an
 * instruction together with the live range of the new register.
 */
module StackAccess {
  import opened Optional
  import opened SpillMachine

  // ---------------------------------------------------------------------
  // MachineInstr::readsWritesVirtualRegister.

  /** A use that is not <undef>: it reads the register. */
  predicate IsReadingUse(o: Operand) {
    !o.isDef && !o.isUndef
  }

  /** A def of a subregister that is not <undef>: it reads the rest of the register. */
  predicate IsPartialDef(o: Operand) {
    o.isDef && o.subReg != 0 && !o.isUndef
  }

  predicate IsFullDef(o: Operand) {
    o.isDef && !IsPartialDef(o)
  }

  /** The indices from i on of the operands naming reg, in ascending order. */
  function RegOps(mi: Instr, reg: Reg, i: nat): (r: seq<nat>)
    ensures forall k | 0 <= k < |r| :: i <= r[k] < |mi.ops| && mi.ops[r[k]].reg == reg
    ensures forall k, l | 0 <= k < l < |r| :: r[k] < r[l]
    ensures forall j | i <= j < |mi.ops| && mi.ops[j].reg == reg :: j in r
    decreases |mi.ops| - i
  {
    if i >= |mi.ops| then []
    else (if mi.ops[i].reg == reg then [i] else []) + RegOps(mi, reg, i + 1)
  }

  /** The flags of the operand loop from index i on: (reads, writes). */
  function ScanFlags(mi: Instr, reg: Reg, i: nat, use: bool, partDef: bool, fullDef: bool): (bool, bool)
    decreases |mi.ops| - i
  {
    if i >= |mi.ops| then (use || (partDef && !fullDef), partDef || fullDef)
    else
      var o := mi.ops[i];
      if o.reg != reg then ScanFlags(mi, reg, i + 1, use, partDef, fullDef)
      else if !o.isDef then ScanFlags(mi, reg, i + 1, use || !o.isUndef, partDef, fullDef)
      else if o.subReg != 0 && !o.isUndef then ScanFlags(mi, reg, i + 1, use, true, fullDef)
      else ScanFlags(mi, reg, i + 1, use, partDef, true)
  }

  datatype RegAccess = RegAccess(readsReg: bool, writesReg: bool, ops: seq<nat>)

  function ReadsWrites(mi: Instr, reg: Reg): RegAccess {
    var f := ScanFlags(mi, reg, 0, false, false, false);
    RegAccess(f.0, f.1, RegOps(mi, reg, 0))
  }

  /** Some operand from index i on names reg and is of the given kind:
      0 a reading use, 1 a partial def, 2 a full def. */
  predicate SomeFrom(mi: Instr, reg: Reg, i: nat, kind: nat) {
    exists k | i <= k < |mi.ops| :: mi.ops[k].reg == reg &&
      (if kind == 0 then IsReadingUse(mi.ops[k]) else if kind == 1 then IsPartialDef(mi.ops[k]) else IsFullDef(mi.ops[k]))
  }

  lemma {:induction false} ScanFlagsMeaning(mi: Instr, reg: Reg, i: nat, use: bool, partDef: bool, fullDef: bool)
    ensures var r := ScanFlags(mi, reg, i, use, partDef, fullDef);
      && (r.0 <==> (use || SomeFrom(mi, reg, i, 0))
                   || ((partDef || SomeFrom(mi, reg, i, 1)) && !(fullDef || SomeFrom(mi, reg, i, 2))))
      && (r.1 <==> partDef || fullDef || SomeFrom(mi, reg, i, 1) || SomeFrom(mi, reg, i, 2))
    decreases |mi.ops| - i
  {
    if i < |mi.ops| {
      var o := mi.ops[i];
      if o.reg != reg {
        ScanFlagsMeaning(mi, reg, i + 1, use, partDef, fullDef);
      } else if !o.isDef {
        ScanFlagsMeaning(mi, reg, i + 1, use || !o.isUndef, partDef, fullDef);
      } else if o.subReg != 0 && !o.isUndef {
        ScanFlagsMeaning(mi, reg, i + 1, use, true, fullDef);
      } else {
        ScanFlagsMeaning(mi, reg, i + 1, use, partDef, true);
      }
      forall kind | 0 <= kind <= 2
        ensures SomeFrom(mi, reg, i, kind) <==>
          (o.reg == reg && (if kind == 0 then IsReadingUse(o) else if kind == 1 then IsPartialDef(o) else IsFullDef(o)))
          || SomeFrom(mi, reg, i + 1, kind)
      {
        if SomeFrom(mi, reg, i, kind) {
          var k :| i <= k < |mi.ops| && mi.ops[k].reg == reg &&
            (if kind == 0 then IsReadingUse(mi.ops[k]) else if kind == 1 then IsPartialDef(mi.ops[k]) else IsFullDef(mi.ops[k]));
          if k > i {
            assert SomeFrom(mi, reg, i + 1, kind);
          }
        }
      }
    }
  }

  /** readsWritesVirtualRegister: the instruction reads reg when an operand
      naming it is a use without <undef>, or when it partially redefines it
      without also fully defining it; it writes reg when an operand naming it
      is a def; and ops lists every operand naming reg. */
  lemma ReadsWritesMeaning(mi: Instr, reg: Reg)
    ensures var r := ReadsWrites(mi, reg);
      && (r.readsReg <==> SomeFrom(mi, reg, 0, 0) || (SomeFrom(mi, reg, 0, 1) && !SomeFrom(mi, reg, 0, 2)))
      && (r.writesReg <==> exists k | 0 <= k < |mi.ops| :: mi.ops[k].reg == reg && mi.ops[k].isDef)
      && (forall k | 0 <= k < |r.ops| :: r.ops[k] < |mi.ops| && mi.ops[r.ops[k]].reg == reg)
      && (forall j | 0 <= j < |mi.ops| && mi.ops[j].reg == reg :: j in r.ops)
  {
    ScanFlagsMeaning(mi, reg, 0, false, false, false);
    if exists k | 0 <= k < |mi.ops| :: mi.ops[k].reg == reg && mi.ops[k].isDef {
      var k :| 0 <= k < |mi.ops| && mi.ops[k].reg == reg && mi.ops[k].isDef;
      if IsPartialDef(mi.ops[k]) {
        assert SomeFrom(mi, reg, 0, 1);
      } else {
        assert SomeFrom(mi, reg, 0, 2);
      }
    }
  }

  // ---------------------------------------------------------------------
  // coalesceStackAccess.

  /** coalesceStackAccess: a load of reg from the stack slot or a store of it
      there is a no-op once reg lives in that slot, and is erased. */
  function CoalesceStackAccess(st: MachineState, sp: Spiller, mi: Instr, reg: Reg): (r: (MachineState, bool))
    ensures r.1 <==> reg != 0 && (IsReloadOf(mi, reg, sp.stackSlot) || IsSpillOf(mi, reg, sp.stackSlot))
    ensures !r.1 ==> r.0 == st
    ensures r.1 ==> r.0 == st.(code := EraseId(st.code, mi.id))
  {
    var instrReg := if StackLoadReg(mi) != 0 then StackLoadReg(mi) else StackStoreReg(mi);
    if instrReg == 0 then (st, false)
    else if instrReg != reg || mi.opcode.slot != sp.stackSlot then (st, false)
    else (st.(code := EraseId(st.code, mi.id)), true)
  }

  // ---------------------------------------------------------------------
  // foldMemoryOperand.

  /** A use tied to a def (MachineInstr::isRegTiedToDefOperand). */
  predicate IsTiedUse(o: Operand) {
    !o.isDef && o.tiedToDef
  }

  /** An operand foldMemoryOperand refuses: an explicit one with a subregister
      index, or an explicit def when a load is folded. */
  predicate BlocksFold(o: Operand, withLoad: bool) {
    !o.isImplicit && (o.subReg != 0 || (withLoad && o.isDef))
  }

  /** The operands passed to the target: the explicit, untied ones; nothing
      when one of them blocks folding. */
  function FoldOps(mi: Instr, ops: seq<nat>, withLoad: bool): (r: Option<seq<nat>>)
    ensures r.None? <==> exists k | 0 <= k < |ops| :: BlocksFold(Op(mi, ops[k]), withLoad)
    ensures r.Some? ==> forall x :: x in r.value <==> x in ops && !Op(mi, x).isImplicit && !IsTiedUse(Op(mi, x))
  {
    if |ops| == 0 then Some([])
    else
      var o := Op(mi, ops[0]);
      var rest := FoldOps(mi, ops[1..], withLoad);
      assert forall k | 1 <= k < |ops| :: ops[k] == ops[1..][k - 1];
      if BlocksFold(o, withLoad) then None
      else if rest.None? then None
      else if o.isImplicit || IsTiedUse(o) then rest
      else Some([ops[0]] + rest.value)
  }

  /** foldMemoryOperand: fold the stack slot, or the load loadMI, into the
      operands ops of mi. On success the folded instruction takes mi's place
      and slot index with a fresh id, and a fold of the stack slot is recorded
      as a use of the slot. */
  function FoldMemoryOperand(st: MachineState, env: Env, sp: Spiller, mi: Instr, ops: seq<nat>, loadMI: Option<Instr>): (r: (MachineState, bool))
    ensures var f := FoldOps(mi, ops, loadMI.Some?);
      && (r.1 <==> f.Some? && (if loadMI.Some? then env.foldLoad(mi, f.value, loadMI.value)
                               else env.foldIntoSlot(mi, f.value, sp.stackSlot)).Some?)
    ensures !r.1 ==> r.0 == st
    ensures r.1 ==>
      && r.0 == st.(code := r.0.code, nextId := st.nextId + 1, slotUses := r.0.slotUses)
      && r.0.slotUses == st.slotUses + (if loadMI.None? then [(sp.stackSlot, st.nextId)] else [])
      && exists opc, nops :: r.0.code == ReplaceId(st.code, mi.id, Instr(st.nextId, opc, nops, mi.index, mi.block))
  {
    match FoldOps(mi, ops, loadMI.Some?)
    case None => (st, false)
    case Some(foldOps) =>
      var folded := if loadMI.Some? then env.foldLoad(mi, foldOps, loadMI.value)
                    else env.foldIntoSlot(mi, foldOps, sp.stackSlot);
      match folded
      case None => (st, false)
      case Some(f) =>
        var foldMI := Instr(st.nextId, f.0, f.1, mi.index, mi.block);
        (st.(code := ReplaceId(st.code, mi.id, foldMI), nextId := st.nextId + 1,
             slotUses := st.slotUses + (if loadMI.None? then [(sp.stackSlot, foldMI.id)] else [])), true)
  }

  // ---------------------------------------------------------------------
  // insertReload and insertSpill.

  /** Every segment of the interval names one of its values. */
  predicate WellNumbered(li: Interval) {
    forall k | 0 <= k < |li.segments| :: li.segments[k].valno < |li.values|
  }

  /** getNextValue followed by addRange: a new value defined at def, live on [start, end). */
  function AddValue(li: Interval, def: SlotIndex, start: SlotIndex, end: SlotIndex): Interval {
    li.(values := li.values + [VNInfo(def, false, false, false)],
        segments := li.segments + [Segment(start, end, |li.values|)])
  }

  lemma {:induction false} SegmentValnoAppend(segs: seq<Segment>, n: nat, t: Segment, idx: SlotIndex)
    requires forall k | 0 <= k < |segs| :: segs[k].valno < n
    requires t.valno == n
    ensures SegmentValno(segs + [t], n + 1, idx) ==
      (if SegmentValno(segs, n, idx).Some? then SegmentValno(segs, n, idx)
       else if t.start <= idx < t.end then Some(n) else None)
    decreases |segs|
  {
    if |segs| == 0 {
      assert segs + [t] == [t];
      assert [t][1..] == [];
    } else {
      assert (segs + [t])[1..] == segs[1..] + [t];
      SegmentValnoAppend(segs[1..], n, t, idx);
    }
  }

  /** The new value is what a well-numbered interval holds on the new range
      wherever it held nothing before; elsewhere nothing changes. */
  lemma AddValueLookup(li: Interval, def: SlotIndex, start: SlotIndex, end: SlotIndex, idx: SlotIndex)
    requires WellNumbered(li)
    ensures WellNumbered(AddValue(li, def, start, end))
    ensures ValnoAt(AddValue(li, def, start, end), idx) ==
      (if ValnoAt(li, idx).Some? then ValnoAt(li, idx)
       else if start <= idx < end then Some(|li.values|) else None)
  {
    SegmentValnoAppend(li.segments, |li.values|, Segment(start, end, |li.values|), idx);
  }

  lemma AddValueLookupAll(li: Interval, def: SlotIndex, start: SlotIndex, end: SlotIndex)
    requires WellNumbered(li)
    ensures WellNumbered(AddValue(li, def, start, end))
    ensures forall idx ::
      (ValnoAt(AddValue(li, def, start, end), idx) ==
       if ValnoAt(li, idx).Some? then ValnoAt(li, idx)
       else if start <= idx < end then Some(|li.values|) else None)
  {
    forall idx ensures ValnoAt(AddValue(li, def, start, end), idx) ==
      (if ValnoAt(li, idx).Some? then ValnoAt(li, idx)
       else if start <= idx < end then Some(|li.values|) else None)
    {
      AddValueLookup(li, def, start, end, idx);
    }
  }

  function IntervalOf(st: MachineState, reg: Reg): Interval {
    if reg in st.intervals then st.intervals[reg] else EmptyInterval
  }

  /** The code with x inserted right before position p. */
  predicate InsertedBefore(code: seq<Instr>, r: seq<Instr>, p: nat, x: Instr) {
    p < |code| && |r| == |code| + 1 && r[p] == x && r[..p] == code[..p] && r[p + 1..] == code[p..]
  }

  /** insertReload: a load of newReg from the stack slot right before mi,
      recorded as a use of the slot, and a new value of newReg from the load
      to idx. */
  function InsertReload(st: MachineState, env: Env, sp: Spiller, newReg: Reg, idx: SlotIndex, mi: Instr): MachineState {
    var load := Instr(st.nextId, StackLoad(sp.stackSlot), [DefOf(newReg)], env.newIndex(st.nextId), mi.block);
    var loadIdx := DefIndex(load.index);
    st.(code := InsertBefore(st.code, mi.id, load),
        slotUses := st.slotUses + [(sp.stackSlot, load.id)],
        nextId := st.nextId + 1,
        intervals := st.intervals[newReg := AddValue(IntervalOf(st, newReg), loadIdx, loadIdx, idx)])
  }

  /** The reload is a load of newReg from the slot, in mi's block and with a
      fresh id, right before mi; newReg gets a new value, defined at the
      load's def slot, that it holds from there up to idx wherever it held
      nothing. */
  lemma InsertReloadSpec(st: MachineState, env: Env, sp: Spiller, newReg: Reg, idx: SlotIndex, mi: Instr)
    ensures var r := InsertReload(st, env, sp, newReg, idx, mi);
      && r == st.(code := r.code, intervals := r.intervals, slotUses := r.slotUses, nextId := st.nextId + 1)
      && r.slotUses == st.slotUses + [(sp.stackSlot, st.nextId)]
      && (PositionOf(st.code, mi.id).None? ==> r.code == st.code)
      && (PositionOf(st.code, mi.id).Some? ==>
            var p := PositionOf(st.code, mi.id).value;
            && |r.code| == |st.code| + 1
            && InsertedBefore(st.code, r.code, p, r.code[p])
            && IsReloadOf(r.code[p], newReg, sp.stackSlot) && r.code[p].id == st.nextId && r.code[p].block == mi.block)
      && newReg in r.intervals
      && (forall q | q in st.intervals && q != newReg :: q in r.intervals && r.intervals[q] == st.intervals[q])
      && r.intervals[newReg].spillable == IntervalOf(st, newReg).spillable
    ensures WellNumbered(IntervalOf(st, newReg)) ==>
      var r := InsertReload(st, env, sp, newReg, idx, mi);
      var li := IntervalOf(st, newReg);
      var loadIdx := DefIndex(env.newIndex(st.nextId));
      && WellNumbered(r.intervals[newReg])
      && r.intervals[newReg].values == li.values + [VNInfo(loadIdx, false, false, false)]
      && forall x :: ValnoAt(r.intervals[newReg], x) ==
           (if ValnoAt(li, x).Some? then ValnoAt(li, x) else if loadIdx <= x < idx then Some(|li.values|) else None)
  {
    var li := IntervalOf(st, newReg);
    if WellNumbered(li) {
      var loadIdx := DefIndex(env.newIndex(st.nextId));
      AddValueLookupAll(li, loadIdx, loadIdx, idx);
    }
  }

  /** insertSpill: a store of newReg, killing it, to the stack slot right
      after mi, recorded as a use of the slot, and a new value of newReg from
      idx to the store. */
  function InsertSpill(st: MachineState, env: Env, sp: Spiller, newReg: Reg, idx: SlotIndex, mi: Instr): MachineState {
    var store := Instr(st.nextId, StackStore(sp.stackSlot), [UseOf(newReg, true)], env.newIndex(st.nextId), mi.block);
    var storeIdx := DefIndex(store.index);
    st.(code := InsertAfter(st.code, mi.id, store),
        slotUses := st.slotUses + [(sp.stackSlot, store.id)],
        nextId := st.nextId + 1,
        intervals := st.intervals[newReg := AddValue(IntervalOf(st, newReg), idx, idx, storeIdx)])
  }

  /** The spill is a killing store of newReg to the slot, in mi's block and
      with a fresh id, right after mi; newReg gets a new value, defined at
      idx, that it holds from there up to the store's def slot wherever it
      held nothing. */
  lemma InsertSpillSpec(st: MachineState, env: Env, sp: Spiller, newReg: Reg, idx: SlotIndex, mi: Instr)
    ensures var r := InsertSpill(st, env, sp, newReg, idx, mi);
      && r == st.(code := r.code, intervals := r.intervals, slotUses := r.slotUses, nextId := st.nextId + 1)
      && r.slotUses == st.slotUses + [(sp.stackSlot, st.nextId)]
      && (PositionOf(st.code, mi.id).None? ==> r.code == st.code)
      && (PositionOf(st.code, mi.id).Some? ==>
            var p := PositionOf(st.code, mi.id).value;
            && |r.code| == |st.code| + 1
            && r.code[..p + 1] == st.code[..p + 1] && r.code[p + 2..] == st.code[p + 1..]
            && IsSpillOf(r.code[p + 1], newReg, sp.stackSlot) && r.code[p + 1].ops == [UseOf(newReg, true)]
            && r.code[p + 1].id == st.nextId && r.code[p + 1].block == mi.block)
      && newReg in r.intervals
      && (forall q | q in st.intervals && q != newReg :: q in r.intervals && r.intervals[q] == st.intervals[q])
      && r.intervals[newReg].spillable == IntervalOf(st, newReg).spillable
    ensures WellNumbered(IntervalOf(st, newReg)) ==>
      var r := InsertSpill(st, env, sp, newReg, idx, mi);
      var li := IntervalOf(st, newReg);
      var storeIdx := DefIndex(env.newIndex(st.nextId));
      && WellNumbered(r.intervals[newReg])
      && r.intervals[newReg].values == li.values + [VNInfo(idx, false, false, false)]
      && forall x :: ValnoAt(r.intervals[newReg], x) ==
           (if ValnoAt(li, x).Some? then ValnoAt(li, x) else if idx <= x < storeIdx then Some(|li.values|) else None)
  {
    var li := IntervalOf(st, newReg);
    if WellNumbered(li) {
      var storeIdx := DefIndex(env.newIndex(st.nextId));
      AddValueLookupAll(li, idx, idx, storeIdx);
    }
  }
}
