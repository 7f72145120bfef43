/*
 * Rematerialization (InlineSpiller.cpp, "Rematerialization"): before a use
 * of a register to spill, the value it reads is recomputed from a cheap
 * defining instruction instead of reloaded from the stack; values whose
 * remat failed are remembered as used, and the defs of the others become
 * dead and are deleted.
 */
module Remat {
  import opened Optional
  import opened SpillMachine
  import opened SiblingAnalysis
  import opened StackAccess

  // ---------------------------------------------------------------------
  // markValueUsed.

  /** The values a used value keeps alive: for a PHI-def the values live out
      of the predecessors of its block, for a value a snippet copy defines the
      value the copy reads, else none. */
  function UsedSources(st: MachineState, env: Env, sp: Spiller, v: Val): (r: seq<Val>)
    requires HasVal(st, v)
    ensures forall k | 0 <= k < |r| :: HasVal(st, r[k])
  {
    var vni := Vni(st, v);
    if vni.isPHIDef then PhiInputs(st, env, v)
    else
      match InstrAtIndex(st.code, vni.def)
      case None => []
      case Some(mi) =>
        if mi.id !in sp.snippetCopies then []
        else
          match ValAt(st, Op(mi, 1).reg, UseIndex(vni.def))
          case None => []
          case Some(w) => [w]
  }

  /** The worklist loop of markValueUsed, popping from the back. */
  function MarkLoop(st: MachineState, env: Env, sp: Spiller, worklist: seq<Val>, used: set<Val>): set<Val>
    requires forall k | 0 <= k < |worklist| :: HasVal(st, worklist[k])
    decreases |AllVals(st.intervals) - used|, |worklist|
  {
    if |worklist| == 0 then used
    else
      var v := worklist[|worklist| - 1];
      var rest := worklist[..|worklist| - 1];
      if v in used then MarkLoop(st, env, sp, rest, used)
      else
        InAllVals(st, v);
        VisitShrinks(AllVals(st.intervals), used, v);
        MarkLoop(st, env, sp, rest + UsedSources(st, env, sp, v), used + {v})
  }

  /** markValueUsed: v failed to rematerialize, so its def (and the defs it
      depends on through PHIs and snippet copies) must stay. */
  function MarkValueUsed(st: MachineState, env: Env, sp: Spiller, v: Val): (r: Spiller)
    requires HasVal(st, v)
    ensures r == sp.(usedValues := r.usedValues)
  {
    sp.(usedValues := MarkLoop(st, env, sp, [v], sp.usedValues))
  }

  /** Every value the loop adds to the used set has all its sources in S. */
  predicate SourcesIn(st: MachineState, env: Env, sp: Spiller, v: Val, s: set<Val>) {
    HasVal(st, v) && forall w | w in UsedSources(st, env, sp, v) :: w in s
  }

  lemma {:induction false} MarkLoopCovers(st: MachineState, env: Env, sp: Spiller, worklist: seq<Val>, used: set<Val>)
    requires forall k | 0 <= k < |worklist| :: HasVal(st, worklist[k])
    ensures var r := MarkLoop(st, env, sp, worklist, used);
      used <= r && forall w | w in worklist :: w in r
    decreases |AllVals(st.intervals) - used|, |worklist|
  {
    if |worklist| > 0 {
      var v := worklist[|worklist| - 1];
      var rest := worklist[..|worklist| - 1];
      assert forall w | w in worklist :: w in rest || w == v;
      if v in used {
        MarkLoopCovers(st, env, sp, rest, used);
      } else {
        InAllVals(st, v);
        VisitShrinks(AllVals(st.intervals), used, v);
        var next := rest + UsedSources(st, env, sp, v);
        MarkLoopCovers(st, env, sp, next, used + {v});
        assert forall w | w in rest :: w in next;
      }
    }
  }

  lemma {:induction false} MarkLoopClosed(st: MachineState, env: Env, sp: Spiller, worklist: seq<Val>, used: set<Val>)
    requires forall k | 0 <= k < |worklist| :: HasVal(st, worklist[k])
    ensures var r := MarkLoop(st, env, sp, worklist, used);
      forall v | v in r && v !in used :: SourcesIn(st, env, sp, v, r)
    decreases |AllVals(st.intervals) - used|, |worklist|
  {
    if |worklist| > 0 {
      var v := worklist[|worklist| - 1];
      var rest := worklist[..|worklist| - 1];
      if v in used {
        MarkLoopClosed(st, env, sp, rest, used);
      } else {
        InAllVals(st, v);
        VisitShrinks(AllVals(st.intervals), used, v);
        var next := rest + UsedSources(st, env, sp, v);
        MarkLoopClosed(st, env, sp, next, used + {v});
        MarkLoopCovers(st, env, sp, next, used + {v});
        var r := MarkLoop(st, env, sp, next, used + {v});
        forall w | w in UsedSources(st, env, sp, v) ensures w in r {
          assert w in next;
        }
        assert SourcesIn(st, env, sp, v, r);
      }
    }
  }

  /** The loop adds nothing beyond a set that holds the worklist and is
      closed under sources outside the starting set. */
  lemma {:induction false} MarkLoopLeast(st: MachineState, env: Env, sp: Spiller, worklist: seq<Val>, used: set<Val>, s: set<Val>)
    requires forall k | 0 <= k < |worklist| :: HasVal(st, worklist[k])
    requires used <= s && forall w | w in worklist :: w in s
    requires forall w | w in s && w !in used && HasVal(st, w) :: SourcesIn(st, env, sp, w, s)
    ensures MarkLoop(st, env, sp, worklist, used) <= s
    decreases |AllVals(st.intervals) - used|, |worklist|
  {
    if |worklist| > 0 {
      var v := worklist[|worklist| - 1];
      var rest := worklist[..|worklist| - 1];
      assert v in s;
      if v in used {
        MarkLoopLeast(st, env, sp, rest, used, s);
      } else {
        InAllVals(st, v);
        VisitShrinks(AllVals(st.intervals), used, v);
        var next := rest + UsedSources(st, env, sp, v);
        assert SourcesIn(st, env, sp, v, s);
        assert forall k | 0 <= k < |next| :: next[k] in s by {
          forall k | 0 <= k < |next| ensures next[k] in s {
            if k < |rest| { assert next[k] in worklist; } else { assert next[k] in UsedSources(st, env, sp, v); }
          }
        }
        MarkLoopLeast(st, env, sp, next, used + {v}, s);
      }
    }
  }

  /** markValueUsed adds v and is the least extension of the used set that
      holds v and is closed under PHI inputs and snippet copy sources. */
  lemma MarkValueUsedSpec(st: MachineState, env: Env, sp: Spiller, v: Val)
    requires HasVal(st, v)
    ensures var r := MarkValueUsed(st, env, sp, v).usedValues;
      && sp.usedValues <= r && v in r
      && (forall w | w in r && w !in sp.usedValues :: SourcesIn(st, env, sp, w, r))
  {
    MarkLoopCovers(st, env, sp, [v], sp.usedValues);
    MarkLoopClosed(st, env, sp, [v], sp.usedValues);
  }

  lemma MarkValueUsedLeast(st: MachineState, env: Env, sp: Spiller, v: Val, s: set<Val>)
    requires HasVal(st, v)
    requires sp.usedValues <= s && v in s
    requires forall w | w in s && w !in sp.usedValues && HasVal(st, w) :: SourcesIn(st, env, sp, w, s)
    ensures MarkValueUsed(st, env, sp, v).usedValues <= s
  {
    MarkLoopLeast(st, env, sp, [v], sp.usedValues, s);
  }

  // ---------------------------------------------------------------------
  // reMaterializeFor.

  /** An operand that reads reg. */
  predicate ReadsReg(o: Operand, reg: Reg) {
    o.reg == reg && !o.isDef
  }

  /** Set the undef flag on every operand reading reg. */
  function MarkUndef(ops: seq<Operand>, reg: Reg): (r: seq<Operand>)
    ensures |r| == |ops|
    ensures forall j | 0 <= j < |ops| :: r[j] == if ReadsReg(ops[j], reg) then ops[j].(isUndef := true) else ops[j]
  {
    if |ops| == 0 then []
    else [if ReadsReg(ops[0], reg) then ops[0].(isUndef := true) else ops[0]] + MarkUndef(ops[1..], reg)
  }

  /** Make every operand reading `from` a killing read of `to`. */
  function RenameUses(ops: seq<Operand>, from: Reg, to: Reg): (r: seq<Operand>)
    ensures |r| == |ops|
    ensures forall j | 0 <= j < |ops| :: r[j] == if ReadsReg(ops[j], from) then ops[j].(reg := to, isKill := true) else ops[j]
  {
    if |ops| == 0 then []
    else [if ReadsReg(ops[0], from) then ops[0].(reg := to, isKill := true) else ops[0]] + RenameUses(ops[1..], from, to)
  }

  /** After the renaming, nothing reads `from` any more. */
  lemma RenameUsesClears(mi: Instr, from: Reg, to: Reg)
    requires from != to
    ensures !ReadsOperand(mi.(ops := RenameUses(mi.ops, from, to)), from)
    ensures ReadsOperand(mi, from) ==> ReadsOperand(mi.(ops := RenameUses(mi.ops, from, to)), to)
  {
    var r := RenameUses(mi.ops, from, to);
    if ReadsOperand(mi, from) {
      var i :| 0 <= i < |mi.ops| && mi.ops[i].reg == from && !mi.ops[i].isDef;
      assert r[i].reg == to && !r[i].isDef;
    }
  }

  /** Replace every operand naming `from` by one naming `to`
      (MachineInstr::substituteRegister). */
  function Substitute(ops: seq<Operand>, from: Reg, to: Reg): (r: seq<Operand>)
    ensures |r| == |ops|
    ensures forall j | 0 <= j < |ops| :: r[j] == if ops[j].reg == from then ops[j].(reg := to) else ops[j]
  {
    if |ops| == 0 then []
    else [if ops[0].reg == from then ops[0].(reg := to) else ops[0]] + Substitute(ops[1..], from, to)
  }

  /** The instruction a value is rematerialized from and the index it is
      checked at: the template traceSiblingValue found, at its own index, or
      else the instruction defining the value, at the def. */
  function RematOrigin(st: MachineState, sp: Spiller, pv: Val): (r: Option<(Instr, SlotIndex)>)
    requires HasVal(st, pv)
    ensures r.None? ==> InstrAtIndex(st.code, Vni(st, pv).def).None?
  {
    if pv in sp.sibValues && sp.sibValues[pv].defMI.Some? then
      Some((sp.sibValues[pv].defMI.value, sp.sibValues[pv].defMI.value.index))
    else
      match InstrAtIndex(st.code, Vni(st, pv).def)
      case None => None
      case Some(mi) => Some((mi, Vni(st, pv).def))
  }

  /** LiveRangeEdit::canRematerializeAt: the value is remattable, its origin
      is known, and everything the origin reads at its index is still there
      unchanged at the use. */
  predicate CanRematerializeAt(st: MachineState, env: Env, sp: Spiller, pv: Val, useIdx: SlotIndex)
    requires HasVal(st, pv)
  {
    && pv in sp.remattable
    && RematOrigin(st, sp, pv).Some?
    && env.usesAvailableAt(RematOrigin(st, sp, pv).value.0, RematOrigin(st, sp, pv).value.1, useIdx)
  }

  /** An instruction that also writes the register may not need the same
      register for a use and a def: a tied use or a sub-register def in the
      operand list blocks the remat. */
  predicate TiedBlocked(mi: Instr, ra: RegAccess) {
    ra.writesReg && exists k | 0 <= k < |ra.ops| :: IsTiedUse(Op(mi, ra.ops[k])) || (Op(mi, ra.ops[k]).isDef && Op(mi, ra.ops[k]).subReg != 0)
  }

  /** TargetInstrInfo::reMaterialize followed by the index of the copy: a copy
      of the origin defining newReg instead of the origin's operand 0. */
  function RematClone(st: MachineState, env: Env, origin: Instr, newReg: Reg, block: nat): Instr {
    Instr(st.nextId, origin.opcode, Substitute(origin.ops, Op(origin, 0).reg, newReg), env.newIndex(st.nextId), block)
  }

  /** The last step of reMaterializeFor: a new register split from the
      original, the copy of the origin defining it right before mi, mi reading
      the new register (killing it) instead of virtReg, and the new register
      live from the copy's def to mi. */
  function RematerializeAt(st: MachineState, env: Env, sp: Spiller, virtReg: Reg, mi: Instr, pv: Val, origin: Instr): (r: (MachineState, Spiller))
    ensures var nr := st.nextReg;
      var clone := RematClone(st, env, origin, nr, mi.block);
      var defIdx := DefIndex(clone.index);
      && r.1 == sp.(rematted := sp.rematted + {pv}, newRegs := sp.newRegs + [nr])
      && r.0 == st.(code := r.0.code, intervals := r.0.intervals, originals := r.0.originals,
                    nextReg := nr + 1, nextId := st.nextId + 1)
      && Original(r.0, nr) == Original(st, sp.original)
      && r.0.intervals.Keys == st.intervals.Keys + {nr}
      && (forall q | q in st.intervals && q != nr :: r.0.intervals[q] == st.intervals[q])
      && !r.0.intervals[nr].spillable
      && r.0.intervals[nr].values == [VNInfo(defIdx, false, false, false)]
      && (forall x :: ValnoAt(r.0.intervals[nr], x) == if defIdx <= x < DefIndex(UseIndex(mi.index)) then Some(0) else None)
      && (PositionOf(st.code, mi.id).None? ==> r.0.code == st.code)
      && (PositionOf(st.code, mi.id).Some? ==>
            InsertedBefore(Update(st.code, mi.(ops := RenameUses(mi.ops, virtReg, nr))), r.0.code,
                           PositionOf(st.code, mi.id).value, clone))
  {
    var x := CreateFrom(st, sp.original);
    var nr := x.1;
    var clone := RematClone(st, env, origin, nr, mi.block);
    var defIdx := DefIndex(clone.index);
    var useMI := mi.(ops := RenameUses(mi.ops, virtReg, nr));
    var li := EmptyInterval.(spillable := false);
    AddValueLookupAll(li, defIdx, defIdx, DefIndex(UseIndex(mi.index)));
    var code := Update(st.code, useMI);
    assert PositionOf(code, mi.id) == PositionOf(st.code, mi.id) by { SameIdsSamePositions(code, st.code, mi.id); }
    (x.0.(code := InsertBefore(code, mi.id, clone), nextId := st.nextId + 1,
          intervals := x.0.intervals[nr := AddValue(li, defIdx, defIdx, DefIndex(UseIndex(mi.index)))]),
     sp.(rematted := sp.rematted + {pv}, newRegs := sp.newRegs + [nr]))
  }

  /** reMaterializeFor: true when the use no longer needs a reload of
      virtReg, because virtReg holds no value there (the reads become undef)
      or the value was rematerialized or folded into mi; a value that could
      not be rematerialized is marked used. */
  function ReMaterializeFor(st: MachineState, env: Env, sp: Spiller, virtReg: Reg, mi: Instr): (r: (MachineState, Spiller, bool))
    ensures var pv := ValAt(st, virtReg, UseIndex(mi.index));
      r.2 <==> pv.None? || (mi.id !in sp.snippetCopies && CanRematerializeAt(st, env, sp, pv.value, UseIndex(mi.index))
                           && !TiedBlocked(mi, ReadsWrites(mi, virtReg)))
    ensures ValAt(st, virtReg, UseIndex(mi.index)).None? ==>
      r.1 == sp && r.0 == st.(code := Update(st.code, mi.(ops := MarkUndef(mi.ops, virtReg))))
    ensures !r.2 ==> r.0 == st && r.1 == sp.(usedValues := r.1.usedValues)
    ensures !r.2 && mi.id in sp.snippetCopies ==> r.1 == sp
    ensures !r.2 && mi.id !in sp.snippetCopies ==>
      var pv := ValAt(st, virtReg, UseIndex(mi.index)).value;
      r.1 == MarkValueUsed(st, env, sp, pv)
    ensures r.2 && ValAt(st, virtReg, UseIndex(mi.index)).Some? ==>
      var pv := ValAt(st, virtReg, UseIndex(mi.index)).value;
      var origin := RematOrigin(st, sp, pv).value.0;
      var fold := FoldMemoryOperand(st, env, sp, mi, ReadsWrites(mi, virtReg).ops, Some(origin));
      if CanFoldAsLoad(origin) && fold.1 then r.0 == fold.0 && r.1 == sp.(rematted := sp.rematted + {pv})
      else (r.0, r.1) == RematerializeAt(st, env, sp, virtReg, mi, pv, origin)
  {
    var useIdx := UseIndex(mi.index);
    match ValAt(st, virtReg, useIdx)
    case None => (st.(code := Update(st.code, mi.(ops := MarkUndef(mi.ops, virtReg)))), sp, true)
    case Some(pv) =>
      if mi.id in sp.snippetCopies then (st, sp, false)
      else if !CanRematerializeAt(st, env, sp, pv, useIdx) then (st, MarkValueUsed(st, env, sp, pv), false)
      else
        var ra := ReadsWrites(mi, virtReg);
        if TiedBlocked(mi, ra) then (st, MarkValueUsed(st, env, sp, pv), false)
        else
          var origin := RematOrigin(st, sp, pv).value.0;
          var fold := if CanFoldAsLoad(origin) then FoldMemoryOperand(st, env, sp, mi, ra.ops, Some(origin)) else (st, false);
          if fold.1 then (fold.0, sp.(rematted := sp.rematted + {pv}), true)
          else
            var x := RematerializeAt(st, env, sp, virtReg, mi, pv, origin);
            (x.0, x.1, true)
  }

  /** reMaterializeFor only adds to the used values, the rematerialized
      values and the new registers of the spill. */
  predicate RematFrame(a: Spiller, b: Spiller) {
    && b == a.(usedValues := b.usedValues, rematted := b.rematted, newRegs := b.newRegs)
    && a.usedValues <= b.usedValues && a.rematted <= b.rematted && a.newRegs <= b.newRegs
  }

  /** ... and only touches the code, the intervals and the fresh register
      and id counters of the function. */
  predicate StateFrame(a: MachineState, b: MachineState) {
    b == a.(code := b.code, intervals := b.intervals, originals := b.originals, nextReg := b.nextReg, nextId := b.nextId)
  }

  lemma ReMaterializeForFrame(st: MachineState, env: Env, sp: Spiller, virtReg: Reg, mi: Instr)
    ensures RematFrame(sp, ReMaterializeFor(st, env, sp, virtReg, mi).1)
    ensures StateFrame(st, ReMaterializeFor(st, env, sp, virtReg, mi).0)
  {
    var useIdx := UseIndex(mi.index);
    match ValAt(st, virtReg, useIdx)
    case None =>
    case Some(pv) =>
      MarkValueUsedSpec(st, env, sp, pv);
  }

  // ---------------------------------------------------------------------
  // reMaterializeAll.

  /** A value LiveRangeEdit::scanRemattable offers to checkRematerializable:
      a used value with a defining instruction that is trivially
      rematerializable. */
  predicate ScanCandidate(st: MachineState, env: Env, v: Val) {
    && HasVal(st, v) && !Vni(st, v).isUnused
    && InstrAtIndex(st.code, Vni(st, v).def).Some?
    && env.rematerializable(InstrAtIndex(st.code, Vni(st, v).def).value)
  }

  /** The values from number k on of reg, offered in turn. */
  function ScanRemattable(st: MachineState, env: Env, sp: Spiller, reg: Reg, k: nat): (r: Spiller)
    requires reg in st.intervals
    ensures r == sp.(remattable := r.remattable, scannedRemattable := r.scannedRemattable)
    ensures forall w :: w in r.remattable <==>
      w in sp.remattable || (w.reg == reg && k <= w.valno && ScanCandidate(st, env, w))
    decreases |st.intervals[reg].values| - k
  {
    if k >= |st.intervals[reg].values| then sp
    else
      var v := Val(reg, k);
      var vni := Vni(st, v);
      var sp1 := if vni.isUnused then sp
                 else match InstrAtIndex(st.code, vni.def)
                      case None => sp
                      case Some(mi) => CheckRematerializable(env, sp, v, mi);
      ScanRemattable(st, env, sp1, reg, k + 1)
  }

  /** LiveRangeEdit::anyRematerializable: scan the values of the register
      being spilled unless that was done, and tell whether any value is
      remattable. */
  function AnyRematerializable(st: MachineState, env: Env, sp: Spiller): (r: (Spiller, bool))
    ensures r.1 <==> r.0.remattable != {}
    ensures r.0 == sp.(remattable := r.0.remattable, scannedRemattable := true)
    ensures sp.scannedRemattable ==> r.0 == sp
    ensures !sp.scannedRemattable ==> forall w :: w in r.0.remattable <==>
      w in sp.remattable || (w.reg == sp.reg && ScanCandidate(st, env, w))
  {
    var sp1 := if sp.scannedRemattable then sp
               else if sp.reg in st.intervals then ScanRemattable(st, env, sp, sp.reg, 0).(scannedRemattable := true)
               else sp.(scannedRemattable := true);
    (sp1, sp1.remattable != {})
  }

  /** The remat loop over the uses of one register, by instruction id; an
      instruction gone from the code is skipped. */
  function RematUses(st: MachineState, env: Env, sp: Spiller, reg: Reg, ids: seq<nat>, any: bool): (r: (MachineState, Spiller, bool))
    decreases |ids|
  {
    if |ids| == 0 then (st, sp, any)
    else
      match FindInstr(st.code, ids[0])
      case None => RematUses(st, env, sp, reg, ids[1..], any)
      case Some(mi) =>
        var x := ReMaterializeFor(st, env, sp, reg, mi);
        RematUses(x.0, env, x.1, reg, ids[1..], any || x.2)
  }

  /** The remat loop over the registers to spill, each over its uses at the
      time its turn comes. */
  function RematRegs(st: MachineState, env: Env, sp: Spiller, regs: seq<Reg>, any: bool): (r: (MachineState, Spiller, bool))
    decreases |regs|
  {
    if |regs| == 0 then (st, sp, any)
    else
      var x := RematUses(st, env, sp, regs[0], Ids(UseInstrsNoDbg(st.code, regs[0])), any);
      RematRegs(x.0, env, x.1, regs[1..], x.2)
  }

  lemma {:induction false} RematUsesFrame(st: MachineState, env: Env, sp: Spiller, reg: Reg, ids: seq<nat>, any: bool)
    ensures var r := RematUses(st, env, sp, reg, ids, any);
      RematFrame(sp, r.1) && StateFrame(st, r.0) && (any ==> r.2)
    decreases |ids|
  {
    if |ids| > 0 {
      match FindInstr(st.code, ids[0])
      case None => RematUsesFrame(st, env, sp, reg, ids[1..], any);
      case Some(mi) =>
        var x := ReMaterializeFor(st, env, sp, reg, mi);
        ReMaterializeForFrame(st, env, sp, reg, mi);
        RematUsesFrame(x.0, env, x.1, reg, ids[1..], any || x.2);
    }
  }

  lemma {:induction false} RematRegsFrame(st: MachineState, env: Env, sp: Spiller, regs: seq<Reg>, any: bool)
    ensures var r := RematRegs(st, env, sp, regs, any);
      RematFrame(sp, r.1) && StateFrame(st, r.0) && (any ==> r.2)
    decreases |regs|
  {
    if |regs| > 0 {
      var x := RematUses(st, env, sp, regs[0], Ids(UseInstrsNoDbg(st.code, regs[0])), any);
      RematUsesFrame(st, env, sp, regs[0], Ids(UseInstrsNoDbg(st.code, regs[0])), any);
      RematRegsFrame(x.0, env, x.1, regs[1..], x.2);
    }
  }

  // Values remat made dead.

  /** Operand j is the first def naming reg (register 0 names nothing). */
  predicate IsFirstDef(ops: seq<Operand>, reg: Reg, j: int) {
    && 0 <= j < |ops| && reg != 0 && ops[j].reg == reg && ops[j].isDef
    && forall k | 0 <= k < j :: !(ops[k].reg == reg && ops[k].isDef)
  }

  /** MachineInstr::addRegisterDead for a virtual register, without adding an
      implicit operand when none is found: the first def of reg is marked
      dead (if it already is, the instruction is left as it is). */
  function MarkDead(ops: seq<Operand>, reg: Reg): (r: seq<Operand>)
    ensures |r| == |ops|
    ensures forall j | 0 <= j < |ops| :: r[j] == if IsFirstDef(ops, reg, j) then ops[j].(isDead := true) else ops[j]
  {
    if |ops| == 0 then []
    else if reg != 0 && ops[0].reg == reg && ops[0].isDef then [ops[0].(isDead := true)] + ops[1..]
    else
      var rest := MarkDead(ops[1..], reg);
      assert forall j | 1 <= j < |ops| :: IsFirstDef(ops, reg, j) == IsFirstDef(ops[1..], reg, j - 1);
      [ops[0]] + rest
  }

  /** MachineInstr::allDefsAreDead. */
  predicate AllDefsDead(mi: Instr) {
    forall j | 0 <= j < |mi.ops| :: mi.ops[j].isDef ==> mi.ops[j].isDead
  }

  /** The first def of reg in the instruction, if there is one, is dead. */
  predicate FirstDefDead(mi: Instr, reg: Reg) {
    forall j | 0 <= j < |mi.ops| && IsFirstDef(mi.ops, reg, j) :: mi.ops[j].isDead
  }

  /** A value remat left without readers: used, not a PHI-def, and not
      marked used by a failed remat. */
  predicate Unneeded(st: MachineState, sp: Spiller, v: Val) {
    HasVal(st, v) && !Vni(st, v).isUnused && !Vni(st, v).isPHIDef && v !in sp.usedValues
  }

  /** One value of the loop removing completely rematted values: the defs of
      its register in its defining instruction become dead, and the
      instruction is queued for deletion when nothing it defines is live. */
  function DeadValue(st: MachineState, sp: Spiller, v: Val): (MachineState, Spiller)
    requires HasVal(st, v)
  {
    if !Unneeded(st, sp, v) then (st, sp)
    else
      match PositionAtIndex(st.code, Vni(st, v).def)
      case None => (st, sp)
      case Some(q) =>
        var mi := st.code[q].(ops := MarkDead(st.code[q].ops, v.reg));
        (st.(code := st.code[q := mi]), if AllDefsDead(mi) then sp.(deadDefs := sp.deadDefs + [mi.id]) else sp)
  }

  function DeadValues(st: MachineState, sp: Spiller, reg: Reg, k: nat): (MachineState, Spiller)
    requires reg in st.intervals
    decreases |st.intervals[reg].values| - k
  {
    if k >= |st.intervals[reg].values| then (st, sp)
    else
      var x := DeadValue(st, sp, Val(reg, k));
      assert x.0.intervals == st.intervals;
      DeadValues(x.0, x.1, reg, k + 1)
  }

  function DeadRegs(st: MachineState, sp: Spiller, regs: seq<Reg>): (MachineState, Spiller)
    decreases |regs|
  {
    if |regs| == 0 then (st, sp)
    else if regs[0] !in st.intervals then DeadRegs(st, sp, regs[1..])
    else
      var x := DeadValues(st, sp, regs[0], 0);
      DeadRegs(x.0, x.1, regs[1..])
  }

  /** Code b is code a with some defs marked dead and nothing else changed. */
  predicate OnlyDeadFlags(a: seq<Instr>, b: seq<Instr>) {
    && |a| == |b|
    && forall p | 0 <= p < |a| ::
         && b[p] == a[p].(ops := b[p].ops) && |b[p].ops| == |a[p].ops|
         && forall j | 0 <= j < |a[p].ops| ::
              b[p].ops[j] == a[p].ops[j] || (a[p].ops[j].isDef && b[p].ops[j] == a[p].ops[j].(isDead := true))
  }

  /** Some instruction with the id has all its defs dead. */
  predicate DeadIn(code: seq<Instr>, id: nat) {
    exists p | 0 <= p < |code| :: code[p].id == id && AllDefsDead(code[p])
  }

  /** What the dead-value loop keeps and what it adds: only def flags change,
      and the instructions it queues have all their defs dead. */
  predicate DeadStep(st: MachineState, sp: Spiller, r: (MachineState, Spiller)) {
    && r.0 == st.(code := r.0.code) && OnlyDeadFlags(st.code, r.0.code)
    && r.1 == sp.(deadDefs := r.1.deadDefs) && |sp.deadDefs| <= |r.1.deadDefs|
    && r.1.deadDefs[..|sp.deadDefs|] == sp.deadDefs
    && forall i | |sp.deadDefs| <= i < |r.1.deadDefs| :: DeadIn(r.0.code, r.1.deadDefs[i])
  }

  lemma OnlyDeadFlagsTrans(a: seq<Instr>, b: seq<Instr>, c: seq<Instr>)
    requires OnlyDeadFlags(a, b) && OnlyDeadFlags(b, c)
    ensures OnlyDeadFlags(a, c)
  {
  }

  lemma DeadInKeep(a: seq<Instr>, b: seq<Instr>, id: nat)
    requires OnlyDeadFlags(a, b) && DeadIn(a, id)
    ensures DeadIn(b, id)
  {
    var p :| 0 <= p < |a| && a[p].id == id && AllDefsDead(a[p]);
    assert b[p].id == id;
    assert AllDefsDead(b[p]);
  }

  lemma DeadStepTrans(st: MachineState, sp: Spiller, x: (MachineState, Spiller), r: (MachineState, Spiller))
    requires DeadStep(st, sp, x) && DeadStep(x.0, x.1, r)
    ensures DeadStep(st, sp, r)
  {
    OnlyDeadFlagsTrans(st.code, x.0.code, r.0.code);
    assert r.1.deadDefs[..|x.1.deadDefs|][..|sp.deadDefs|] == r.1.deadDefs[..|sp.deadDefs|];
    forall i | |sp.deadDefs| <= i < |r.1.deadDefs| ensures DeadIn(r.0.code, r.1.deadDefs[i]) {
      if i < |x.1.deadDefs| {
        assert r.1.deadDefs[i] == x.1.deadDefs[i];
        DeadInKeep(x.0.code, r.0.code, x.1.deadDefs[i]);
      }
    }
  }

  lemma DeadValueStep(st: MachineState, sp: Spiller, v: Val)
    requires HasVal(st, v)
    ensures DeadStep(st, sp, DeadValue(st, sp, v))
  {
    if Unneeded(st, sp, v) && PositionAtIndex(st.code, Vni(st, v).def).Some? {
      var q := PositionAtIndex(st.code, Vni(st, v).def).value;
      var mi := st.code[q].(ops := MarkDead(st.code[q].ops, v.reg));
      var r := DeadValue(st, sp, v);
      assert r.0.code == st.code[q := mi];
      if AllDefsDead(mi) {
        assert r.1.deadDefs == sp.deadDefs + [mi.id];
        assert r.1.deadDefs[|sp.deadDefs|] == mi.id;
        assert r.0.code[q] == mi;
      }
    }
  }

  /** The positions of the instructions owning an index do not move. */
  lemma OnlyDeadFlagsPositions(a: seq<Instr>, b: seq<Instr>, idx: SlotIndex)
    requires OnlyDeadFlags(a, b)
    ensures PositionAtIndex(a, idx) == PositionAtIndex(b, idx)
    decreases |a|
  {
    if |a| > 0 {
      assert OnlyDeadFlags(a[1..], b[1..]) by {
        forall p | 0 <= p < |a| - 1 ensures b[1..][p] == a[1..][p].(ops := b[1..][p].ops) {
          assert b[1..][p] == b[p + 1];
        }
      }
      OnlyDeadFlagsPositions(a[1..], b[1..], idx);
    }
  }

  /** v is a value remat left without readers, defined by the instruction at
      position p. */
  predicate Marks(st: MachineState, sp: Spiller, v: Val, p: nat) {
    Unneeded(st, sp, v) && PositionAtIndex(st.code, Vni(st, v).def) == Some(p)
  }

  /** The only operands changed in code are first defs of the registers of
      values in vs, in the instructions defining those values. */
  ghost predicate OnlyMarked(st: MachineState, sp: Spiller, vs: set<Val>, code: seq<Instr>) {
    forall p, j | 0 <= p < |st.code| && p < |code| && 0 <= j < |st.code[p].ops| && j < |code[p].ops|
                  && code[p].ops[j] != st.code[p].ops[j] ::
      exists v | v in vs :: Marks(st, sp, v, p) && IsFirstDef(st.code[p].ops, v.reg, j)
  }

  /** Every id queued is that of the instruction defining a value in vs that
      remat left without readers, and all its defs are dead. */
  ghost predicate QueuedMarked(st: MachineState, sp: Spiller, vs: set<Val>, r: (MachineState, Spiller)) {
    forall i | |sp.deadDefs| <= i < |r.1.deadDefs| :: QueuedFrom(st, sp, vs, r.0.code, r.1.deadDefs[i])
  }

  /** The id is that of the instruction defining a value in vs that remat left
      without readers, and all that instruction's defs are dead in code. */
  ghost predicate QueuedFrom(st: MachineState, sp: Spiller, vs: set<Val>, code: seq<Instr>, id: nat) {
    exists v, p: nat | v in vs && Marks(st, sp, v, p) && p < |st.code| && p < |code| ::
      id == st.code[p].id && AllDefsDead(code[p])
  }

  /** The instruction defining a value in vs that remat left without readers
      has the first def of the value's register dead, and is queued when all
      its defs are dead. */
  ghost predicate MarkedDone(st: MachineState, sp: Spiller, vs: set<Val>, r: (MachineState, Spiller)) {
    forall v, p: nat | v in vs && Marks(st, sp, v, p) && p < |st.code| && p < |r.0.code| ::
      && FirstDefDead(r.0.code[p], v.reg)
      && (AllDefsDead(r.0.code[p]) ==>
            exists i | |sp.deadDefs| <= i < |r.1.deadDefs| :: r.1.deadDefs[i] == st.code[p].id)
  }

  /** What the loop removing completely rematted values does over the values vs. */
  ghost predicate DeadSummary(st: MachineState, sp: Spiller, vs: set<Val>, r: (MachineState, Spiller)) {
    && DeadStep(st, sp, r) && OnlyMarked(st, sp, vs, r.0.code)
    && QueuedMarked(st, sp, vs, r) && MarkedDone(st, sp, vs, r)
  }

  lemma MarksKeep(st: MachineState, sp: Spiller, x: (MachineState, Spiller))
    requires DeadStep(st, sp, x)
    ensures forall v, p: nat :: Marks(x.0, x.1, v, p) == Marks(st, sp, v, p)
  {
    forall v, p: nat ensures Marks(x.0, x.1, v, p) == Marks(st, sp, v, p) {
      if HasVal(st, v) {
        OnlyDeadFlagsPositions(st.code, x.0.code, Vni(st, v).def);
      }
    }
  }

  lemma FirstDefKeep(a: seq<Instr>, b: seq<Instr>, p: nat)
    requires OnlyDeadFlags(a, b) && p < |a|
    ensures forall reg, j :: IsFirstDef(b[p].ops, reg, j) == IsFirstDef(a[p].ops, reg, j)
    ensures forall reg | FirstDefDead(a[p], reg) :: FirstDefDead(b[p], reg)
    ensures AllDefsDead(a[p]) ==> AllDefsDead(b[p])
  {
  }

  /** An instruction no value in vs is defined by is left as it was. */
  lemma Unmarked(st: MachineState, sp: Spiller, vs: set<Val>, code: seq<Instr>, p: nat)
    requires OnlyDeadFlags(st.code, code) && OnlyMarked(st, sp, vs, code) && p < |st.code|
    requires forall w | w in vs :: !Marks(st, sp, w, p)
    ensures code[p] == st.code[p]
  {
    assert code[p].ops == st.code[p].ops;
  }

  lemma DeadNothing(st: MachineState, sp: Spiller)
    ensures DeadSummary(st, sp, {}, (st, sp))
  {
    assert sp.deadDefs[..|sp.deadDefs|] == sp.deadDefs;
  }

  /** One value: at most the first def of its register in its defining
      instruction changes, and that instruction is queued iff all its defs
      are then dead. */
  lemma DeadValueSummary(st: MachineState, sp: Spiller, v: Val)
    requires HasVal(st, v)
    ensures DeadSummary(st, sp, {v}, DeadValue(st, sp, v))
  {
    var r := DeadValue(st, sp, v);
    DeadValueStep(st, sp, v);
    if Unneeded(st, sp, v) && PositionAtIndex(st.code, Vni(st, v).def).Some? {
      var q := PositionAtIndex(st.code, Vni(st, v).def).value;
      var mi := st.code[q].(ops := MarkDead(st.code[q].ops, v.reg));
      assert r.0.code == st.code[q := mi];
      assert Marks(st, sp, v, q);
      DeadValueOnly(st, sp, v, q, mi, r.0.code);
      DeadValueQueued(st, sp, v, q, mi, r);
    } else {
      assert r == (st, sp);
      DeadNothing(st, sp);
    }
  }

  lemma DeadValueOnly(st: MachineState, sp: Spiller, v: Val, q: nat, mi: Instr, code: seq<Instr>)
    requires Marks(st, sp, v, q) && q < |st.code|
    requires mi == st.code[q].(ops := MarkDead(st.code[q].ops, v.reg)) && code == st.code[q := mi]
    ensures OnlyMarked(st, sp, {v}, code)
  {
    forall p, j | 0 <= p < |st.code| && p < |code| && 0 <= j < |st.code[p].ops| && j < |code[p].ops|
                  && code[p].ops[j] != st.code[p].ops[j]
      ensures exists w | w in {v} :: Marks(st, sp, w, p) && IsFirstDef(st.code[p].ops, w.reg, j)
    {
      assert p == q;
      assert IsFirstDef(st.code[q].ops, v.reg, j);
    }
  }

  lemma DeadValueQueued(st: MachineState, sp: Spiller, v: Val, q: nat, mi: Instr, r: (MachineState, Spiller))
    requires Marks(st, sp, v, q) && q < |st.code|
    requires mi == st.code[q].(ops := MarkDead(st.code[q].ops, v.reg)) && r.0.code == st.code[q := mi]
    requires r.1 == if AllDefsDead(mi) then sp.(deadDefs := sp.deadDefs + [mi.id]) else sp
    ensures QueuedMarked(st, sp, {v}, r) && MarkedDone(st, sp, {v}, r)
  {
    assert r.0.code[q] == mi;
    if AllDefsDead(mi) {
      assert r.1.deadDefs[|sp.deadDefs|] == st.code[q].id;
    }
    forall w, p: nat | w in {v} && Marks(st, sp, w, p) && p < |st.code| && p < |r.0.code|
      ensures FirstDefDead(r.0.code[p], w.reg)
    {
      assert p == q;
    }
  }

  lemma OnlyMarkedTrans(st: MachineState, sp: Spiller, vs1: set<Val>, x: (MachineState, Spiller),
                        vs2: set<Val>, r: (MachineState, Spiller))
    requires DeadStep(st, sp, x) && DeadStep(x.0, x.1, r)
    requires OnlyMarked(st, sp, vs1, x.0.code) && OnlyMarked(x.0, x.1, vs2, r.0.code)
    ensures OnlyMarked(st, sp, vs1 + vs2, r.0.code)
  {
    MarksKeep(st, sp, x);
    forall p, j | 0 <= p < |st.code| && p < |r.0.code| && 0 <= j < |st.code[p].ops| && j < |r.0.code[p].ops|
                  && r.0.code[p].ops[j] != st.code[p].ops[j]
      ensures exists v | v in vs1 + vs2 :: Marks(st, sp, v, p) && IsFirstDef(st.code[p].ops, v.reg, j)
    {
      if x.0.code[p].ops[j] != st.code[p].ops[j] {
        var v :| v in vs1 && Marks(st, sp, v, p) && IsFirstDef(st.code[p].ops, v.reg, j);
        assert v in vs1 + vs2;
      } else {
        var v :| v in vs2 && Marks(x.0, x.1, v, p) && IsFirstDef(x.0.code[p].ops, v.reg, j);
        FirstDefKeep(st.code, x.0.code, p);
        assert v in vs1 + vs2;
      }
    }
  }

  lemma QueuedMarkedTrans(st: MachineState, sp: Spiller, vs1: set<Val>, x: (MachineState, Spiller),
                          vs2: set<Val>, r: (MachineState, Spiller))
    requires DeadStep(st, sp, x) && DeadStep(x.0, x.1, r)
    requires QueuedMarked(st, sp, vs1, x) && QueuedMarked(x.0, x.1, vs2, r)
    ensures QueuedMarked(st, sp, vs1 + vs2, r)
  {
    MarksKeep(st, sp, x);
    forall i | |sp.deadDefs| <= i < |r.1.deadDefs|
      ensures QueuedFrom(st, sp, vs1 + vs2, r.0.code, r.1.deadDefs[i])
    {
      if i < |x.1.deadDefs| {
        assert r.1.deadDefs[i] == r.1.deadDefs[..|x.1.deadDefs|][i] == x.1.deadDefs[i];
        assert QueuedFrom(st, sp, vs1, x.0.code, x.1.deadDefs[i]);
        var v, p: nat :| v in vs1 && Marks(st, sp, v, p) && p < |st.code| && p < |x.0.code|
                    && x.1.deadDefs[i] == st.code[p].id && AllDefsDead(x.0.code[p]);
        FirstDefKeep(x.0.code, r.0.code, p);
        assert v in vs1 + vs2;
      } else {
        assert QueuedFrom(x.0, x.1, vs2, r.0.code, r.1.deadDefs[i]);
        var v, p: nat :| v in vs2 && Marks(x.0, x.1, v, p) && p < |x.0.code| && p < |r.0.code|
                    && r.1.deadDefs[i] == x.0.code[p].id && AllDefsDead(r.0.code[p]);
        assert x.0.code[p].id == st.code[p].id;
        assert v in vs1 + vs2;
      }
    }
  }

  lemma MarkedDoneTrans(st: MachineState, sp: Spiller, vs1: set<Val>, x: (MachineState, Spiller),
                        vs2: set<Val>, r: (MachineState, Spiller))
    requires DeadStep(st, sp, x) && DeadStep(x.0, x.1, r)
    requires MarkedDone(st, sp, vs1, x) && MarkedDone(x.0, x.1, vs2, r) && OnlyMarked(x.0, x.1, vs2, r.0.code)
    ensures MarkedDone(st, sp, vs1 + vs2, r)
  {
    MarksKeep(st, sp, x);
    forall v, p: nat | v in vs1 + vs2 && Marks(st, sp, v, p) && p < |st.code| && p < |r.0.code|
      ensures FirstDefDead(r.0.code[p], v.reg)
      ensures AllDefsDead(r.0.code[p]) ==>
                exists i | |sp.deadDefs| <= i < |r.1.deadDefs| :: r.1.deadDefs[i] == st.code[p].id
    {
      assert x.0.code[p].id == st.code[p].id;
      if v in vs2 {
        if AllDefsDead(r.0.code[p]) {
          var i :| |x.1.deadDefs| <= i < |r.1.deadDefs| && r.1.deadDefs[i] == x.0.code[p].id;
        }
      } else {
        FirstDefKeep(x.0.code, r.0.code, p);
        if AllDefsDead(r.0.code[p]) {
          if w :| w in vs2 && Marks(x.0, x.1, w, p) {
            var i :| |x.1.deadDefs| <= i < |r.1.deadDefs| && r.1.deadDefs[i] == x.0.code[p].id;
          } else {
            Unmarked(x.0, x.1, vs2, r.0.code, p);
            var i :| |sp.deadDefs| <= i < |x.1.deadDefs| && x.1.deadDefs[i] == st.code[p].id;
            assert r.1.deadDefs[i] == r.1.deadDefs[..|x.1.deadDefs|][i];
          }
        }
      }
    }
  }

  lemma DeadSummaryTrans(st: MachineState, sp: Spiller, vs1: set<Val>, x: (MachineState, Spiller),
                         vs2: set<Val>, r: (MachineState, Spiller))
    requires DeadSummary(st, sp, vs1, x) && DeadSummary(x.0, x.1, vs2, r)
    ensures DeadSummary(st, sp, vs1 + vs2, r)
  {
    DeadStepTrans(st, sp, x, r);
    OnlyMarkedTrans(st, sp, vs1, x, vs2, r);
    QueuedMarkedTrans(st, sp, vs1, x, vs2, r);
    MarkedDoneTrans(st, sp, vs1, x, vs2, r);
  }

  /** The values of reg numbered k and up. */
  function ValuesFrom(st: MachineState, reg: Reg, k: nat): set<Val>
    requires reg in st.intervals
  {
    set j | k <= j < |st.intervals[reg].values| :: Val(reg, j)
  }

  /** The values of the registers in regs. */
  function ValuesOf(st: MachineState, regs: seq<Reg>): set<Val> {
    set reg, j | reg in regs && reg in st.intervals && 0 <= j < |st.intervals[reg].values| :: Val(reg, j)
  }

  lemma ValuesOfCons(st: MachineState, regs: seq<Reg>)
    requires |regs| > 0
    ensures regs[0] !in st.intervals ==> ValuesOf(st, regs) == ValuesOf(st, regs[1..])
    ensures regs[0] in st.intervals ==> ValuesOf(st, regs) == ValuesFrom(st, regs[0], 0) + ValuesOf(st, regs[1..])
  {
    assert forall reg :: reg in regs <==> reg == regs[0] || reg in regs[1..];
  }

  lemma {:induction false} DeadValuesSpec(st: MachineState, sp: Spiller, reg: Reg, k: nat)
    requires reg in st.intervals
    ensures DeadSummary(st, sp, ValuesFrom(st, reg, k), DeadValues(st, sp, reg, k))
    decreases |st.intervals[reg].values| - k
  {
    if k >= |st.intervals[reg].values| {
      assert ValuesFrom(st, reg, k) == {};
      DeadNothing(st, sp);
    } else {
      var v := Val(reg, k);
      var x := DeadValue(st, sp, v);
      DeadValueSummary(st, sp, v);
      assert x.0.intervals == st.intervals;
      DeadValuesSpec(x.0, x.1, reg, k + 1);
      DeadSummaryTrans(st, sp, {v}, x, ValuesFrom(x.0, reg, k + 1), DeadValues(x.0, x.1, reg, k + 1));
      assert {v} + ValuesFrom(x.0, reg, k + 1) == ValuesFrom(st, reg, k);
    }
  }

  /** The loop removing completely rematted values, over the registers regs:
      only def flags change, and only the first def of a value's register in
      the instruction defining it, for values of regs that remat left without
      readers and that are not PHI-defs or unused; those instructions are the
      only ones queued as dead defs, each once all its defs are dead, and each
      whose defs all end up dead is queued. */
  lemma {:induction false} DeadRegsSpec(st: MachineState, sp: Spiller, regs: seq<Reg>)
    ensures DeadSummary(st, sp, ValuesOf(st, regs), DeadRegs(st, sp, regs))
    decreases |regs|
  {
    if |regs| == 0 {
      assert ValuesOf(st, regs) == {};
      DeadNothing(st, sp);
    } else {
      ValuesOfCons(st, regs);
      if regs[0] in st.intervals {
        var x := DeadValues(st, sp, regs[0], 0);
        DeadValuesSpec(st, sp, regs[0], 0);
        DeadRegsSpec(x.0, x.1, regs[1..]);
        ValuesOfSame(st, x.0, regs[1..]);
        DeadSummaryTrans(st, sp, ValuesFrom(st, regs[0], 0), x, ValuesOf(x.0, regs[1..]), DeadRegs(x.0, x.1, regs[1..]));
      } else {
        DeadRegsSpec(st, sp, regs[1..]);
      }
    }
  }

  lemma ValuesOfSame(a: MachineState, b: MachineState, regs: seq<Reg>)
    requires a.intervals == b.intervals
    ensures ValuesOf(a, regs) == ValuesOf(b, regs)
  {
  }

  /** Whether a value lies in the scope of DeadRegsSpec. */
  lemma ValuesOfMeaning(st: MachineState, regs: seq<Reg>, v: Val)
    ensures v in ValuesOf(st, regs) <==> HasVal(st, v) && v.reg in regs
  {
    if HasVal(st, v) && v.reg in regs {
      assert Val(v.reg, v.valno) in ValuesOf(st, regs);
    }
  }

  // Registers remat emptied.

  /** A register to spill that is still worth spilling: it has an interval
      and the interval is not empty. */
  predicate Kept(intervals: map<Reg, Interval>, reg: Reg) {
    reg in intervals && |intervals[reg].segments| > 0
  }

  /** The registers worth spilling, in order. */
  function KeptRegs(intervals: map<Reg, Interval>, regs: seq<Reg>): (r: seq<Reg>)
    ensures forall reg :: reg in r <==> reg in regs && Kept(intervals, reg)
  {
    if |regs| == 0 then []
    else (if Kept(intervals, regs[0]) then [regs[0]] else []) + KeptRegs(intervals, regs[1..])
  }

  /** The intervals without those of the given registers that are empty. */
  function DropEmpty(intervals: map<Reg, Interval>, regs: seq<Reg>): map<Reg, Interval> {
    map reg | reg in intervals && (reg !in regs || |intervals[reg].segments| > 0) :: intervals[reg]
  }

  /** The last loop of reMaterializeAll, from position i down: a register
      without an interval is dropped from the list, one with an empty
      interval is dropped and its interval erased (eraseVirtReg). */
  function Prune(intervals: map<Reg, Interval>, regs: seq<Reg>, i: nat): (map<Reg, Interval>, seq<Reg>)
    requires i <= |regs|
    decreases i
  {
    if i == 0 then (intervals, regs)
    else
      var reg := regs[i - 1];
      var rest := regs[..i - 1] + regs[i..];
      if reg !in intervals then Prune(intervals, rest, i - 1)
      else if |intervals[reg].segments| == 0 then Prune(intervals - {reg}, rest, i - 1)
      else Prune(intervals, regs, i - 1)
  }

  lemma KeptRegsSnoc(intervals: map<Reg, Interval>, regs: seq<Reg>, reg: Reg)
    ensures KeptRegs(intervals, regs + [reg]) == KeptRegs(intervals, regs) + (if Kept(intervals, reg) then [reg] else [])
    decreases |regs|
  {
    if |regs| == 0 {
      assert [reg][1..] == [];
    } else {
      assert (regs + [reg])[1..] == regs[1..] + [reg];
      KeptRegsSnoc(intervals, regs[1..], reg);
    }
  }

  /** Dropping a register that is not kept changes no decision. */
  lemma KeptRegsDrop(intervals: map<Reg, Interval>, regs: seq<Reg>, reg: Reg)
    requires !Kept(intervals, reg)
    ensures KeptRegs(intervals - {reg}, regs) == KeptRegs(intervals, regs)
    decreases |regs|
  {
    if |regs| > 0 {
      assert Kept(intervals - {reg}, regs[0]) == Kept(intervals, regs[0]);
      KeptRegsDrop(intervals, regs[1..], reg);
    }
  }

  /** Walking the list backwards and erasing in place keeps the registers
      a forward filter keeps, in their order. */
  lemma {:induction false} PruneRegs(intervals: map<Reg, Interval>, regs: seq<Reg>, i: nat)
    requires i <= |regs|
    ensures Prune(intervals, regs, i).1 == KeptRegs(intervals, regs[..i]) + regs[i..]
    decreases i
  {
    if i == 0 {
      assert regs[..0] == [];
    } else {
      var reg := regs[i - 1];
      var rest := regs[..i - 1] + regs[i..];
      if !Kept(intervals, reg) {
        var iv := if reg !in intervals then intervals else intervals - {reg};
        assert Prune(intervals, regs, i) == Prune(iv, rest, i - 1);
        PruneRegs(iv, rest, i - 1);
        PruneDrop(intervals, iv, regs, i);
      } else {
        assert Prune(intervals, regs, i) == Prune(intervals, regs, i - 1);
        PruneRegs(intervals, regs, i - 1);
        PruneKeep(intervals, regs, i);
      }
    }
  }

  /** The list step of Prune for a register that is dropped ... */
  lemma PruneDrop(intervals: map<Reg, Interval>, iv: map<Reg, Interval>, regs: seq<Reg>, i: nat)
    requires 0 < i <= |regs| && !Kept(intervals, regs[i - 1])
    requires iv == if regs[i - 1] !in intervals then intervals else intervals - {regs[i - 1]}
    ensures var rest := regs[..i - 1] + regs[i..];
      KeptRegs(iv, rest[..i - 1]) + rest[i - 1..] == KeptRegs(intervals, regs[..i]) + regs[i..]
  {
    var rest := regs[..i - 1] + regs[i..];
    assert rest[..i - 1] == regs[..i - 1];
    assert rest[i - 1..] == regs[i..];
    assert regs[..i] == regs[..i - 1] + [regs[i - 1]];
    KeptRegsSnoc(intervals, regs[..i - 1], regs[i - 1]);
    KeptRegsDrop(intervals, regs[..i - 1], regs[i - 1]);
  }

  /** ... and for one that is kept. */
  lemma PruneKeep(intervals: map<Reg, Interval>, regs: seq<Reg>, i: nat)
    requires 0 < i <= |regs| && Kept(intervals, regs[i - 1])
    ensures KeptRegs(intervals, regs[..i - 1]) + regs[i - 1..] == KeptRegs(intervals, regs[..i]) + regs[i..]
  {
    assert regs[..i] == regs[..i - 1] + [regs[i - 1]];
    KeptRegsSnoc(intervals, regs[..i - 1], regs[i - 1]);
    assert regs[i - 1..] == [regs[i - 1]] + regs[i..];
  }

  lemma DropEmptyStep(intervals: map<Reg, Interval>, regs: seq<Reg>, reg: Reg)
    ensures reg in intervals && |intervals[reg].segments| > 0 ==>
      DropEmpty(intervals, regs) == DropEmpty(intervals, regs + [reg])
    ensures reg in intervals && |intervals[reg].segments| == 0 ==>
      DropEmpty(intervals - {reg}, regs) == DropEmpty(intervals, regs + [reg])
    ensures reg !in intervals ==> DropEmpty(intervals, regs) == DropEmpty(intervals, regs + [reg])
  {
    assert forall q :: q in regs + [reg] <==> q in regs || q == reg;
  }

  /** ... and erases exactly the empty intervals among them. */
  lemma {:induction false} PruneIntervals(intervals: map<Reg, Interval>, regs: seq<Reg>, i: nat)
    requires i <= |regs|
    ensures Prune(intervals, regs, i).0 == DropEmpty(intervals, regs[..i])
    decreases i
  {
    if i == 0 {
      assert regs[..0] == [];
      assert DropEmpty(intervals, []) == intervals;
    } else {
      var reg := regs[i - 1];
      var rest := regs[..i - 1] + regs[i..];
      assert regs[..i] == regs[..i - 1] + [reg];
      DropEmptyStep(intervals, regs[..i - 1], reg);
      if reg !in intervals {
        assert rest[..i - 1] == regs[..i - 1];
        PruneIntervals(intervals, rest, i - 1);
      } else if |intervals[reg].segments| == 0 {
        assert rest[..i - 1] == regs[..i - 1];
        PruneIntervals(intervals - {reg}, rest, i - 1);
      } else {
        PruneIntervals(intervals, regs, i - 1);
      }
    }
  }

  lemma KeptRegsSame(a: map<Reg, Interval>, b: map<Reg, Interval>, regs: seq<Reg>)
    requires forall reg | reg in regs :: Kept(a, reg) == Kept(b, reg)
    ensures KeptRegs(a, regs) == KeptRegs(b, regs)
    decreases |regs|
  {
    if |regs| > 0 {
      KeptRegsSame(a, b, regs[1..]);
    }
  }

  // ---------------------------------------------------------------------

  /** reMaterializeAll: when some value is remattable, try to remat before
      every use of every register to spill; if anything was done, mark the
      defs of values no failed remat needs dead, let LiveRangeEdit delete the
      dead instructions, and drop the registers whose intervals went away or
      became empty. */
  function ReMaterializeAll(st: MachineState, env: Env, sp: Spiller): (r: (MachineState, Spiller)) {
    var any := AnyRematerializable(st, env, sp);
    if !any.1 then (st, any.0)
    else
      var sp1 := any.0.(usedValues := {});
      var x := RematRegs(st, env, sp1, sp1.regsToSpill, false);
      if !x.2 then (x.0, x.1)
      else
        var y := DeadRegs(x.0, x.1, x.1.regsToSpill);
        if |y.1.deadDefs| == 0 then y
        else
          var e := env.eliminateDeadDefs(y.0.code, y.0.intervals, y.1.deadDefs);
          var p := Prune(e.1, y.1.regsToSpill, |y.1.regsToSpill|);
          (y.0.(code := e.0, intervals := p.0), y.1.(deadDefs := [], regsToSpill := p.1))
  }

  /** Remat keeps the identity of the spill and scans the remattable values.
      The registers to spill are pruned iff some value is remattable, some
      use was rematerialized, and the dead-value loop queued some dead def;
      the list then keeps exactly the registers whose interval is still there
      and not empty, the others lose their interval, and the dead defs are
      consumed. Otherwise the list and the dead defs are unchanged, and with
      nothing remattable so is the code. */
  lemma ReMaterializeAllSpec(st: MachineState, env: Env, sp: Spiller)
    ensures var r := ReMaterializeAll(st, env, sp);
      && r.1 == sp.(remattable := r.1.remattable, scannedRemattable := true, usedValues := r.1.usedValues,
                    rematted := r.1.rematted, newRegs := r.1.newRegs, deadDefs := r.1.deadDefs,
                    regsToSpill := r.1.regsToSpill)
      && sp.rematted <= r.1.rematted && sp.newRegs <= r.1.newRegs
      && StateFrame(st, r.0)
      && (!AnyRematerializable(st, env, sp).1 ==> r.0 == st)
    ensures var any := AnyRematerializable(st, env, sp);
      var x := RematRegs(st, env, any.0.(usedValues := {}), sp.regsToSpill, false);
      var y := DeadRegs(x.0, x.1, sp.regsToSpill);
      var r := ReMaterializeAll(st, env, sp);
      if any.1 && x.2 && |y.1.deadDefs| > 0 then
        && r.1.deadDefs == []
        && r.1.regsToSpill == KeptRegs(r.0.intervals, sp.regsToSpill)
        && forall reg | reg in sp.regsToSpill && !Kept(r.0.intervals, reg) :: reg !in r.0.intervals
      else
        r.1.regsToSpill == sp.regsToSpill && r.1.deadDefs == sp.deadDefs
  {
    var any := AnyRematerializable(st, env, sp);
    if any.1 {
      var sp1 := any.0.(usedValues := {});
      var x := RematRegs(st, env, sp1, sp1.regsToSpill, false);
      RematRegsFrame(st, env, sp1, sp1.regsToSpill, false);
      if x.2 {
        var y := DeadRegs(x.0, x.1, x.1.regsToSpill);
        DeadRegsSpec(x.0, x.1, x.1.regsToSpill);
        if |y.1.deadDefs| > 0 {
          var regs := y.1.regsToSpill;
          var e := env.eliminateDeadDefs(y.0.code, y.0.intervals, y.1.deadDefs);
          PruneRegs(e.1, regs, |regs|);
          PruneIntervals(e.1, regs, |regs|);
          assert regs[..|regs|] == regs;
          var iv := DropEmpty(e.1, regs);
          KeptRegsSame(iv, e.1, regs);
        }
      }
    }
  }
}
