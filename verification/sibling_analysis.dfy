/*
 * analyzeSiblingValues: every value of the registers to spill that is a
 * PHI-def or a copy, and not the original value itself, is traced back
 * through sibling copies; the values whose defining instruction is known are
 * offered to LiveRangeEdit::checkRematerializable.
 */
module SiblingAnalysis {
  import opened Optional
  import opened SpillMachine
  import opened SiblingValues

  /** LiveRangeEdit::checkRematerializable: record that the remattable set was
      scanned, and add the value when its defining instruction is trivially
      rematerializable. */
  function CheckRematerializable(env: Env, sp: Spiller, v: Val, defMI: Instr): (r: Spiller)
    ensures r == sp.(remattable := r.remattable, scannedRemattable := true)
    ensures forall w :: w in r.remattable <==> w in sp.remattable || (w == v && env.rematerializable(defMI))
  {
    sp.(scannedRemattable := true,
        remattable := if env.rematerializable(defMI) then sp.remattable + {v} else sp.remattable)
  }

  /** The def of the original value live at the value's def, when the value is
      a PHI-def or a copy whose def differs from it (a value without an
      original value there is not traced). */
  function TraceOrigDef(st: MachineState, sp: Spiller, v: Val): (r: Option<SlotIndex>)
    requires HasVal(st, v)
    ensures r.Some? ==> (Vni(st, v).isPHIDef || Vni(st, v).hasCopy) && r.value != Vni(st, v).def
  {
    var vni := Vni(st, v);
    if vni.isPHIDef || vni.hasCopy then
      match ValAt(st, sp.original, vni.def)
      case None => None
      case Some(ov) => if Vni(st, ov).def != vni.def then Some(Vni(st, ov).def) else None
    else None
  }

  /** One value of the loop of analyzeSiblingValues. */
  function AnalyzeValue(st: MachineState, env: Env, sp: Spiller, v: Val): Spiller
    requires HasVal(st, v)
  {
    var vni := Vni(st, v);
    if vni.isUnused then sp
    else
      var traced := match TraceOrigDef(st, sp, v)
                    case None => (sp, None)
                    case Some(od) => TraceSiblingValue(st, env, sp, v, od);
      var defMI := if traced.1.None? && !vni.isPHIDef then InstrAtIndex(st.code, vni.def) else traced.1;
      match defMI
      case None => traced.0
      case Some(mi) => CheckRematerializable(env, traced.0, v, mi)
  }

  /** The values from number k on of one register. */
  function AnalyzeValues(st: MachineState, env: Env, sp: Spiller, reg: Reg, k: nat): Spiller
    requires reg in st.intervals
    decreases |st.intervals[reg].values| - k
  {
    if k >= |st.intervals[reg].values| then sp
    else AnalyzeValues(st, env, AnalyzeValue(st, env, sp, Val(reg, k)), reg, k + 1)
  }

  /** The values of each register in turn; a register without an interval has none. */
  function AnalyzeRegs(st: MachineState, env: Env, sp: Spiller, regs: seq<Reg>): Spiller
    decreases |regs|
  {
    if |regs| == 0 then sp
    else
      var sp1 := if regs[0] in st.intervals then AnalyzeValues(st, env, sp, regs[0], 0) else sp;
      AnalyzeRegs(st, env, sp1, regs[1..])
  }

  /** analyzeSiblingValues. An original register has no siblings. */
  function AnalyzeSiblingValues(st: MachineState, env: Env, sp: Spiller): Spiller {
    var sp0 := sp.(sibValues := map[]);
    if sp.reg == sp.original then sp0 else AnalyzeRegs(st, env, sp0, sp.regsToSpill)
  }

  // ---------------------------------------------------------------------
  // Reference definitions, per value.

  /** The value is traced, and the trace records a SibValueInfo for it: it is
      a used PHI-def or copy whose original value has another def, and it is
      not itself a real def. */
  predicate TracedValue(st: MachineState, env: Env, sp: Spiller, v: Val) {
    HasVal(st, v) && !Vni(st, v).isUnused
    && match TraceOrigDef(st, sp, v)
       case None => false
       case Some(od) => !Classify(st, env, sp.original, sp.stackSlot, od, v).RealDef?
  }

  /** The SibValueInfo the trace of a traced value ends with. */
  function Recorded(st: MachineState, env: Env, sp: Spiller, v: Val): SibValueInfo
    requires TracedValue(st, env, sp, v)
  {
    var od := TraceOrigDef(st, sp, v).value;
    TraceSiblingValueSpec(st, env, sp, v, od);
    match Trace(st, env, sp, v, od)
    case Finished(ts) => FinalInfo(ts)
  }

  /** The instruction offered to checkRematerializable: the trace's template
      (or the queried value's own def when the trace stops there), else the
      value's own defining instruction unless it is a PHI-def. */
  function DefTemplate(st: MachineState, env: Env, sp: Spiller, v: Val): Option<Instr>
    requires HasVal(st, v)
  {
    var traced := match TraceOrigDef(st, sp, v)
                  case None => None
                  case Some(od) =>
                    match Trace(st, env, sp, v, od)
                    case NotSibling(mi) => Some(mi)
                    case Finished(ts) => FinalInfo(ts).defMI;
    if traced.None? && !Vni(st, v).isPHIDef then InstrAtIndex(st.code, Vni(st, v).def) else traced
  }

  predicate HasTemplate(st: MachineState, env: Env, sp: Spiller, v: Val) {
    HasVal(st, v) && !Vni(st, v).isUnused && DefTemplate(st, env, sp, v).Some?
  }

  predicate RematCandidate(st: MachineState, env: Env, sp: Spiller, v: Val) {
    HasTemplate(st, env, sp, v) && env.rematerializable(DefTemplate(st, env, sp, v).value)
  }

  // ---------------------------------------------------------------------
  // The trace only reads the original, the stack slot and the registers to spill.

  predicate SameTraceInputs(a: Spiller, b: Spiller) {
    a.original == b.original && a.stackSlot == b.stackSlot && a.regsToSpill == b.regsToSpill
  }

  lemma VisitFrame(st: MachineState, env: Env, a: Spiller, b: Spiller, useBlock: nat, origDef: SlotIndex, v: Val, ts: TraceState)
    requires SameTraceInputs(a, b) && HasVal(st, v)
    ensures Visit(st, env, a, useBlock, origDef, v, ts) == Visit(st, env, b, useBlock, origDef, v, ts)
  {
    assert IsCandidate(st, env, a, useBlock, v) == IsCandidate(st, env, b, useBlock, v);
  }

  lemma {:induction false} TraceLoopFrame(st: MachineState, env: Env, a: Spiller, b: Spiller, useVal: Val, useBlock: nat,
                                          origDef: SlotIndex, worklist: seq<Val>, ts: TraceState)
    requires SameTraceInputs(a, b)
    ensures TraceLoop(st, env, a, useVal, useBlock, origDef, worklist, ts)
         == TraceLoop(st, env, b, useVal, useBlock, origDef, worklist, ts)
    decreases |AllVals(st.intervals) - ts.visited|, |worklist|
  {
    if |worklist| > 0 {
      var v := worklist[|worklist| - 1];
      var rest := worklist[..|worklist| - 1];
      if v in ts.visited || !HasVal(st, v) {
        TraceLoopFrame(st, env, a, b, useVal, useBlock, origDef, rest, ts);
      } else {
        var step := Classify(st, env, a.original, a.stackSlot, origDef, v);
        InAllVals(st, v);
        VisitShrinks(AllVals(st.intervals), ts.visited, v);
        VisitVisited(st, env, a, useBlock, origDef, v, ts);
        VisitFrame(st, env, a, b, useBlock, origDef, v, ts);
        TraceLoopFrame(st, env, a, b, useVal, useBlock, origDef, rest + Successors(step),
                       Visit(st, env, a, useBlock, origDef, v, ts));
      }
    }
  }

  lemma AnalysisFrame(st: MachineState, env: Env, a: Spiller, b: Spiller, v: Val)
    requires SameTraceInputs(a, b) && HasVal(st, v)
    ensures TracedValue(st, env, a, v) == TracedValue(st, env, b, v)
    ensures DefTemplate(st, env, a, v) == DefTemplate(st, env, b, v)
    ensures TracedValue(st, env, a, v) ==> Recorded(st, env, a, v) == Recorded(st, env, b, v)
  {
    var od := TraceOrigDef(st, a, v);
    if od.Some? {
      TraceLoopFrame(st, env, a, b, v, UseBlock(st, env, v), od.value, [v], InitialTrace(st, env, v));
    }
  }

  /** Only the SibValues map and the remattable set change. */
  predicate AnalysisChanges(sp: Spiller, r: Spiller) {
    r == sp.(sibValues := r.sibValues, remattable := r.remattable, scannedRemattable := r.scannedRemattable)
  }

  /** One value of the loop records the value's trace in SibValues when it
      is traced, and adds it to the remattable set when its template is
      rematerializable; nothing else changes. */
  lemma AnalyzeValueSpec(st: MachineState, env: Env, sp: Spiller, v: Val)
    requires HasVal(st, v)
    ensures var r := AnalyzeValue(st, env, sp, v);
      && AnalysisChanges(sp, r)
      && (forall w :: w in r.sibValues <==> w in sp.sibValues || (w == v && TracedValue(st, env, sp, v)))
      && (forall w | w in sp.sibValues :: r.sibValues[w] == sp.sibValues[w])
      && (v !in sp.sibValues && TracedValue(st, env, sp, v) ==> r.sibValues[v] == Recorded(st, env, sp, v))
      && (forall w :: w in r.remattable <==> w in sp.remattable || (w == v && RematCandidate(st, env, sp, v)))
      && (r.scannedRemattable <==> sp.scannedRemattable || HasTemplate(st, env, sp, v))
  {
    AnalyzeValueSib(st, env, sp, v);
    AnalyzeValueRemat(st, env, sp, v);
  }

  lemma AnalyzeValueSib(st: MachineState, env: Env, sp: Spiller, v: Val)
    requires HasVal(st, v)
    ensures var r := AnalyzeValue(st, env, sp, v);
      && (forall w :: w in r.sibValues <==> w in sp.sibValues || (w == v && TracedValue(st, env, sp, v)))
      && (forall w | w in sp.sibValues :: r.sibValues[w] == sp.sibValues[w])
      && (v !in sp.sibValues && TracedValue(st, env, sp, v) ==> r.sibValues[v] == Recorded(st, env, sp, v))
  {
    var od := TraceOrigDef(st, sp, v);
    if od.Some? {
      TraceSiblingValueSpec(st, env, sp, v, od.value);
    }
  }

  lemma AnalyzeValueRemat(st: MachineState, env: Env, sp: Spiller, v: Val)
    requires HasVal(st, v)
    ensures var r := AnalyzeValue(st, env, sp, v);
      && AnalysisChanges(sp, r)
      && (forall w :: w in r.remattable <==> w in sp.remattable || (w == v && RematCandidate(st, env, sp, v)))
      && (r.scannedRemattable <==> sp.scannedRemattable || HasTemplate(st, env, sp, v))
  {
  }

  lemma {:induction false} AnalyzeValuesFrame(st: MachineState, env: Env, sp: Spiller, reg: Reg, k: nat)
    requires reg in st.intervals
    ensures AnalysisChanges(sp, AnalyzeValues(st, env, sp, reg, k))
    decreases |st.intervals[reg].values| - k
  {
    if k < |st.intervals[reg].values| {
      AnalyzeValueRemat(st, env, sp, Val(reg, k));
      AnalyzeValuesFrame(st, env, AnalyzeValue(st, env, sp, Val(reg, k)), reg, k + 1);
    }
  }

  /** The values of reg from number k on that are traced are exactly the new
      keys of the SibValues map, each mapped to what its trace records. */
  lemma {:induction false} AnalyzeValuesSib(st: MachineState, env: Env, sp: Spiller, reg: Reg, k: nat)
    requires reg in st.intervals
    ensures var r := AnalyzeValues(st, env, sp, reg, k);
      && (forall w :: w in r.sibValues <==> w in sp.sibValues || (w.reg == reg && k <= w.valno && TracedValue(st, env, sp, w)))
      && (forall w | w in sp.sibValues :: r.sibValues[w] == sp.sibValues[w])
      && (forall w | w in r.sibValues && w !in sp.sibValues :: TracedValue(st, env, sp, w) && r.sibValues[w] == Recorded(st, env, sp, w))
    decreases |st.intervals[reg].values| - k
  {
    if k < |st.intervals[reg].values| {
      var v := Val(reg, k);
      var sp1 := AnalyzeValue(st, env, sp, v);
      AnalyzeValueSib(st, env, sp, v);
      AnalyzeValueRemat(st, env, sp, v);
      AnalyzeValuesSib(st, env, sp1, reg, k + 1);
      forall w | HasVal(st, w) ensures TracedValue(st, env, sp1, w) == TracedValue(st, env, sp, w)
        && (TracedValue(st, env, sp, w) ==> Recorded(st, env, sp1, w) == Recorded(st, env, sp, w))
      {
        AnalysisFrame(st, env, sp1, sp, w);
      }
    }
  }

  /** Spillers that agree on what the trace reads offer the same templates. */
  lemma TemplatesAgree(st: MachineState, env: Env, a: Spiller, b: Spiller)
    requires SameTraceInputs(a, b)
    ensures forall w :: HasTemplate(st, env, a, w) == HasTemplate(st, env, b, w)
    ensures forall w :: RematCandidate(st, env, a, w) == RematCandidate(st, env, b, w)
  {
    forall w | HasVal(st, w) ensures DefTemplate(st, env, a, w) == DefTemplate(st, env, b, w) {
      AnalysisFrame(st, env, a, b, w);
    }
  }

  /** The remattable set gains exactly the values of reg from number k on
      whose template is rematerializable, and it is marked scanned exactly
      when one of those values has a template. */
  lemma {:induction false} AnalyzeValuesRemat(st: MachineState, env: Env, sp: Spiller, reg: Reg, k: nat)
    requires reg in st.intervals
    ensures var r := AnalyzeValues(st, env, sp, reg, k);
      && (forall w :: w in r.remattable <==> w in sp.remattable || (w.reg == reg && k <= w.valno && RematCandidate(st, env, sp, w)))
      && (r.scannedRemattable <==> sp.scannedRemattable || exists w: Val :: w.reg == reg && k <= w.valno && HasTemplate(st, env, sp, w))
    decreases |st.intervals[reg].values| - k
  {
    if k < |st.intervals[reg].values| {
      var v := Val(reg, k);
      var sp1 := AnalyzeValue(st, env, sp, v);
      AnalyzeValueRemat(st, env, sp, v);
      AnalyzeValuesRemat(st, env, sp1, reg, k + 1);
      TemplatesAgree(st, env, sp1, sp);
      AnalyzeValuesScanned(st, env, sp, sp1, reg, k);
    } else {
      forall w: Val | w.reg == reg && k <= w.valno ensures !HasTemplate(st, env, sp, w) {
      }
    }
  }

  /** The scanned flag step of the lemma above. */
  lemma AnalyzeValuesScanned(st: MachineState, env: Env, sp: Spiller, sp1: Spiller, reg: Reg, k: nat)
    requires forall w :: HasTemplate(st, env, sp1, w) == HasTemplate(st, env, sp, w)
    ensures (HasTemplate(st, env, sp, Val(reg, k)) || exists w: Val :: w.reg == reg && k + 1 <= w.valno && HasTemplate(st, env, sp1, w))
        <==> exists w: Val :: w.reg == reg && k <= w.valno && HasTemplate(st, env, sp, w)
  {
    if exists w: Val :: w.reg == reg && k <= w.valno && HasTemplate(st, env, sp, w) {
      var w: Val :| w.reg == reg && k <= w.valno && HasTemplate(st, env, sp, w);
      if w.valno != k {
        assert HasTemplate(st, env, sp1, w);
      }
    }
    if HasTemplate(st, env, sp, Val(reg, k)) {
      assert Val(reg, k).reg == reg;
    }
  }

  lemma {:induction false} AnalyzeRegsFrame(st: MachineState, env: Env, sp: Spiller, regs: seq<Reg>)
    ensures AnalysisChanges(sp, AnalyzeRegs(st, env, sp, regs))
    decreases |regs|
  {
    if |regs| > 0 {
      if regs[0] in st.intervals {
        AnalyzeValuesFrame(st, env, sp, regs[0], 0);
      }
      var sp1 := if regs[0] in st.intervals then AnalyzeValues(st, env, sp, regs[0], 0) else sp;
      AnalyzeRegsFrame(st, env, sp1, regs[1..]);
    }
  }

  lemma {:induction false} AnalyzeRegsSib(st: MachineState, env: Env, sp: Spiller, regs: seq<Reg>)
    ensures var r := AnalyzeRegs(st, env, sp, regs);
      && (forall w :: w in r.sibValues <==> w in sp.sibValues || (w.reg in regs && TracedValue(st, env, sp, w)))
      && (forall w | w in sp.sibValues :: r.sibValues[w] == sp.sibValues[w])
      && (forall w | w in r.sibValues && w !in sp.sibValues :: TracedValue(st, env, sp, w) && r.sibValues[w] == Recorded(st, env, sp, w))
    decreases |regs|
  {
    if |regs| > 0 {
      var sp1 := if regs[0] in st.intervals then AnalyzeValues(st, env, sp, regs[0], 0) else sp;
      if regs[0] in st.intervals {
        AnalyzeValuesFrame(st, env, sp, regs[0], 0);
        AnalyzeValuesSib(st, env, sp, regs[0], 0);
      }
      AnalyzeRegsSib(st, env, sp1, regs[1..]);
      assert forall w: Val :: w.reg in regs <==> w.reg == regs[0] || w.reg in regs[1..];
      forall w | HasVal(st, w) ensures TracedValue(st, env, sp1, w) == TracedValue(st, env, sp, w)
        && (TracedValue(st, env, sp, w) ==> Recorded(st, env, sp1, w) == Recorded(st, env, sp, w))
      {
        AnalysisFrame(st, env, sp1, sp, w);
      }
    }
  }

  lemma {:induction false} AnalyzeRegsRemat(st: MachineState, env: Env, sp: Spiller, regs: seq<Reg>)
    ensures var r := AnalyzeRegs(st, env, sp, regs);
      && (forall w :: w in r.remattable <==> w in sp.remattable || (w.reg in regs && RematCandidate(st, env, sp, w)))
      && (r.scannedRemattable <==> sp.scannedRemattable || exists w: Val :: w.reg in regs && HasTemplate(st, env, sp, w))
    decreases |regs|
  {
    if |regs| > 0 {
      var sp1 := if regs[0] in st.intervals then AnalyzeValues(st, env, sp, regs[0], 0) else sp;
      if regs[0] in st.intervals {
        AnalyzeValuesFrame(st, env, sp, regs[0], 0);
        AnalyzeValuesRemat(st, env, sp, regs[0], 0);
      }
      AnalyzeRegsRemat(st, env, sp1, regs[1..]);
      assert forall w: Val :: w.reg in regs <==> w.reg == regs[0] || w.reg in regs[1..];
      forall w | HasVal(st, w) ensures DefTemplate(st, env, sp1, w) == DefTemplate(st, env, sp, w) {
        AnalysisFrame(st, env, sp1, sp, w);
      }
    }
  }

  /** analyzeSiblingValues clears the SibValues map, then fills it with exactly
      the traced values of the registers to spill (none for an original
      register), each mapped to what its trace records; the remattable set
      gains exactly their values whose template is trivially rematerializable. */
  lemma AnalyzeSiblingValuesSpec(st: MachineState, env: Env, sp: Spiller)
    ensures var r := AnalyzeSiblingValues(st, env, sp);
      && AnalysisChanges(sp, r)
      && (sp.reg == sp.original ==> r == sp.(sibValues := map[]))
      && (sp.reg != sp.original ==>
            && (forall w :: w in r.sibValues <==> IsRegToSpill(sp, w.reg) && TracedValue(st, env, sp, w))
            && (forall w :: w in r.remattable <==> w in sp.remattable || (IsRegToSpill(sp, w.reg) && RematCandidate(st, env, sp, w))))
      && (forall w | w in r.sibValues :: TracedValue(st, env, sp, w) && r.sibValues[w] == Recorded(st, env, sp, w))
  {
    var sp0 := sp.(sibValues := map[]);
    if sp.reg != sp.original {
      AnalyzeRegsFrame(st, env, sp0, sp.regsToSpill);
      AnalyzeRegsSib(st, env, sp0, sp.regsToSpill);
      AnalyzeRegsRemat(st, env, sp0, sp.regsToSpill);
      forall w | HasVal(st, w) ensures TracedValue(st, env, sp0, w) == TracedValue(st, env, sp, w)
        && DefTemplate(st, env, sp0, w) == DefTemplate(st, env, sp, w)
        && (TracedValue(st, env, sp, w) ==> Recorded(st, env, sp0, w) == Recorded(st, env, sp, w))
      {
        AnalysisFrame(st, env, sp0, sp, w);
      }
    }
  }
}
