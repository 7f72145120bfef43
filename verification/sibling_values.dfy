/*
 * Sibling values: values of the registers to spill that were defined by
 * copies from sibling registers (or by PHI-defs of live range splitting) are
 * traced back to their real definitions, to learn whether they are already
 * on the stack, where a spill could be hoisted to, and which instruction
 * could be rematerialized (InlineSpiller.cpp, "Sibling Values").
 */
module SiblingValues {
  import opened Optional
  import opened SpillMachine
  import opened SpillSnippets

  /** What traceSiblingValue does with a value it reaches. */
  datatype Step =
    | OrigPhi                    // a PHI-def at the original value's def: the branch stops
    | SplitPhi(inputs: seq<Val>) // another PHI-def: the values live out of the predecessors
    | SiblingCopy(src: Val)      // a full copy from a sibling: the copied value
    | StackReload                // a reload from the stack slot
    | RealDef(mi: Instr)         // any other defining instruction
    | Unexpected                 // no defining instruction, or a copy of no value

  function Classify(st: MachineState, env: Env, original: Reg, slot: int, origDef: SlotIndex, v: Val): (r: Step)
    requires HasVal(st, v)
    ensures r.SplitPhi? ==> forall k | 0 <= k < |r.inputs| :: HasVal(st, r.inputs[k])
    ensures r.SiblingCopy? ==> HasVal(st, r.src)
  {
    var vni := Vni(st, v);
    if vni.isPHIDef then
      if vni.def == origDef then OrigPhi else SplitPhi(PhiInputs(st, env, v))
    else
      match InstrAtIndex(st.code, vni.def)
      case None => Unexpected
      case Some(mi) =>
        var src := IsFullCopyOf(mi, v.reg);
        if src != 0 && IsSibling(st, original, src) then
          match ValAt(st, src, UseIndex(vni.def))
          case None => Unexpected
          case Some(sv) => SiblingCopy(sv)
        else if IsReloadOf(mi, v.reg, slot) then StackReload
        else RealDef(mi)
  }

  /** The values a step puts on the worklist. */
  function Successors(s: Step): seq<Val> {
    match s
    case SplitPhi(inputs) => inputs
    case SiblingCopy(src) => [src]
    case _ => []
  }

  /** A better spill location: not a register being spilled, in a block other
      than the use's that dominates it. */
  predicate IsCandidate(st: MachineState, env: Env, sp: Spiller, useBlock: nat, v: Val)
    requires HasVal(st, v)
  {
    var b := env.blockOf(Vni(st, v).def);
    !IsRegToSpill(sp, v.reg) && b != useBlock && env.dominates(b, useBlock)
  }

  function Depth(st: MachineState, env: Env, v: Val): nat
    requires HasVal(st, v)
  {
    env.loopDepth(env.blockOf(Vni(st, v).def))
  }

  datatype TraceState = TraceState(svi: SibValueInfo, depth: nat, seenOrigPhi: bool, visited: set<Val>)

  /** How the trace ends: having visited everything reachable, or at once with
      the defining instruction when the queried value is not a sibling copy. */
  datatype TraceEnd = Finished(ts: TraceState) | NotSibling(mi: Instr)

  /** The spill candidate update of traceSiblingValue's loop. */
  function Consider(st: MachineState, env: Env, sp: Spiller, useBlock: nat, v: Val, ts: TraceState): TraceState
    requires HasVal(st, v)
  {
    if IsCandidate(st, env, sp, useBlock, v) && Depth(st, env, v) < ts.depth then
      ts.(svi := ts.svi.(spillReg := v.reg, spillVal := v), depth := Depth(st, env, v))
    else ts
  }

  /** Processing a value popped for the first time: it becomes visited, may
      become the spill candidate, and its kind updates the flags. */
  function Visit(st: MachineState, env: Env, sp: Spiller, useBlock: nat, origDef: SlotIndex, v: Val, ts: TraceState): TraceState
    requires HasVal(st, v)
  {
    var ts1 := Consider(st, env, sp, useBlock, v, ts.(visited := ts.visited + {v}));
    match Classify(st, env, sp.original, sp.stackSlot, origDef, v)
    case OrigPhi => ts1.(seenOrigPhi := true)
    case StackReload => ts1.(svi := ts1.svi.(allDefsAreReloads := true))
    case RealDef(mi) => ts1.(svi := ts1.svi.(defMI := Some(mi)))
    case _ => ts1
  }

  /** The loop of traceSiblingValue. The worklist is a stack; a value is
      processed the first time it is popped. A real def of the queried value
      itself ends the trace at once. */
  function TraceLoop(st: MachineState, env: Env, sp: Spiller, useVal: Val, useBlock: nat, origDef: SlotIndex,
                     worklist: seq<Val>, ts: TraceState): TraceEnd
    decreases |AllVals(st.intervals) - ts.visited|, |worklist|
  {
    if |worklist| == 0 then Finished(ts)
    else
      var v := worklist[|worklist| - 1];
      var rest := worklist[..|worklist| - 1];
      if v in ts.visited || !HasVal(st, v) then TraceLoop(st, env, sp, useVal, useBlock, origDef, rest, ts)
      else
        var step := Classify(st, env, sp.original, sp.stackSlot, origDef, v);
        if step.RealDef? && v == useVal then NotSibling(step.mi)
        else
          var ts1 := Visit(st, env, sp, useBlock, origDef, v, ts);
          InAllVals(st, v);
          VisitShrinks(AllVals(st.intervals), ts.visited, v);
          VisitVisited(st, env, sp, useBlock, origDef, v, ts);
          TraceLoop(st, env, sp, useVal, useBlock, origDef, rest + Successors(step), ts1)
  }

  lemma VisitVisited(st: MachineState, env: Env, sp: Spiller, useBlock: nat, origDef: SlotIndex, v: Val, ts: TraceState)
    requires HasVal(st, v)
    ensures Visit(st, env, sp, useBlock, origDef, v, ts).visited == ts.visited + {v}
  {
  }

  function InitialTrace(st: MachineState, env: Env, useVal: Val): TraceState
    requires HasVal(st, useVal)
  {
    var useBlock := env.blockOf(Vni(st, useVal).def);
    TraceState(SibValueInfo(false, useVal.reg, useVal, None), env.loopDepth(useBlock), false, {})
  }

  /** The SibValueInfo recorded at the end: AllDefsAreReloads is dropped when
      an original PHI or a real def was seen. */
  function FinalInfo(ts: TraceState): SibValueInfo {
    if ts.seenOrigPhi || ts.svi.defMI.Some? then ts.svi.(allDefsAreReloads := false) else ts.svi
  }

  function UseBlock(st: MachineState, env: Env, useVal: Val): nat
    requires HasVal(st, useVal)
  {
    env.blockOf(Vni(st, useVal).def)
  }

  /** The whole trace from the queried value. */
  function Trace(st: MachineState, env: Env, sp: Spiller, useVal: Val, origDef: SlotIndex): TraceEnd
    requires HasVal(st, useVal)
  {
    TraceLoop(st, env, sp, useVal, UseBlock(st, env, useVal), origDef, [useVal], InitialTrace(st, env, useVal))
  }

  /** traceSiblingValue: the spiller with the value's SibValueInfo recorded,
      and a defining instruction usable as a rematerialization template. */
  function TraceSiblingValue(st: MachineState, env: Env, sp: Spiller, useVal: Val, origDef: SlotIndex): (Spiller, Option<Instr>)
    requires HasVal(st, useVal)
  {
    match Trace(st, env, sp, useVal, origDef)
    case NotSibling(mi) => (sp, Some(mi))
    case Finished(ts) =>
      var svi := FinalInfo(ts);
      (sp.(sibValues := if useVal in sp.sibValues then sp.sibValues else sp.sibValues[useVal := svi]), svi.defMI)
  }

  // ---------------------------------------------------------------------
  // The spill candidate.

  /** From trace state a to b the candidate was kept, or replaced by a newly
      visited candidate of strictly smaller depth, and no newly visited
      candidate is shallower than b's. */
  predicate CandidateProgress(st: MachineState, env: Env, sp: Spiller, useBlock: nat, a: TraceState, b: TraceState) {
    && a.visited <= b.visited
    && b.depth <= a.depth
    && ((b.svi.spillVal == a.svi.spillVal && b.svi.spillReg == a.svi.spillReg && b.depth == a.depth)
        || (b.svi.spillVal in b.visited && b.svi.spillVal !in a.visited && HasVal(st, b.svi.spillVal)
            && b.svi.spillReg == b.svi.spillVal.reg && IsCandidate(st, env, sp, useBlock, b.svi.spillVal)
            && Depth(st, env, b.svi.spillVal) == b.depth < a.depth))
    && (forall w | w in b.visited && w !in a.visited ::
          HasVal(st, w) && (IsCandidate(st, env, sp, useBlock, w) ==> Depth(st, env, w) >= b.depth))
  }

  lemma VisitCandidate(st: MachineState, env: Env, sp: Spiller, useBlock: nat, origDef: SlotIndex, v: Val, ts: TraceState)
    requires HasVal(st, v) && v !in ts.visited
    ensures CandidateProgress(st, env, sp, useBlock, ts, Visit(st, env, sp, useBlock, origDef, v, ts))
  {
    var t := Visit(st, env, sp, useBlock, origDef, v, ts);
    assert t.visited == ts.visited + {v};
  }

  lemma CandidateProgressTrans(st: MachineState, env: Env, sp: Spiller, useBlock: nat, a: TraceState, b: TraceState, c: TraceState)
    requires CandidateProgress(st, env, sp, useBlock, a, b)
    requires CandidateProgress(st, env, sp, useBlock, b, c)
    ensures CandidateProgress(st, env, sp, useBlock, a, c)
  {
    forall w | w in c.visited && w !in a.visited
      ensures HasVal(st, w) && (IsCandidate(st, env, sp, useBlock, w) ==> Depth(st, env, w) >= c.depth)
    {
      if w in b.visited {
        assert HasVal(st, w) && (IsCandidate(st, env, sp, useBlock, w) ==> Depth(st, env, w) >= b.depth);
      }
    }
  }

  lemma {:induction false} TraceLoopCandidate(st: MachineState, env: Env, sp: Spiller, useVal: Val, useBlock: nat,
                                              origDef: SlotIndex, worklist: seq<Val>, ts: TraceState)
    requires TraceLoop(st, env, sp, useVal, useBlock, origDef, worklist, ts).Finished?
    ensures CandidateProgress(st, env, sp, useBlock, ts, TraceLoop(st, env, sp, useVal, useBlock, origDef, worklist, ts).ts)
    decreases |AllVals(st.intervals) - ts.visited|, |worklist|
  {
    if |worklist| > 0 {
      var v := worklist[|worklist| - 1];
      var rest := worklist[..|worklist| - 1];
      if v in ts.visited || !HasVal(st, v) {
        TraceLoopCandidate(st, env, sp, useVal, useBlock, origDef, rest, ts);
      } else {
        var step := Classify(st, env, sp.original, sp.stackSlot, origDef, v);
        var ts2 := Visit(st, env, sp, useBlock, origDef, v, ts);
        InAllVals(st, v);
        VisitShrinks(AllVals(st.intervals), ts.visited, v);
        VisitVisited(st, env, sp, useBlock, origDef, v, ts);
        TraceLoopCandidate(st, env, sp, useVal, useBlock, origDef, rest + Successors(step), ts2);
        VisitCandidate(st, env, sp, useBlock, origDef, v, ts);
        CandidateProgressTrans(st, env, sp, useBlock, ts, ts2,
          TraceLoop(st, env, sp, useVal, useBlock, origDef, rest + Successors(step), ts2).ts);
      }
    }
  }

  /** The spill candidate traceSiblingValue records: the queried value itself
      at the use block's loop depth, or a visited value outside RegsToSpill
      whose block differs from and dominates the use block, at a strictly
      smaller loop depth; and no visited candidate has a smaller depth. */
  lemma TraceSpillCandidate(st: MachineState, env: Env, sp: Spiller, useVal: Val, origDef: SlotIndex)
    requires HasVal(st, useVal) && Trace(st, env, sp, useVal, origDef).Finished?
    ensures var ts := Trace(st, env, sp, useVal, origDef).ts;
      var useBlock := UseBlock(st, env, useVal);
      && ((ts.svi.spillVal == useVal && ts.svi.spillReg == useVal.reg && ts.depth == env.loopDepth(useBlock))
          || (ts.svi.spillVal in ts.visited && HasVal(st, ts.svi.spillVal) && ts.svi.spillReg == ts.svi.spillVal.reg
              && IsCandidate(st, env, sp, useBlock, ts.svi.spillVal)
              && Depth(st, env, ts.svi.spillVal) == ts.depth < env.loopDepth(useBlock)))
      && (forall w | w in ts.visited :: HasVal(st, w) && (IsCandidate(st, env, sp, useBlock, w) ==> Depth(st, env, w) >= ts.depth))
  {
    TraceLoopCandidate(st, env, sp, useVal, UseBlock(st, env, useVal), origDef, [useVal], InitialTrace(st, env, useVal));
  }

  // ---------------------------------------------------------------------
  // The flags: original PHI seen, all defs are reloads, real def seen.

  function Flag(ts: TraceState, kind: nat): bool {
    if kind == 0 then ts.seenOrigPhi else if kind == 1 then ts.svi.allDefsAreReloads else ts.svi.defMI.Some?
  }

  predicate OfKind(step: Step, kind: nat) {
    if kind == 0 then step.OrigPhi? else if kind == 1 then step.StackReload? else step.RealDef?
  }

  /** Some value visited from a to b is of the given kind. */
  predicate SomeNewOfKind(st: MachineState, env: Env, sp: Spiller, origDef: SlotIndex, a: set<Val>, b: set<Val>, kind: nat) {
    exists w | w in b && w !in a :: HasVal(st, w) && OfKind(Classify(st, env, sp.original, sp.stackSlot, origDef, w), kind)
  }

  lemma VisitFlag(st: MachineState, env: Env, sp: Spiller, useBlock: nat, origDef: SlotIndex, v: Val, ts: TraceState, kind: nat)
    requires HasVal(st, v)
    ensures Flag(Visit(st, env, sp, useBlock, origDef, v, ts), kind) <==>
      Flag(ts, kind) || OfKind(Classify(st, env, sp.original, sp.stackSlot, origDef, v), kind)
  {
  }

  lemma {:induction false} TraceLoopFlag(st: MachineState, env: Env, sp: Spiller, useVal: Val, useBlock: nat,
                                         origDef: SlotIndex, worklist: seq<Val>, ts: TraceState, kind: nat)
    requires TraceLoop(st, env, sp, useVal, useBlock, origDef, worklist, ts).Finished?
    ensures var r := TraceLoop(st, env, sp, useVal, useBlock, origDef, worklist, ts).ts;
      && ts.visited <= r.visited
      && (Flag(r, kind) <==> Flag(ts, kind) || SomeNewOfKind(st, env, sp, origDef, ts.visited, r.visited, kind))
    decreases |AllVals(st.intervals) - ts.visited|, |worklist|
  {
    if |worklist| > 0 {
      var v := worklist[|worklist| - 1];
      var rest := worklist[..|worklist| - 1];
      if v in ts.visited || !HasVal(st, v) {
        TraceLoopFlag(st, env, sp, useVal, useBlock, origDef, rest, ts, kind);
      } else {
        var step := Classify(st, env, sp.original, sp.stackSlot, origDef, v);
        var ts2 := Visit(st, env, sp, useBlock, origDef, v, ts);
        InAllVals(st, v);
        VisitShrinks(AllVals(st.intervals), ts.visited, v);
        VisitVisited(st, env, sp, useBlock, origDef, v, ts);
        TraceLoopFlag(st, env, sp, useVal, useBlock, origDef, rest + Successors(step), ts2, kind);
        VisitFlag(st, env, sp, useBlock, origDef, v, ts, kind);
        var r := TraceLoop(st, env, sp, useVal, useBlock, origDef, rest + Successors(step), ts2).ts;
        if SomeNewOfKind(st, env, sp, origDef, ts.visited, r.visited, kind) {
          var w :| w in r.visited && w !in ts.visited && HasVal(st, w)
                   && OfKind(Classify(st, env, sp.original, sp.stackSlot, origDef, w), kind);
          if w != v {
            assert SomeNewOfKind(st, env, sp, origDef, ts2.visited, r.visited, kind);
          }
        }
        if SomeNewOfKind(st, env, sp, origDef, ts2.visited, r.visited, kind) {
          var w :| w in r.visited && w !in ts2.visited && HasVal(st, w)
                   && OfKind(Classify(st, env, sp.original, sp.stackSlot, origDef, w), kind);
          assert SomeNewOfKind(st, env, sp, origDef, ts.visited, r.visited, kind);
        }
        if OfKind(step, kind) {
          assert SomeNewOfKind(st, env, sp, origDef, ts.visited, r.visited, kind);
        }
      }
    }
  }

  /** The recorded AllDefsAreReloads holds exactly when a visited value is a
      reload of the stack slot and no visited value is an original PHI-def or a
      real def; a template instruction is returned exactly when a real def was
      visited. */
  lemma TraceOutcome(st: MachineState, env: Env, sp: Spiller, useVal: Val, origDef: SlotIndex)
    requires HasVal(st, useVal) && Trace(st, env, sp, useVal, origDef).Finished?
    ensures var ts := Trace(st, env, sp, useVal, origDef).ts;
      && (FinalInfo(ts).allDefsAreReloads <==>
            SomeNewOfKind(st, env, sp, origDef, {}, ts.visited, 1)
            && !SomeNewOfKind(st, env, sp, origDef, {}, ts.visited, 0)
            && !SomeNewOfKind(st, env, sp, origDef, {}, ts.visited, 2))
      && (FinalInfo(ts).defMI.Some? <==> SomeNewOfKind(st, env, sp, origDef, {}, ts.visited, 2))
  {
    var useBlock := UseBlock(st, env, useVal);
    var init := InitialTrace(st, env, useVal);
    TraceLoopFlag(st, env, sp, useVal, useBlock, origDef, [useVal], init, 0);
    TraceLoopFlag(st, env, sp, useVal, useBlock, origDef, [useVal], init, 1);
    TraceLoopFlag(st, env, sp, useVal, useBlock, origDef, [useVal], init, 2);
  }

  // ---------------------------------------------------------------------
  // What is visited.

  /** Every value a visited value puts on the worklist is visited too. */
  predicate SuccessorsIn(st: MachineState, env: Env, sp: Spiller, origDef: SlotIndex, v: Val, visited: set<Val>) {
    HasVal(st, v)
    && forall w | w in Successors(Classify(st, env, sp.original, sp.stackSlot, origDef, v)) :: w in visited
  }

  /** The loop only adds to the visited set, and visits every valid value on
      its worklist. */
  lemma {:induction false} TraceLoopCovers(st: MachineState, env: Env, sp: Spiller, useVal: Val, useBlock: nat,
                                           origDef: SlotIndex, worklist: seq<Val>, ts: TraceState)
    requires TraceLoop(st, env, sp, useVal, useBlock, origDef, worklist, ts).Finished?
    ensures var r := TraceLoop(st, env, sp, useVal, useBlock, origDef, worklist, ts).ts;
      && ts.visited <= r.visited
      && (forall w | w in worklist && HasVal(st, w) :: w in r.visited)
    decreases |AllVals(st.intervals) - ts.visited|, |worklist|
  {
    if |worklist| > 0 {
      var v := worklist[|worklist| - 1];
      var rest := worklist[..|worklist| - 1];
      assert forall w | w in worklist :: w in rest || w == v;
      if v in ts.visited || !HasVal(st, v) {
        TraceLoopCovers(st, env, sp, useVal, useBlock, origDef, rest, ts);
      } else {
        var step := Classify(st, env, sp.original, sp.stackSlot, origDef, v);
        var ts2 := Visit(st, env, sp, useBlock, origDef, v, ts);
        InAllVals(st, v);
        VisitShrinks(AllVals(st.intervals), ts.visited, v);
        VisitVisited(st, env, sp, useBlock, origDef, v, ts);
        var next := rest + Successors(step);
        TraceLoopCovers(st, env, sp, useVal, useBlock, origDef, next, ts2);
        assert forall w | w in rest :: w in next;
      }
    }
  }

  lemma {:induction false} TraceLoopClosed(st: MachineState, env: Env, sp: Spiller, useVal: Val, useBlock: nat,
                                           origDef: SlotIndex, worklist: seq<Val>, ts: TraceState)
    requires TraceLoop(st, env, sp, useVal, useBlock, origDef, worklist, ts).Finished?
    ensures var r := TraceLoop(st, env, sp, useVal, useBlock, origDef, worklist, ts).ts;
      forall v | v in r.visited && v !in ts.visited :: SuccessorsIn(st, env, sp, origDef, v, r.visited)
    decreases |AllVals(st.intervals) - ts.visited|, |worklist|
  {
    if |worklist| > 0 {
      var v := worklist[|worklist| - 1];
      var rest := worklist[..|worklist| - 1];
      if v in ts.visited || !HasVal(st, v) {
        TraceLoopClosed(st, env, sp, useVal, useBlock, origDef, rest, ts);
      } else {
        var step := Classify(st, env, sp.original, sp.stackSlot, origDef, v);
        var ts2 := Visit(st, env, sp, useBlock, origDef, v, ts);
        InAllVals(st, v);
        VisitShrinks(AllVals(st.intervals), ts.visited, v);
        VisitVisited(st, env, sp, useBlock, origDef, v, ts);
        var next := rest + Successors(step);
        TraceLoopClosed(st, env, sp, useVal, useBlock, origDef, next, ts2);
        TraceLoopCovers(st, env, sp, useVal, useBlock, origDef, next, ts2);
        var r := TraceLoop(st, env, sp, useVal, useBlock, origDef, next, ts2).ts;
        forall w | w in Successors(step) ensures w in r.visited {
          assert w in next;
        }
        assert SuccessorsIn(st, env, sp, origDef, v, r.visited);
      }
    }
  }

  /** The visited values contain the queried value and are closed under the
      trace's steps: every predecessor live-out value of a split PHI-def and
      the source of every sibling copy reached is reached too. */
  lemma TraceClosed(st: MachineState, env: Env, sp: Spiller, useVal: Val, origDef: SlotIndex)
    requires HasVal(st, useVal) && Trace(st, env, sp, useVal, origDef).Finished?
    ensures var ts := Trace(st, env, sp, useVal, origDef).ts;
      && useVal in ts.visited
      && forall v | v in ts.visited :: SuccessorsIn(st, env, sp, origDef, v, ts.visited)
  {
    TraceLoopCovers(st, env, sp, useVal, UseBlock(st, env, useVal), origDef, [useVal], InitialTrace(st, env, useVal));
    TraceLoopClosed(st, env, sp, useVal, UseBlock(st, env, useVal), origDef, [useVal], InitialTrace(st, env, useVal));
  }

  /** The loop visits nothing outside a set S that holds what it has visited
      and the valid values on its worklist, and that is closed under the
      trace's steps. */
  lemma {:induction false} TraceLoopLeast(st: MachineState, env: Env, sp: Spiller, useVal: Val, useBlock: nat,
                                          origDef: SlotIndex, worklist: seq<Val>, ts: TraceState, S: set<Val>)
    requires TraceLoop(st, env, sp, useVal, useBlock, origDef, worklist, ts).Finished?
    requires ts.visited <= S && forall w | w in worklist && HasVal(st, w) :: w in S
    requires forall w | w in S && HasVal(st, w) :: SuccessorsIn(st, env, sp, origDef, w, S)
    ensures TraceLoop(st, env, sp, useVal, useBlock, origDef, worklist, ts).ts.visited <= S
    decreases |AllVals(st.intervals) - ts.visited|, |worklist|
  {
    if |worklist| > 0 {
      var v := worklist[|worklist| - 1];
      var rest := worklist[..|worklist| - 1];
      assert forall w | w in rest :: w in worklist;
      if v in ts.visited || !HasVal(st, v) {
        TraceLoopLeast(st, env, sp, useVal, useBlock, origDef, rest, ts, S);
      } else {
        var step := Classify(st, env, sp.original, sp.stackSlot, origDef, v);
        var ts2 := Visit(st, env, sp, useBlock, origDef, v, ts);
        InAllVals(st, v);
        VisitShrinks(AllVals(st.intervals), ts.visited, v);
        VisitVisited(st, env, sp, useBlock, origDef, v, ts);
        var next := rest + Successors(step);
        assert SuccessorsIn(st, env, sp, origDef, v, S);
        assert forall w | w in next :: w in rest || w in Successors(step);
        TraceLoopLeast(st, env, sp, useVal, useBlock, origDef, next, ts2, S);
      }
    }
  }

  /** The visited values are the least set holding the queried value and
      closed under the trace's steps: every set that is closed and holds the
      queried value contains them. */
  lemma TraceLeast(st: MachineState, env: Env, sp: Spiller, useVal: Val, origDef: SlotIndex, S: set<Val>)
    requires HasVal(st, useVal) && Trace(st, env, sp, useVal, origDef).Finished?
    requires useVal in S && forall w | w in S && HasVal(st, w) :: SuccessorsIn(st, env, sp, origDef, w, S)
    ensures Trace(st, env, sp, useVal, origDef).ts.visited <= S
  {
    TraceLoopLeast(st, env, sp, useVal, UseBlock(st, env, useVal), origDef, [useVal], InitialTrace(st, env, useVal), S);
  }

  /** Once the queried value is visited the trace cannot end early. */
  lemma {:induction false} TraceLoopFinishes(st: MachineState, env: Env, sp: Spiller, useVal: Val, useBlock: nat,
                                             origDef: SlotIndex, worklist: seq<Val>, ts: TraceState)
    requires useVal in ts.visited
    ensures TraceLoop(st, env, sp, useVal, useBlock, origDef, worklist, ts).Finished?
    decreases |AllVals(st.intervals) - ts.visited|, |worklist|
  {
    if |worklist| > 0 {
      var v := worklist[|worklist| - 1];
      var rest := worklist[..|worklist| - 1];
      if v in ts.visited || !HasVal(st, v) {
        TraceLoopFinishes(st, env, sp, useVal, useBlock, origDef, rest, ts);
      } else {
        var step := Classify(st, env, sp.original, sp.stackSlot, origDef, v);
        InAllVals(st, v);
        VisitShrinks(AllVals(st.intervals), ts.visited, v);
        VisitVisited(st, env, sp, useBlock, origDef, v, ts);
        TraceLoopFinishes(st, env, sp, useVal, useBlock, origDef, rest + Successors(step),
                          Visit(st, env, sp, useBlock, origDef, v, ts));
      }
    }
  }

  /** traceSiblingValue returns at once, recording nothing, exactly when the
      queried value is a real def; otherwise it records the final
      SibValueInfo for the value (unless one is already there) and returns the
      template instruction of this trace. */
  lemma TraceSiblingValueSpec(st: MachineState, env: Env, sp: Spiller, useVal: Val, origDef: SlotIndex)
    requires HasVal(st, useVal)
    ensures var step := Classify(st, env, sp.original, sp.stackSlot, origDef, useVal);
      var r := TraceSiblingValue(st, env, sp, useVal, origDef);
      && (step.RealDef? ==> r == (sp, Some(step.mi)))
      && (!step.RealDef? ==>
            && Trace(st, env, sp, useVal, origDef).Finished?
            && r.0 == sp.(sibValues := r.0.sibValues)
            && useVal in r.0.sibValues
            && (useVal in sp.sibValues ==> r.0.sibValues == sp.sibValues)
            && (useVal !in sp.sibValues ==>
                  r.0.sibValues == sp.sibValues[useVal := FinalInfo(Trace(st, env, sp, useVal, origDef).ts)])
            && r.1 == FinalInfo(Trace(st, env, sp, useVal, origDef).ts).defMI)
  {
    var step := Classify(st, env, sp.original, sp.stackSlot, origDef, useVal);
    var useBlock := UseBlock(st, env, useVal);
    var init := InitialTrace(st, env, useVal);
    assert [useVal][..0] == [];
    if !step.RealDef? {
      InAllVals(st, useVal);
      VisitShrinks(AllVals(st.intervals), init.visited, useVal);
      VisitVisited(st, env, sp, useBlock, origDef, useVal, init);
      TraceLoopFinishes(st, env, sp, useVal, useBlock, origDef, [] + Successors(step),
                        Visit(st, env, sp, useBlock, origDef, useVal, init));
    }
  }
}
