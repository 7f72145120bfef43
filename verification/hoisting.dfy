/*
 * Spill hoisting: when a value defined by a sibling copy is known to be on
 * the stack already, or can be spilled at a better place, the spill is
 * hoisted to that place and the spills it makes redundant are removed
 * (InlineSpiller.cpp, hoistSpill and eliminateRedundantSpills).
 */
module Hoisting {
  import opened Optional
  import opened SpillMachine
  import opened SpillSnippets

  /** A store of v's register to the stack slot at a point where v is live. */
  predicate RedundantSpill(st: MachineState, sp: Spiller, v: Val, mi: Instr) {
    && ReadsOperand(mi, v.reg) && !mi.opcode.DebugValue?
    && ValAt(st, v.reg, mi.index) == Some(v)
    && IsFullCopyOf(mi, v.reg) == 0
    && IsSpillOf(mi, v.reg, sp.stackSlot)
  }

  /** A full copy of v into a sibling register, whose value defined there is w. */
  predicate CopiesTo(st: MachineState, sp: Spiller, v: Val, mi: Instr, w: Val) {
    && ReadsOperand(mi, v.reg) && !mi.opcode.DebugValue?
    && ValAt(st, v.reg, mi.index) == Some(v)
    && IsFullCopyOf(mi, v.reg) != 0
    && IsSibling(st, sp.original, IsFullCopyOf(mi, v.reg))
    && ValAt(st, IsFullCopyOf(mi, v.reg), DefIndex(mi.index)) == Some(w)
  }

  /** The stack store turned into a KILL, so that dead def elimination may erase it. */
  function Killed(mi: Instr): Instr {
    mi.(opcode := Kill)
  }

  /** What the scan over the uses of one value produces: the rewritten code,
      the dead defs, and the sibling values its copies define. */
  datatype Redundant = Redundant(code: seq<Instr>, deadDefs: seq<nat>, copies: seq<Val>)

  /** One instruction of the loop over the uses of v's register in
      eliminateRedundantSpills: follow a sibling copy, or turn a store of v
      into a dead KILL. Only the instruction at p itself is rewritten. */
  function ScanStep(st: MachineState, sp: Spiller, v: Val, acc: Redundant, p: nat): Redundant
    requires p < |acc.code|
  {
    var mi := acc.code[p];
    var dst := IsFullCopyOf(mi, v.reg);
    if !ReadsOperand(mi, v.reg) || mi.opcode.DebugValue? || (!mi.opcode.Copy? && !MayStore(mi))
       || ValAt(st, v.reg, mi.index) != Some(v) then acc
    else if dst != 0 then
      match (if IsSibling(st, sp.original, dst) then ValAt(st, dst, DefIndex(mi.index)) else None)
      case None => acc
      case Some(w) => acc.(copies := acc.copies + [w])
    else if IsSpillOf(mi, v.reg, sp.stackSlot) then
      acc.(code := acc.code[p := Killed(mi)], deadDefs := acc.deadDefs + [mi.id])
    else acc
  }

  /** The loop over the uses, from position p on. */
  function ScanRedundant(st: MachineState, sp: Spiller, v: Val, acc: Redundant, p: nat): Redundant
    requires p <= |acc.code|
    decreases |acc.code| - p
  {
    if p == |acc.code| then acc
    else
      var acc1 := ScanStep(st, sp, v, acc, p);
      assert |acc1.code| == |acc.code|;
      ScanRedundant(st, sp, v, acc1, p + 1)
  }

  /** What eliminateRedundantSpills changes: the code, the stack slot
      intervals and the dead defs; and the values it has processed. */
  datatype Elim = Elim(code: seq<Instr>, stack: map<int, seq<Segment>>, deadDefs: seq<nat>, visited: set<Val>)

  /** The worklist loop of eliminateRedundantSpills. A value is processed at
      most once. */
  function EliminateLoop(st: MachineState, sp: Spiller, worklist: seq<Val>, e: Elim): Elim
    decreases |AllVals(st.intervals) - e.visited|, |worklist|
  {
    if |worklist| == 0 then e
    else
      var v := worklist[|worklist| - 1];
      var rest := worklist[..|worklist| - 1];
      if v in e.visited || !HasVal(st, v) || IsRegToSpill(sp, v.reg) then EliminateLoop(st, sp, rest, e)
      else
        var merged := MergeIntoSlot(e.stack, sp.stackSlot, ValueSegments(st.intervals[v.reg].segments, v.valno));
        var s := ScanRedundant(st, sp, v, Redundant(e.code, e.deadDefs, []), 0);
        InAllVals(st, v);
        VisitShrinks(AllVals(st.intervals), e.visited, v);
        EliminateLoop(st, sp, rest + s.copies, Elim(s.code, merged, s.deadDefs, e.visited + {v}))
  }

  function StartElim(st: MachineState, sp: Spiller): Elim {
    Elim(st.code, st.stackIntervals, sp.deadDefs, {})
  }

  /** The values eliminateRedundantSpills processes. */
  function EliminatedValues(st: MachineState, sp: Spiller, v: Val): set<Val> {
    EliminateLoop(st, sp, [v], StartElim(st, sp)).visited
  }

  /** eliminateRedundantSpills: v is known to be on the stack; remove the
      stores of it and of the sibling values copied from it. */
  function EliminateRedundantSpills(st: MachineState, sp: Spiller, v: Val): (MachineState, Spiller) {
    var e := EliminateLoop(st, sp, [v], StartElim(st, sp));
    (st.(code := e.code, stackIntervals := e.stack), sp.(deadDefs := e.deadDefs))
  }

  // ---------------------------------------------------------------------
  // The scan over one value's uses.

  /** What one step does: the instruction at p is killed exactly when it is a
      redundant spill of v, its id is then the one new dead def, and a copy of
      v adds the sibling value it defines. */
  lemma ScanStepSpec(st: MachineState, sp: Spiller, v: Val, acc: Redundant, p: nat)
    requires p < |acc.code|
    ensures var r := ScanStep(st, sp, v, acc, p);
      && r.code == (if RedundantSpill(st, sp, v, acc.code[p]) then acc.code[p := Killed(acc.code[p])] else acc.code)
      && r.deadDefs == acc.deadDefs + (if RedundantSpill(st, sp, v, acc.code[p]) then [acc.code[p].id] else [])
      && r.copies[..|acc.copies|] == acc.copies
      && (r.copies == acc.copies || exists w :: r.copies == acc.copies + [w] && CopiesTo(st, sp, v, acc.code[p], w))
      && (forall w | CopiesTo(st, sp, v, acc.code[p], w) :: r.copies == acc.copies + [w])
  {
  }

  /** Exactly the redundant spills of v from position p on become KILLs. */
  lemma {:induction false} ScanRedundantCode(st: MachineState, sp: Spiller, v: Val, acc: Redundant, p: nat)
    requires p <= |acc.code|
    ensures var r := ScanRedundant(st, sp, v, acc, p);
      && |r.code| == |acc.code|
      && forall q | 0 <= q < |r.code| ::
           r.code[q] == (if p <= q && RedundantSpill(st, sp, v, acc.code[q]) then Killed(acc.code[q]) else acc.code[q])
    decreases |acc.code| - p
  {
    if p < |acc.code| {
      ScanStepSpec(st, sp, v, acc, p);
      ScanRedundantCode(st, sp, v, ScanStep(st, sp, v, acc, p), p + 1);
    }
  }

  /** The sibling value a copy of v at mi defines, if mi is one. */
  function CopyOf(st: MachineState, sp: Spiller, v: Val, mi: Instr): (r: seq<Val>)
    ensures forall w :: w in r <==> CopiesTo(st, sp, v, mi, w)
  {
    var dst := IsFullCopyOf(mi, v.reg);
    if ReadsOperand(mi, v.reg) && !mi.opcode.DebugValue? && ValAt(st, v.reg, mi.index) == Some(v)
       && dst != 0 && IsSibling(st, sp.original, dst) && ValAt(st, dst, DefIndex(mi.index)).Some?
    then [ValAt(st, dst, DefIndex(mi.index)).value]
    else []
  }

  /** The id mi adds to the dead defs, if it is a redundant spill of v. */
  function DeadOf(st: MachineState, sp: Spiller, v: Val, mi: Instr): (r: seq<nat>)
    ensures forall id :: id in r <==> RedundantSpill(st, sp, v, mi) && mi.id == id
  {
    if RedundantSpill(st, sp, v, mi) then [mi.id] else []
  }

  /** One step, as far as the dead defs and the copies are concerned; the
      instructions after p are untouched. */
  lemma ScanStepLists(st: MachineState, sp: Spiller, v: Val, acc: Redundant, p: nat)
    requires p < |acc.code|
    ensures var r := ScanStep(st, sp, v, acc, p);
      && |r.code| == |acc.code|
      && (forall q | p < q < |acc.code| :: r.code[q] == acc.code[q])
      && r.deadDefs == acc.deadDefs + DeadOf(st, sp, v, acc.code[p])
      && r.copies == acc.copies + CopyOf(st, sp, v, acc.code[p])
  {
  }

  /** A list that was extended by `mine` and then further: what it gained
      is `mine` followed by the rest. */
  lemma GainedAfter<T>(a: seq<T>, mine: seq<T>, a1: seq<T>, r: seq<T>)
    requires a1 == a + mine
    requires |a1| <= |r| && r[..|a1|] == a1
    ensures |a| <= |r| && r[..|a|] == a
    ensures r[|a|..] == mine + r[|a1|..]
  {
    assert r[..|a|] == a1[..|a|];
  }

  /** The redundant spills from p on are the one at p and those after it,
      which the step left in place. */
  lemma DeadFrom(st: MachineState, sp: Spiller, v: Val, code: seq<Instr>, code1: seq<Instr>, p: nat, id: nat)
    requires p < |code| == |code1| && forall q | p < q < |code| :: code1[q] == code[q]
    ensures (exists q | p <= q < |code| :: RedundantSpill(st, sp, v, code[q]) && code[q].id == id) <==>
      (RedundantSpill(st, sp, v, code[p]) && code[p].id == id)
      || exists q | p + 1 <= q < |code1| :: RedundantSpill(st, sp, v, code1[q]) && code1[q].id == id
  {
    if exists q | p + 1 <= q < |code1| :: RedundantSpill(st, sp, v, code1[q]) && code1[q].id == id {
      var q :| p + 1 <= q < |code1| && RedundantSpill(st, sp, v, code1[q]) && code1[q].id == id;
      assert code[q] == code1[q];
    }
    if exists q | p <= q < |code| :: RedundantSpill(st, sp, v, code[q]) && code[q].id == id {
      var q :| p <= q < |code| && RedundantSpill(st, sp, v, code[q]) && code[q].id == id;
      if q > p {
        assert code1[q] == code[q];
      }
    }
  }

  /** The same for the copies. */
  lemma CopiesFrom(st: MachineState, sp: Spiller, v: Val, code: seq<Instr>, code1: seq<Instr>, p: nat, w: Val)
    requires p < |code| == |code1| && forall q | p < q < |code| :: code1[q] == code[q]
    ensures (exists q | p <= q < |code| :: CopiesTo(st, sp, v, code[q], w)) <==>
      CopiesTo(st, sp, v, code[p], w) || exists q | p + 1 <= q < |code1| :: CopiesTo(st, sp, v, code1[q], w)
  {
    if exists q | p + 1 <= q < |code1| :: CopiesTo(st, sp, v, code1[q], w) {
      CopiesLater(st, sp, v, code, code1, p, w);
    }
    if exists q | p <= q < |code| :: CopiesTo(st, sp, v, code[q], w) {
      CopiesEarlier(st, sp, v, code, code1, p, w);
    }
  }

  lemma CopiesLater(st: MachineState, sp: Spiller, v: Val, code: seq<Instr>, code1: seq<Instr>, p: nat, w: Val)
    requires p < |code| == |code1| && forall q | p < q < |code| :: code1[q] == code[q]
    requires exists q | p + 1 <= q < |code1| :: CopiesTo(st, sp, v, code1[q], w)
    ensures exists q | p <= q < |code| :: CopiesTo(st, sp, v, code[q], w)
  {
    var q :| p + 1 <= q < |code1| && CopiesTo(st, sp, v, code1[q], w);
    assert code[q] == code1[q];
  }

  lemma CopiesEarlier(st: MachineState, sp: Spiller, v: Val, code: seq<Instr>, code1: seq<Instr>, p: nat, w: Val)
    requires p < |code| == |code1| && forall q | p < q < |code| :: code1[q] == code[q]
    requires exists q | p <= q < |code| :: CopiesTo(st, sp, v, code[q], w)
    ensures CopiesTo(st, sp, v, code[p], w) || exists q | p + 1 <= q < |code1| :: CopiesTo(st, sp, v, code1[q], w)
  {
    var q :| p <= q < |code| && CopiesTo(st, sp, v, code[q], w);
    if q > p {
      assert code1[q] == code[q];
    }
  }

  /** The dead defs gain exactly the ids of the redundant spills of v from
      position p on. */
  lemma {:induction false} ScanRedundantDead(st: MachineState, sp: Spiller, v: Val, acc: Redundant, p: nat)
    requires p <= |acc.code|
    ensures var r := ScanRedundant(st, sp, v, acc, p);
      && |acc.deadDefs| <= |r.deadDefs| && r.deadDefs[..|acc.deadDefs|] == acc.deadDefs
      && forall id :: id in r.deadDefs[|acc.deadDefs|..] <==>
           exists q | p <= q < |acc.code| :: RedundantSpill(st, sp, v, acc.code[q]) && acc.code[q].id == id
    decreases |acc.code| - p
  {
    if p < |acc.code| {
      var acc1 := ScanStep(st, sp, v, acc, p);
      var r := ScanRedundant(st, sp, v, acc1, p + 1);
      ScanStepLists(st, sp, v, acc, p);
      ScanRedundantDead(st, sp, v, acc1, p + 1);
      GainedAfter(acc.deadDefs, DeadOf(st, sp, v, acc.code[p]), acc1.deadDefs, r.deadDefs);
      forall id ensures id in r.deadDefs[|acc.deadDefs|..] <==>
                        exists q | p <= q < |acc.code| :: RedundantSpill(st, sp, v, acc.code[q]) && acc.code[q].id == id
      {
        DeadFrom(st, sp, v, acc.code, acc1.code, p, id);
      }
    }
  }

  /** The sibling values queued are exactly those that copies of v from
      position p on define. */
  lemma {:induction false} ScanRedundantCopies(st: MachineState, sp: Spiller, v: Val, acc: Redundant, p: nat)
    requires p <= |acc.code|
    ensures var r := ScanRedundant(st, sp, v, acc, p);
      && |acc.copies| <= |r.copies| && r.copies[..|acc.copies|] == acc.copies
      && forall w :: w in r.copies[|acc.copies|..] <==> exists q | p <= q < |acc.code| :: CopiesTo(st, sp, v, acc.code[q], w)
    decreases |acc.code| - p
  {
    if p < |acc.code| {
      var acc1 := ScanStep(st, sp, v, acc, p);
      var r := ScanRedundant(st, sp, v, acc1, p + 1);
      ScanStepLists(st, sp, v, acc, p);
      ScanRedundantCopies(st, sp, v, acc1, p + 1);
      GainedAfter(acc.copies, CopyOf(st, sp, v, acc.code[p]), acc1.copies, r.copies);
      forall w ensures w in r.copies[|acc.copies|..] <==> exists q | p <= q < |acc.code| :: CopiesTo(st, sp, v, acc.code[q], w) {
        CopiesFrom(st, sp, v, acc.code, acc1.code, p, w);
      }
    }
  }

  // ---------------------------------------------------------------------
  // The worklist loop.

  /** b is a with some stores to the stack slot, of registers that are not
      being spilled, turned into KILLs whose ids are among the dead defs. */
  predicate KilledSpills(sp: Spiller, a: seq<Instr>, b: seq<Instr>, dead: seq<nat>) {
    |b| == |a|
    && forall q | 0 <= q < |a| ::
         b[q] == a[q]
         || (&& a[q].opcode == StackStore(sp.stackSlot) && !IsRegToSpill(sp, StackStoreReg(a[q]))
             && b[q] == Killed(a[q]) && a[q].id in dead)
  }

  lemma KilledSpillsTrans(sp: Spiller, a: seq<Instr>, b: seq<Instr>, c: seq<Instr>, d1: seq<nat>, d2: seq<nat>)
    requires KilledSpills(sp, a, b, d1) && KilledSpills(sp, b, c, d2)
    requires |d1| <= |d2| && d2[..|d1|] == d1
    ensures KilledSpills(sp, a, c, d2)
  {
    forall q | 0 <= q < |a| && c[q] != a[q]
      ensures a[q].opcode == StackStore(sp.stackSlot) && !IsRegToSpill(sp, StackStoreReg(a[q]))
              && c[q] == Killed(a[q]) && a[q].id in d2
    {
      if b[q] != a[q] {
        assert a[q].id in d2[..|d1|];
      }
    }
  }

  /** What one processed value does to the code and the dead defs. */
  lemma ScanKills(st: MachineState, sp: Spiller, v: Val, e: Elim)
    requires !IsRegToSpill(sp, v.reg)
    ensures var s := ScanRedundant(st, sp, v, Redundant(e.code, e.deadDefs, []), 0);
      && KilledSpills(sp, e.code, s.code, s.deadDefs)
      && |e.deadDefs| <= |s.deadDefs| && s.deadDefs[..|e.deadDefs|] == e.deadDefs
      && forall q | 0 <= q < |s.code| :: !RedundantSpill(st, sp, v, s.code[q])
  {
    var s := ScanRedundant(st, sp, v, Redundant(e.code, e.deadDefs, []), 0);
    ScanRedundantCode(st, sp, v, Redundant(e.code, e.deadDefs, []), 0);
    ScanRedundantDead(st, sp, v, Redundant(e.code, e.deadDefs, []), 0);
    forall q | 0 <= q < |e.code| && RedundantSpill(st, sp, v, e.code[q]) ensures e.code[q].id in s.deadDefs {
      assert e.code[q].id in s.deadDefs[|e.deadDefs|..];
    }
  }

  /** The loop only kills stores of values outside RegsToSpill and adds their
      ids to the dead defs. */
  lemma {:induction false} EliminateLoopCode(st: MachineState, sp: Spiller, worklist: seq<Val>, e: Elim)
    ensures var r := EliminateLoop(st, sp, worklist, e);
      && KilledSpills(sp, e.code, r.code, r.deadDefs)
      && |e.deadDefs| <= |r.deadDefs| && r.deadDefs[..|e.deadDefs|] == e.deadDefs
      && e.visited <= r.visited
    decreases |AllVals(st.intervals) - e.visited|, |worklist|
  {
    if |worklist| > 0 {
      var v := worklist[|worklist| - 1];
      var rest := worklist[..|worklist| - 1];
      if v in e.visited || !HasVal(st, v) || IsRegToSpill(sp, v.reg) {
        EliminateLoopCode(st, sp, rest, e);
      } else {
        var merged := MergeIntoSlot(e.stack, sp.stackSlot, ValueSegments(st.intervals[v.reg].segments, v.valno));
        var s := ScanRedundant(st, sp, v, Redundant(e.code, e.deadDefs, []), 0);
        var e1 := Elim(s.code, merged, s.deadDefs, e.visited + {v});
        InAllVals(st, v);
        VisitShrinks(AllVals(st.intervals), e.visited, v);
        EliminateLoopCode(st, sp, rest + s.copies, e1);
        ScanKills(st, sp, v, e);
        var r := EliminateLoop(st, sp, rest + s.copies, e1);
        assert r == EliminateLoop(st, sp, worklist, e);
        KilledSpillsTrans(sp, e.code, s.code, r.code, s.deadDefs, r.deadDefs);
        assert r.deadDefs[..|e.deadDefs|] == r.deadDefs[..|s.deadDefs|][..|e.deadDefs|];
      }
    }
  }

  /** The stack slot's interval only grows, by segments of value 0; other
      slots are untouched. */
  lemma {:induction false} EliminateLoopStack(st: MachineState, sp: Spiller, worklist: seq<Val>, e: Elim)
    ensures var r := EliminateLoop(st, sp, worklist, e);
      && e.stack.Keys <= r.stack.Keys <= e.stack.Keys + {sp.stackSlot}
      && (forall s | s in e.stack && s != sp.stackSlot :: r.stack[s] == e.stack[s])
      && (sp.stackSlot in r.stack ==>
            var prior := if sp.stackSlot in e.stack then e.stack[sp.stackSlot] else [];
            && |prior| <= |r.stack[sp.stackSlot]| && r.stack[sp.stackSlot][..|prior|] == prior
            && forall k | |prior| <= k < |r.stack[sp.stackSlot]| :: r.stack[sp.stackSlot][k].valno == 0)
    decreases |AllVals(st.intervals) - e.visited|, |worklist|
  {
    if |worklist| > 0 {
      var v := worklist[|worklist| - 1];
      var rest := worklist[..|worklist| - 1];
      if v in e.visited || !HasVal(st, v) || IsRegToSpill(sp, v.reg) {
        EliminateLoopStack(st, sp, rest, e);
      } else {
        var merged := MergeIntoSlot(e.stack, sp.stackSlot, ValueSegments(st.intervals[v.reg].segments, v.valno));
        var s := ScanRedundant(st, sp, v, Redundant(e.code, e.deadDefs, []), 0);
        var e1 := Elim(s.code, merged, s.deadDefs, e.visited + {v});
        InAllVals(st, v);
        VisitShrinks(AllVals(st.intervals), e.visited, v);
        EliminateLoopStack(st, sp, rest + s.copies, e1);
        var r := EliminateLoop(st, sp, rest + s.copies, e1);
        assert r == EliminateLoop(st, sp, worklist, e);
        var prior := if sp.stackSlot in e.stack then e.stack[sp.stackSlot] else [];
        assert merged[sp.stackSlot][..|prior|] == prior;
        var m := merged[sp.stackSlot];
        var rs := r.stack[sp.stackSlot];
        assert rs[..|prior|] == rs[..|m|][..|prior|];
        forall k | |prior| <= k < |rs| ensures rs[k].valno == 0 {
          if k < |m| {
            assert rs[k] == rs[..|m|][k] == m[k];
          }
        }
      }
    }
  }

  /** A killed store is neither a redundant spill nor a copy any more, and a
      copy is never killed. */
  lemma KilledSpillsKeep(st: MachineState, sp: Spiller, a: seq<Instr>, b: seq<Instr>, dead: seq<nat>)
    requires KilledSpills(sp, a, b, dead)
    ensures forall q, w | 0 <= q < |a| && !RedundantSpill(st, sp, w, a[q]) :: !RedundantSpill(st, sp, w, b[q])
    ensures forall q, w, u | 0 <= q < |a| :: CopiesTo(st, sp, w, b[q], u) == CopiesTo(st, sp, w, a[q], u)
  {
  }

  /** No store of w to the stack slot is left in code. */
  predicate NoneRedundant(st: MachineState, sp: Spiller, w: Val, code: seq<Instr>) {
    forall q | 0 <= q < |code| :: !RedundantSpill(st, sp, w, code[q])
  }

  lemma NoRedundantKept(st: MachineState, sp: Spiller, w: Val, a: seq<Instr>, b: seq<Instr>, dead: seq<nat>)
    requires KilledSpills(sp, a, b, dead) && NoneRedundant(st, sp, w, a)
    ensures NoneRedundant(st, sp, w, b)
  {
    KilledSpillsKeep(st, sp, a, b, dead);
  }

  /** Every value processed has no store to the stack slot left. */
  lemma {:induction false} EliminateLoopDone(st: MachineState, sp: Spiller, worklist: seq<Val>, e: Elim)
    ensures var r := EliminateLoop(st, sp, worklist, e);
      forall w | w in r.visited && w !in e.visited ::
        HasVal(st, w) && !IsRegToSpill(sp, w.reg) && NoneRedundant(st, sp, w, r.code)
    decreases |AllVals(st.intervals) - e.visited|, |worklist|
  {
    if |worklist| > 0 {
      var v := worklist[|worklist| - 1];
      var rest := worklist[..|worklist| - 1];
      if v in e.visited || !HasVal(st, v) || IsRegToSpill(sp, v.reg) {
        EliminateLoopDone(st, sp, rest, e);
      } else {
        var merged := MergeIntoSlot(e.stack, sp.stackSlot, ValueSegments(st.intervals[v.reg].segments, v.valno));
        var s := ScanRedundant(st, sp, v, Redundant(e.code, e.deadDefs, []), 0);
        var e1 := Elim(s.code, merged, s.deadDefs, e.visited + {v});
        InAllVals(st, v);
        VisitShrinks(AllVals(st.intervals), e.visited, v);
        EliminateLoopDone(st, sp, rest + s.copies, e1);
        var r := EliminateLoop(st, sp, rest + s.copies, e1);
        assert r == EliminateLoop(st, sp, worklist, e);
        forall w | w in r.visited && w !in e.visited ensures NoneRedundant(st, sp, w, r.code) {
          if w == v {
            EliminateLoopCode(st, sp, rest + s.copies, e1);
            ScanKills(st, sp, v, e);
            NoRedundantKept(st, sp, v, s.code, r.code, r.deadDefs);
          } else {
            assert w !in e1.visited;
          }
        }
      }
    }
  }

  /** The sibling values that copies of w define, outside RegsToSpill. */
  ghost predicate CopiesIn(st: MachineState, sp: Spiller, w: Val, code: seq<Instr>, s: set<Val>) {
    forall q, u | 0 <= q < |code| && CopiesTo(st, sp, w, code[q], u) && !IsRegToSpill(sp, u.reg) :: u in s
  }

  /** Every valid worklist value outside RegsToSpill is processed. */
  lemma {:induction false} EliminateLoopVisits(st: MachineState, sp: Spiller, worklist: seq<Val>, e: Elim)
    ensures var r := EliminateLoop(st, sp, worklist, e);
      forall w | w in worklist && HasVal(st, w) && !IsRegToSpill(sp, w.reg) :: w in r.visited
    decreases |AllVals(st.intervals) - e.visited|, |worklist|
  {
    if |worklist| > 0 {
      var v := worklist[|worklist| - 1];
      var rest := worklist[..|worklist| - 1];
      assert forall w | w in worklist :: w in rest || w == v;
      if v in e.visited || !HasVal(st, v) || IsRegToSpill(sp, v.reg) {
        EliminateLoopVisits(st, sp, rest, e);
        EliminateLoopCode(st, sp, rest, e);
      } else {
        var merged := MergeIntoSlot(e.stack, sp.stackSlot, ValueSegments(st.intervals[v.reg].segments, v.valno));
        var s := ScanRedundant(st, sp, v, Redundant(e.code, e.deadDefs, []), 0);
        var e1 := Elim(s.code, merged, s.deadDefs, e.visited + {v});
        InAllVals(st, v);
        VisitShrinks(AllVals(st.intervals), e.visited, v);
        var next := rest + s.copies;
        EliminateLoopVisits(st, sp, next, e1);
        EliminateLoopCode(st, sp, next, e1);
        assert EliminateLoop(st, sp, next, e1) == EliminateLoop(st, sp, worklist, e);
        assert forall w | w in rest :: w in next;
      }
    }
  }

  /** Every value a processed value is copied into (outside RegsToSpill) is
      processed too. */
  lemma {:induction false} EliminateLoopClosed(st: MachineState, sp: Spiller, worklist: seq<Val>, e: Elim)
    ensures var r := EliminateLoop(st, sp, worklist, e);
      forall w | w in r.visited && w !in e.visited :: CopiesIn(st, sp, w, e.code, r.visited)
    decreases |AllVals(st.intervals) - e.visited|, |worklist|
  {
    if |worklist| > 0 {
      var v := worklist[|worklist| - 1];
      var rest := worklist[..|worklist| - 1];
      if v in e.visited || !HasVal(st, v) || IsRegToSpill(sp, v.reg) {
        EliminateLoopClosed(st, sp, rest, e);
      } else {
        var merged := MergeIntoSlot(e.stack, sp.stackSlot, ValueSegments(st.intervals[v.reg].segments, v.valno));
        var s := ScanRedundant(st, sp, v, Redundant(e.code, e.deadDefs, []), 0);
        var e1 := Elim(s.code, merged, s.deadDefs, e.visited + {v});
        InAllVals(st, v);
        VisitShrinks(AllVals(st.intervals), e.visited, v);
        var next := rest + s.copies;
        EliminateLoopClosed(st, sp, next, e1);
        var r := EliminateLoop(st, sp, next, e1);
        assert r == EliminateLoop(st, sp, worklist, e);
        forall w | w in r.visited && w !in e.visited ensures CopiesIn(st, sp, w, e.code, r.visited) {
          if w == v {
            ProcessedCopiesVisited(st, sp, v, rest, e);
          } else {
            assert w !in e1.visited;
            assert CopiesIn(st, sp, w, e1.code, r.visited);
            ScanKills(st, sp, v, e);
            CopiesInKeep(st, sp, w, e.code, s.code, s.deadDefs, r.visited);
          }
        }
      }
    }
  }

  /** The values copies of a freshly processed value define end up processed. */
  lemma ProcessedCopiesVisited(st: MachineState, sp: Spiller, v: Val, rest: seq<Val>, e: Elim)
    requires v !in e.visited && HasVal(st, v) && !IsRegToSpill(sp, v.reg)
    ensures var s := ScanRedundant(st, sp, v, Redundant(e.code, e.deadDefs, []), 0);
      var merged := MergeIntoSlot(e.stack, sp.stackSlot, ValueSegments(st.intervals[v.reg].segments, v.valno));
      var e1 := Elim(s.code, merged, s.deadDefs, e.visited + {v});
      CopiesIn(st, sp, v, e.code, EliminateLoop(st, sp, rest + s.copies, e1).visited)
  {
    var s := ScanRedundant(st, sp, v, Redundant(e.code, e.deadDefs, []), 0);
    var merged := MergeIntoSlot(e.stack, sp.stackSlot, ValueSegments(st.intervals[v.reg].segments, v.valno));
    var e1 := Elim(s.code, merged, s.deadDefs, e.visited + {v});
    var next := rest + s.copies;
    var r := EliminateLoop(st, sp, next, e1);
    EliminateLoopVisits(st, sp, next, e1);
    ScanRedundantCopies(st, sp, v, Redundant(e.code, e.deadDefs, []), 0);
    assert s.copies[0..] == s.copies;
    forall q, u | 0 <= q < |e.code| && CopiesTo(st, sp, v, e.code[q], u) && !IsRegToSpill(sp, u.reg)
      ensures u in r.visited
    {
      assert u in s.copies;
      assert u in next;
    }
  }

  lemma CopiesInKeep(st: MachineState, sp: Spiller, w: Val, a: seq<Instr>, b: seq<Instr>, dead: seq<nat>, vis: set<Val>)
    requires KilledSpills(sp, a, b, dead) && CopiesIn(st, sp, w, b, vis)
    ensures CopiesIn(st, sp, w, a, vis)
  {
    KilledSpillsKeep(st, sp, a, b, dead);
  }

  /** mi is a store to the stack slot of some value in vs, live there. */
  ghost predicate RedundantOf(st: MachineState, sp: Spiller, vs: set<Val>, mi: Instr) {
    exists w | w in vs :: RedundantSpill(st, sp, w, mi)
  }

  /** The loop changes only instructions that are redundant spills of the
      values it processes. */
  lemma {:induction false} EliminateLoopOnly(st: MachineState, sp: Spiller, worklist: seq<Val>, e: Elim)
    ensures var r := EliminateLoop(st, sp, worklist, e);
      && |r.code| == |e.code|
      && forall q | 0 <= q < |e.code| && r.code[q] != e.code[q] :: RedundantOf(st, sp, r.visited, e.code[q])
    decreases |AllVals(st.intervals) - e.visited|, |worklist|
  {
    if |worklist| > 0 {
      var v := worklist[|worklist| - 1];
      var rest := worklist[..|worklist| - 1];
      if v in e.visited || !HasVal(st, v) || IsRegToSpill(sp, v.reg) {
        EliminateLoopOnly(st, sp, rest, e);
      } else {
        var merged := MergeIntoSlot(e.stack, sp.stackSlot, ValueSegments(st.intervals[v.reg].segments, v.valno));
        var s := ScanRedundant(st, sp, v, Redundant(e.code, e.deadDefs, []), 0);
        var e1 := Elim(s.code, merged, s.deadDefs, e.visited + {v});
        InAllVals(st, v);
        VisitShrinks(AllVals(st.intervals), e.visited, v);
        var next := rest + s.copies;
        EliminateLoopOnly(st, sp, next, e1);
        EliminateLoopCode(st, sp, next, e1);
        ScanRedundantCode(st, sp, v, Redundant(e.code, e.deadDefs, []), 0);
        var r := EliminateLoop(st, sp, next, e1);
        assert r == EliminateLoop(st, sp, worklist, e);
        forall q | 0 <= q < |e.code| && r.code[q] != e.code[q] ensures RedundantOf(st, sp, r.visited, e.code[q]) {
          if s.code[q] != e.code[q] {
            assert RedundantSpill(st, sp, v, e.code[q]);
            assert v in r.visited;
          } else {
            assert RedundantOf(st, sp, r.visited, s.code[q]);
          }
        }
      }
    }
  }

  /** The values the loop processes lie in every set S that holds the valid
      worklist values outside RegsToSpill and is closed under copies into
      sibling values outside RegsToSpill in code0, the code before any KILL. */
  lemma {:induction false} EliminateLoopLeast(st: MachineState, sp: Spiller, worklist: seq<Val>, e: Elim,
                                              code0: seq<Instr>, S: set<Val>)
    requires KilledSpills(sp, code0, e.code, e.deadDefs) && e.visited <= S
    requires forall w | w in worklist && HasVal(st, w) && !IsRegToSpill(sp, w.reg) :: w in S
    requires forall w | w in S :: CopiesIn(st, sp, w, code0, S)
    ensures EliminateLoop(st, sp, worklist, e).visited <= S
    decreases |AllVals(st.intervals) - e.visited|, |worklist|
  {
    if |worklist| > 0 {
      var v := worklist[|worklist| - 1];
      var rest := worklist[..|worklist| - 1];
      assert forall w | w in rest :: w in worklist;
      if v in e.visited || !HasVal(st, v) || IsRegToSpill(sp, v.reg) {
        EliminateLoopLeast(st, sp, rest, e, code0, S);
      } else {
        var merged := MergeIntoSlot(e.stack, sp.stackSlot, ValueSegments(st.intervals[v.reg].segments, v.valno));
        var s := ScanRedundant(st, sp, v, Redundant(e.code, e.deadDefs, []), 0);
        var e1 := Elim(s.code, merged, s.deadDefs, e.visited + {v});
        InAllVals(st, v);
        VisitShrinks(AllVals(st.intervals), e.visited, v);
        var next := rest + s.copies;
        ScanKills(st, sp, v, e);
        KilledSpillsTrans(sp, code0, e.code, s.code, e.deadDefs, s.deadDefs);
        CopiesWithin(st, sp, v, e, code0, S);
        assert forall w | w in next :: w in rest || w in s.copies;
        EliminateLoopLeast(st, sp, next, e1, code0, S);
        assert EliminateLoop(st, sp, next, e1) == EliminateLoop(st, sp, worklist, e);
      }
    }
  }

  /** The sibling values the scan of v queues, when valid and outside
      RegsToSpill, lie in a set closed under copies that holds v. */
  lemma CopiesWithin(st: MachineState, sp: Spiller, v: Val, e: Elim, code0: seq<Instr>, S: set<Val>)
    requires KilledSpills(sp, code0, e.code, e.deadDefs) && v in S && CopiesIn(st, sp, v, code0, S)
    ensures var s := ScanRedundant(st, sp, v, Redundant(e.code, e.deadDefs, []), 0);
      forall u | u in s.copies && !IsRegToSpill(sp, u.reg) :: u in S
  {
    var s := ScanRedundant(st, sp, v, Redundant(e.code, e.deadDefs, []), 0);
    ScanRedundantCopies(st, sp, v, Redundant(e.code, e.deadDefs, []), 0);
    KilledSpillsKeep(st, sp, code0, e.code, e.deadDefs);
    assert s.copies[0..] == s.copies;
    forall u | u in s.copies && !IsRegToSpill(sp, u.reg) ensures u in S {
      var q :| 0 <= q < |e.code| && CopiesTo(st, sp, v, e.code[q], u);
      assert CopiesTo(st, sp, v, code0[q], u);
    }
  }

  /** The values eliminateRedundantSpills processes are the least set that
      holds v (when valid and outside RegsToSpill) and is closed under full
      copies into sibling values outside RegsToSpill. */
  lemma EliminatedLeast(st: MachineState, sp: Spiller, v: Val, S: set<Val>)
    requires HasVal(st, v) && !IsRegToSpill(sp, v.reg) ==> v in S
    requires forall w | w in S :: CopiesIn(st, sp, w, st.code, S)
    ensures EliminatedValues(st, sp, v) <= S
  {
    EliminateLoopLeast(st, sp, [v], StartElim(st, sp), st.code, S);
  }

  /** eliminateRedundantSpills processes v (unless it belongs to a register
      being spilled) and, transitively, every sibling value outside RegsToSpill
      that a full copy of a processed value defines; afterwards no store of a
      processed value to the stack slot is left. The code changes only by
      such stores turned into KILLs, which are queued as dead defs; the only
      other change is segments of value 0 appended to the stack slot's
      interval. */
  lemma EliminateRedundantSpillsSpec(st: MachineState, sp: Spiller, v: Val)
    ensures var r := EliminateRedundantSpills(st, sp, v);
      var done := EliminatedValues(st, sp, v);
      && r.0 == st.(code := r.0.code, stackIntervals := r.0.stackIntervals)
      && r.1 == sp.(deadDefs := r.1.deadDefs)
      && KilledSpills(sp, st.code, r.0.code, r.1.deadDefs)
      && (forall q | 0 <= q < |st.code| && r.0.code[q] != st.code[q] :: RedundantOf(st, sp, done, st.code[q]))
      && |sp.deadDefs| <= |r.1.deadDefs| && r.1.deadDefs[..|sp.deadDefs|] == sp.deadDefs
      && (HasVal(st, v) && !IsRegToSpill(sp, v.reg) ==> v in done)
      && (forall w | w in done ::
            && HasVal(st, w) && !IsRegToSpill(sp, w.reg)
            && CopiesIn(st, sp, w, st.code, done)
            && forall q | 0 <= q < |r.0.code| :: !RedundantSpill(st, sp, w, r.0.code[q]))
      && st.stackIntervals.Keys <= r.0.stackIntervals.Keys <= st.stackIntervals.Keys + {sp.stackSlot}
      && (forall s | s in st.stackIntervals && s != sp.stackSlot :: r.0.stackIntervals[s] == st.stackIntervals[s])
  {
    EliminateLoopCode(st, sp, [v], StartElim(st, sp));
    EliminateLoopStack(st, sp, [v], StartElim(st, sp));
    EliminateLoopDone(st, sp, [v], StartElim(st, sp));
    EliminateLoopVisits(st, sp, [v], StartElim(st, sp));
    EliminateLoopClosed(st, sp, [v], StartElim(st, sp));
    EliminateLoopOnly(st, sp, [v], StartElim(st, sp));
  }

  // ---------------------------------------------------------------------
  // hoistSpill.

  /** Where the hoisted spill of v goes: after the first non-PHI, non-label
      instruction boundary of its block for a PHI-def, else right after its
      defining instruction (nowhere when that is missing). */
  function HoistPoint(st: MachineState, env: Env, v: Val): (r: Option<nat>)
    ensures r.Some? ==> HasVal(st, v) && r.value <= |st.code|
    ensures r.Some? && !Vni(st, v).isPHIDef ==>
      && 0 < r.value && SameInstr(st.code[r.value - 1].index, Vni(st, v).def)
      && forall k | 0 <= k < r.value - 1 :: !SameInstr(st.code[k].index, Vni(st, v).def)
    ensures HasVal(st, v) && Vni(st, v).isPHIDef ==> r == Some(SkipPhisAndLabels(st.code, env.blockOf(Vni(st, v).def)))
  {
    if !HasVal(st, v) then None
    else if Vni(st, v).isPHIDef then Some(SkipPhisAndLabels(st.code, env.blockOf(Vni(st, v).def)))
    else
      match PositionAtIndex(st.code, Vni(st, v).def)
      case None => None
      case Some(p) => Some(p + 1)
  }

  /** The spill hoistSpill inserts: a store of the register to the stack slot,
      without a kill flag. */
  function HoistedStore(st: MachineState, env: Env, sp: Spiller, svi: SibValueInfo, block: nat): Instr {
    Instr(st.nextId, StackStore(sp.stackSlot), [UseOf(svi.spillReg, false)], env.newIndex(st.nextId), block)
  }

  /** The stack slot's interval extended by the original value live at idx
      (nothing when there is none). */
  function MergeOrigValue(st: MachineState, sp: Spiller, idx: SlotIndex): (r: MachineState)
    ensures r == st.(stackIntervals := r.stackIntervals)
  {
    match ValAt(st, sp.original, idx)
    case None => st
    case Some(ov) =>
      st.(stackIntervals := MergeIntoSlot(st.stackIntervals, sp.stackSlot,
                                          ValueSegments(st.intervals[sp.original].segments, ov.valno)))
  }

  /** hoistSpill: whether the spill of the value the sibling copy copyMI
      defines in spillReg is taken care of, and the resulting state. It
      declines exactly when the copy defines no value, the value was not
      traced, or it is not all reloads and is itself the best spill candidate;
      it then changes nothing. When all defs are reloads only the
      stack slot's interval changes. Otherwise the redundant spills of the
      candidate are eliminated and a store of the candidate register without
      a kill flag, with a fresh id, is inserted right after the candidate's
      def (or at the start of its block for a PHI-def) and recorded as a use
      of the slot. */
  function HoistSpill(st: MachineState, env: Env, sp: Spiller, spillReg: Reg, copyMI: Instr): (r: (MachineState, Spiller, bool))
    ensures var v := ValAt(st, spillReg, DefIndex(copyMI.index));
      && (!r.2 <==> (v.None? || v.value !in sp.sibValues
                     || (!sp.sibValues[v.value].allDefsAreReloads && sp.sibValues[v.value].spillVal == v.value)))
      && (!r.2 ==> r.0 == st && r.1 == sp)
      && (r.2 ==> v.Some? && v.value in sp.sibValues)
      && (r.2 && sp.sibValues[v.value].allDefsAreReloads ==>
            r.1 == sp && r.0 == MergeOrigValue(st, sp, copyMI.index))
      && (r.2 && !sp.sibValues[v.value].allDefsAreReloads ==>
            var svi := sp.sibValues[v.value];
            var e := EliminateRedundantSpills(MergeOrigValue(st, sp, copyMI.index), sp, svi.spillVal);
            && r.1 == e.1
            && match HoistPoint(e.0, env, svi.spillVal)
               case None => r.0 == e.0
               case Some(p) =>
                 && |r.0.code| == |e.0.code| + 1
                 && r.0.code == InsertAt(e.0.code, p, r.0.code[p])
                 && r.0.code[p].opcode == StackStore(sp.stackSlot)
                 && r.0.code[p].ops == [UseOf(svi.spillReg, false)]
                 && r.0.code[p].id == st.nextId && r.0.nextId == st.nextId + 1
                 && r.0.slotUses == st.slotUses + [(sp.stackSlot, st.nextId)]
                 && r.0 == e.0.(code := r.0.code, nextId := r.0.nextId, slotUses := r.0.slotUses))
  {
    var idx := copyMI.index;
    match ValAt(st, spillReg, DefIndex(idx))
    case None => (st, sp, false)
    case Some(v) =>
      if v !in sp.sibValues then (st, sp, false)
      else
        var svi := sp.sibValues[v];
        if !svi.allDefsAreReloads && svi.spillVal == v then (st, sp, false)
        else
          var st1 := MergeOrigValue(st, sp, idx);
          if svi.allDefsAreReloads then (st1, sp, true)
          else
            var (st2, sp2) := EliminateRedundantSpills(st1, sp, svi.spillVal);
            match HoistPoint(st2, env, svi.spillVal)
            case None => (st2, sp2, true)
            case Some(p) =>
              var store := HoistedStore(st2, env, sp, svi, env.blockOf(Vni(st2, svi.spillVal).def));
              (st2.(code := InsertAt(st2.code, p, store), nextId := st2.nextId + 1,
                    slotUses := st2.slotUses + [(sp.stackSlot, store.id)]), sp2, true)
  }

}
