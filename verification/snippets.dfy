/*
 * Snippets: small live ranges left over from live range splitting that are
 * spilled together with the register, because their only real use is a
 * single instruction besides copies to or from the register and stack slot
 * accesses (InlineSpiller.cpp, "Snippets").
 */
module SpillSnippets {
  import opened Optional
  import opened SpillMachine

  /** A COPY with no subregister index on either operand. */
  predicate IsFullCopy(mi: Instr) {
    mi.opcode.Copy? && Op(mi, 0).subReg == 0 && Op(mi, 1).subReg == 0
  }

  /** isFullCopyOf: for a full copy to or from reg, the other register; otherwise 0. */
  function IsFullCopyOf(mi: Instr, reg: Reg): (r: Reg)
    ensures r != 0 ==> IsFullCopy(mi)
    ensures r != 0 ==> (Op(mi, 0).reg == reg && r == Op(mi, 1).reg) || (Op(mi, 1).reg == reg && r == Op(mi, 0).reg)
    ensures (IsFullCopy(mi) && Op(mi, 0).reg != 0 && Op(mi, 1).reg != 0
             && (Op(mi, 0).reg == reg || Op(mi, 1).reg == reg)) ==> r != 0
  {
    if !mi.opcode.Copy? then 0
    else if Op(mi, 0).subReg != 0 then 0
    else if Op(mi, 1).subReg != 0 then 0
    else if Op(mi, 0).reg == reg then Op(mi, 1).reg
    else if Op(mi, 1).reg == reg then Op(mi, 0).reg
    else 0
  }

  /** An instruction a snippet does not get for free: neither a full copy to or
      from reg nor a load or store of snipReg at the stack slot. */
  predicate IsSnippetUse(mi: Instr, reg: Reg, snipReg: Reg, slot: int) {
    IsFullCopyOf(mi, reg) == 0 && !IsReloadOf(mi, snipReg, slot) && !IsSpillOf(mi, snipReg, slot)
  }

  /** The loop of isSnippet over the instructions of the snippet register;
      useMI is the one other instruction accepted so far. */
  function ScanSnippetUses(instrs: seq<Instr>, reg: Reg, snipReg: Reg, slot: int, useMI: Option<nat>): bool
    decreases |instrs|
  {
    if |instrs| == 0 then true
    else if !IsSnippetUse(instrs[0], reg, snipReg, slot) then ScanSnippetUses(instrs[1..], reg, snipReg, slot, useMI)
    else if useMI.Some? && instrs[0].id != useMI.value then false
    else ScanSnippetUses(instrs[1..], reg, snipReg, slot, Some(instrs[0].id))
  }

  /** At most one instruction (by identity) of the list is a snippet use. */
  predicate AtMostOneUse(instrs: seq<Instr>, reg: Reg, snipReg: Reg, slot: int) {
    forall i, j | 0 <= i < j < |instrs| && IsSnippetUse(instrs[i], reg, snipReg, slot)
                  && IsSnippetUse(instrs[j], reg, snipReg, slot) :: instrs[i].id == instrs[j].id
  }

  lemma {:induction false} ScanSnippetUsesMeaning(instrs: seq<Instr>, reg: Reg, snipReg: Reg, slot: int, useMI: Option<nat>)
    ensures ScanSnippetUses(instrs, reg, snipReg, slot, useMI) <==>
      AtMostOneUse(instrs, reg, snipReg, slot)
      && (useMI.Some? ==> forall i | 0 <= i < |instrs| && IsSnippetUse(instrs[i], reg, snipReg, slot) :: instrs[i].id == useMI.value)
    decreases |instrs|
  {
    if |instrs| > 0 {
      var rest := instrs[1..];
      assert forall i | 0 <= i < |rest| :: rest[i] == instrs[i + 1];
      if !IsSnippetUse(instrs[0], reg, snipReg, slot) {
        ScanSnippetUsesMeaning(rest, reg, snipReg, slot, useMI);
        if AtMostOneUse(rest, reg, snipReg, slot) {
          forall i, j | 0 <= i < j < |instrs| && IsSnippetUse(instrs[i], reg, snipReg, slot)
                        && IsSnippetUse(instrs[j], reg, snipReg, slot)
            ensures instrs[i].id == instrs[j].id
          {
            assert rest[i - 1] == instrs[i] && rest[j - 1] == instrs[j];
          }
        }
      } else if useMI.Some? && instrs[0].id != useMI.value {
      } else {
        ScanSnippetUsesMeaning(rest, reg, snipReg, slot, Some(instrs[0].id));
        if ScanSnippetUses(rest, reg, snipReg, slot, Some(instrs[0].id)) {
          forall i, j | 0 <= i < j < |instrs| && IsSnippetUse(instrs[i], reg, snipReg, slot)
                        && IsSnippetUse(instrs[j], reg, snipReg, slot)
            ensures instrs[i].id == instrs[j].id
          {
            assert rest[j - 1] == instrs[j];
            if i > 0 {
              assert rest[i - 1] == instrs[i];
            }
          }
        }
      }
    }
  }

  /** isSnippet: the interval has at most two values, lies in one block, and
      has at most one instruction besides copies to or from reg and loads and
      stores of the stack slot. A register without an interval is not a
      snippet (the source asserts it has one). */
  predicate IsSnippet(st: MachineState, env: Env, reg: Reg, slot: int, snipReg: Reg) {
    && snipReg in st.intervals
    && |st.intervals[snipReg].values| <= 2
    && InOneBlock(env, st.intervals[snipReg])
    && ScanSnippetUses(RegInstrsNoDbg(st.code, snipReg), reg, snipReg, slot, None)
  }

  lemma SnippetMeaning(st: MachineState, env: Env, reg: Reg, slot: int, snipReg: Reg)
    ensures IsSnippet(st, env, reg, slot, snipReg) <==>
      && snipReg in st.intervals
      && |st.intervals[snipReg].values| <= 2
      && InOneBlock(env, st.intervals[snipReg])
      && AtMostOneUse(RegInstrsNoDbg(st.code, snipReg), reg, snipReg, slot)
  {
    ScanSnippetUsesMeaning(RegInstrsNoDbg(st.code, snipReg), reg, snipReg, slot, None);
  }

  /** A copy collectRegsToSpill takes as a snippet copy: a full copy between
      reg and a sibling whose interval is a snippet. */
  predicate IsSnippetCopy(st: MachineState, env: Env, sp: Spiller, mi: Instr) {
    var snip := IsFullCopyOf(mi, sp.reg);
    IsSibling(st, sp.original, snip) && IsSnippet(st, env, sp.reg, sp.stackSlot, snip)
  }

  predicate NoDuplicates(regs: seq<Reg>) {
    forall i, j | 0 <= i < j < |regs| :: regs[i] != regs[j]
  }

  /** One step of collectRegsToSpill's loop: a snippet copy is remembered and
      its sibling appended unless already present. */
  function CollectOne(st: MachineState, env: Env, sp: Spiller, mi: Instr): Spiller {
    var snip := IsFullCopyOf(mi, sp.reg);
    if IsSnippetCopy(st, env, sp, mi) then
      sp.(snippetCopies := sp.snippetCopies + {mi.id},
          regsToSpill := if IsRegToSpill(sp, snip) then sp.regsToSpill else sp.regsToSpill + [snip])
    else sp
  }

  /** The loop of collectRegsToSpill over the instructions of reg. */
  function CollectSnippets(st: MachineState, env: Env, sp: Spiller, instrs: seq<Instr>): Spiller
    decreases |instrs|
  {
    if |instrs| == 0 then sp
    else CollectSnippets(st, env, CollectOne(st, env, sp, instrs[0]), instrs[1..])
  }

  /** collectRegsToSpill: RegsToSpill becomes [Reg] followed by the snippet
      registers, and SnippetCopies the copies connecting them. */
  function CollectRegsToSpill(st: MachineState, env: Env, sp: Spiller): Spiller {
    var sp1 := sp.(regsToSpill := [sp.reg], snippetCopies := {});
    if sp.original == sp.reg then sp1
    else CollectSnippets(st, env, sp1, RegInstrs(st.code, sp.reg))
  }

  /** The snippet copies among the instructions and the registers they copy. */
  function SnippetCopyIds(st: MachineState, env: Env, sp: Spiller, instrs: seq<Instr>): set<nat> {
    set mi | mi in instrs && IsSnippetCopy(st, env, sp, mi) :: mi.id
  }

  function SnippetRegs(st: MachineState, env: Env, sp: Spiller, instrs: seq<Instr>): set<Reg> {
    set mi | mi in instrs && IsSnippetCopy(st, env, sp, mi) :: IsFullCopyOf(mi, sp.reg)
  }

  predicate SameSpill(a: Spiller, b: Spiller) {
    a.reg == b.reg && a.original == b.original && a.stackSlot == b.stackSlot
  }

  function Elems(regs: seq<Reg>): set<Reg> {
    set x | x in regs
  }

  /** The register list part of one step. */
  lemma CollectOneRegs(st: MachineState, env: Env, sp: Spiller, mi: Instr)
    requires NoDuplicates(sp.regsToSpill)
    ensures var r := CollectOne(st, env, sp, mi);
      && SameSpill(r, sp)
      && r == sp.(regsToSpill := r.regsToSpill, snippetCopies := r.snippetCopies)
      && NoDuplicates(r.regsToSpill)
      && |sp.regsToSpill| <= |r.regsToSpill| && r.regsToSpill[..|sp.regsToSpill|] == sp.regsToSpill
      && (forall k | |sp.regsToSpill| <= k < |r.regsToSpill| ::
            IsSibling(st, sp.original, r.regsToSpill[k]) && IsSnippet(st, env, sp.reg, sp.stackSlot, r.regsToSpill[k]))
  {
  }

  /** The set part of one step. */
  lemma CollectOneSets(st: MachineState, env: Env, sp: Spiller, mi: Instr)
    ensures var r := CollectOne(st, env, sp, mi);
      && r.snippetCopies == sp.snippetCopies + SnippetCopyIds(st, env, sp, [mi])
      && Elems(r.regsToSpill) == Elems(sp.regsToSpill) + SnippetRegs(st, env, sp, [mi])
  {
    var r := CollectOne(st, env, sp, mi);
    if IsSnippetCopy(st, env, sp, mi) {
      assert SnippetCopyIds(st, env, sp, [mi]) == {mi.id};
      assert SnippetRegs(st, env, sp, [mi]) == {IsFullCopyOf(mi, sp.reg)};
    } else {
      assert SnippetCopyIds(st, env, sp, [mi]) == {};
      assert SnippetRegs(st, env, sp, [mi]) == {};
    }
  }

  lemma SnippetSetsSplit(st: MachineState, env: Env, sp: Spiller, sp': Spiller, instrs: seq<Instr>)
    requires |instrs| > 0 && SameSpill(sp, sp')
    ensures SnippetCopyIds(st, env, sp, instrs) == SnippetCopyIds(st, env, sp, [instrs[0]]) + SnippetCopyIds(st, env, sp', instrs[1..])
    ensures SnippetRegs(st, env, sp, instrs) == SnippetRegs(st, env, sp, [instrs[0]]) + SnippetRegs(st, env, sp', instrs[1..])
  {
    assert forall x :: x in instrs <==> x == instrs[0] || x in instrs[1..];
  }

  lemma {:induction false} CollectSnippetsRegs(st: MachineState, env: Env, sp: Spiller, instrs: seq<Instr>)
    requires NoDuplicates(sp.regsToSpill)
    ensures var r := CollectSnippets(st, env, sp, instrs);
      && SameSpill(r, sp)
      && r == sp.(regsToSpill := r.regsToSpill, snippetCopies := r.snippetCopies)
      && NoDuplicates(r.regsToSpill)
      && |sp.regsToSpill| <= |r.regsToSpill| && r.regsToSpill[..|sp.regsToSpill|] == sp.regsToSpill
      && (forall k | |sp.regsToSpill| <= k < |r.regsToSpill| ::
            IsSibling(st, sp.original, r.regsToSpill[k]) && IsSnippet(st, env, sp.reg, sp.stackSlot, r.regsToSpill[k]))
    decreases |instrs|
  {
    if |instrs| > 0 {
      var sp' := CollectOne(st, env, sp, instrs[0]);
      CollectOneRegs(st, env, sp, instrs[0]);
      CollectSnippetsRegs(st, env, sp', instrs[1..]);
      var r := CollectSnippets(st, env, sp', instrs[1..]);
      assert r.regsToSpill[..|sp.regsToSpill|] == r.regsToSpill[..|sp'.regsToSpill|][..|sp.regsToSpill|];
    }
  }

  lemma {:induction false} CollectSnippetsSets(st: MachineState, env: Env, sp: Spiller, instrs: seq<Instr>)
    ensures var r := CollectSnippets(st, env, sp, instrs);
      && r.snippetCopies == sp.snippetCopies + SnippetCopyIds(st, env, sp, instrs)
      && Elems(r.regsToSpill) == Elems(sp.regsToSpill) + SnippetRegs(st, env, sp, instrs)
    decreases |instrs|
  {
    if |instrs| > 0 {
      var sp' := CollectOne(st, env, sp, instrs[0]);
      CollectOneSets(st, env, sp, instrs[0]);
      CollectSnippetsSets(st, env, sp', instrs[1..]);
      assert SameSpill(sp, sp');
      SnippetSetsSplit(st, env, sp, sp', instrs);
    } else {
      assert SnippetCopyIds(st, env, sp, instrs) == {};
      assert SnippetRegs(st, env, sp, instrs) == {};
    }
  }

  /** What collectRegsToSpill promises: RegsToSpill starts with Reg, has no
      duplicates, holds exactly Reg and the siblings reached by a snippet copy,
      each of which is a snippet; SnippetCopies is the set of those copies; and
      for an original register nothing but Reg is collected. */
  lemma CollectRegsToSpillSpec(st: MachineState, env: Env, sp: Spiller)
    ensures var r := CollectRegsToSpill(st, env, sp);
      && SameSpill(r, sp)
      && |r.regsToSpill| >= 1 && r.regsToSpill[0] == sp.reg
      && NoDuplicates(r.regsToSpill)
      && (forall k | 1 <= k < |r.regsToSpill| ::
            IsSibling(st, sp.original, r.regsToSpill[k]) && IsSnippet(st, env, sp.reg, sp.stackSlot, r.regsToSpill[k]))
      && (sp.original == sp.reg ==> r.regsToSpill == [sp.reg] && r.snippetCopies == {})
      && (sp.original != sp.reg ==>
            && r.snippetCopies == SnippetCopyIds(st, env, sp, RegInstrs(st.code, sp.reg))
            && Elems(r.regsToSpill) == {sp.reg} + SnippetRegs(st, env, sp, RegInstrs(st.code, sp.reg)))
      && r == sp.(regsToSpill := r.regsToSpill, snippetCopies := r.snippetCopies)
  {
    var sp1 := sp.(regsToSpill := [sp.reg], snippetCopies := {});
    if sp.original != sp.reg {
      var instrs := RegInstrs(st.code, sp.reg);
      CollectSnippetsRegs(st, env, sp1, instrs);
      CollectSnippetsSets(st, env, sp1, instrs);
      assert SnippetCopyIds(st, env, sp1, instrs) == SnippetCopyIds(st, env, sp, instrs);
      assert SnippetRegs(st, env, sp1, instrs) == SnippetRegs(st, env, sp, instrs);
      assert Elems(sp1.regsToSpill) == {sp.reg};
    }
  }
}
