# Inline spiller and DWARF compile-unit helpers, modelled in Dafny

This project models two parts of an LLVM code generator of the 2.9/3.0 era and
proves properties of the model.

**The inline spiller** (`lib/CodeGen/InlineSpiller.cpp`). The register
allocator calls it to spill one virtual register, the one a `LiveRangeEdit`
names. It works in phases:

- `collectRegsToSpill` finds the snippet siblings to spill along with the
  register.
- `analyzeSiblingValues` traces each value through sibling copies and PHI-defs.
  It records a `SibValueInfo` for it: the best spill candidate, whether all defs
  are reloads, and a rematerialization template.
- `reMaterializeAll` rematerializes what it can. It marks the values that still
  need the stack and erases dead defs. Then it prunes the registers left empty.
- `spillAll` assigns the stack slot and merges the spilled ranges into the
  slot's interval. Around every remaining use it either folds the use, coalesces
  it or hoists it (`hoistSpill`, `eliminateRedundantSpills`). Otherwise it
  inserts a reload and/or a spill around a fresh register. Finally it erases the
  registers it spilled.

Modules: `SpillMachine` (`machine.dfy`, the machine state), `SpillSnippets`,
`SiblingValues`, `SiblingAnalysis`, `Hoisting`, `Remat`, `StackAccess` and
`SpillCode`.

- The function being allocated is a `MachineState`: instructions in program
  order, live intervals with value numbers, the virtual register map, the
  stack-slot intervals, the recorded slot uses, and fresh-name counters.
- A pointer of the source becomes a name: an instruction id, or a value
  `(register, value number)`.
- Everything the spiller calls but does not implement is a field of the
  oracle record `Env`: the CFG, dominance, loop depth, slot numbering of new
  instructions, the target's fold and debug hooks, and `LiveRangeEdit`'s
  rematerialization test and dead-def elimination.

**The DWARF compile-unit helpers** (`lib/CodeGen/AsmPrinter/DwarfCompileUnit.cpp`):

- the integer and source-line attributes;
- the location expressions for registers, frame offsets, complex addresses and
  `__block` byref variables;
- constant values;
- array subranges;
- the layout part of member DIEs.

Modules: `DwarfValues`, `DwarfLocations`, `DwarfTypes`.

- A DIE is a sequence of attribute values.
- A location block is a sequence of encoded entries. `ParseOps` decodes it
  into DWARF operations, and `Locate` gives their meaning as an evaluation
  against a register file and memory.
- Integers of the source's fixed widths are modelled as bounded `int`
  subranges, with the wrap-around written out where the source relies on it.

## Model

| member | source | states |
|---|---|---|
| SpillSnippets.IsFullCopyOf | lib/CodeGen/InlineSpiller.cpp:169-181 | A non-zero result is the other register of a full copy that names reg, and every full copy between reg and a non-zero register gives a non-zero result |
| SpillSnippets.SnippetMeaning | lib/CodeGen/InlineSpiller.cpp:186-225 | A register is a snippet exactly when it has an interval with at most two values, lives in one block, and has at most one real use besides copies to or from reg and the slot's loads and stores |
| SpillSnippets.CollectRegsToSpillSpec | lib/CodeGen/InlineSpiller.cpp:229-255 | The registers to spill start with the register, have no duplicates, and are exactly it plus the snippet siblings a full copy reaches; the snippet copies are exactly those copies; an original register collects only itself |
| SiblingValues.TraceSpillCandidate | lib/CodeGen/InlineSpiller.cpp:299-321 | The recorded spill candidate is the value itself, or a visited value outside the registers to spill whose block dominates the use block at a strictly smaller loop depth; no visited candidate is shallower |
| SiblingValues.TraceOutcome | lib/CodeGen/InlineSpiller.cpp:324-391 | AllDefsAreReloads holds iff a reload of the slot was seen and no original PHI-def or real def was; a template is returned iff a real def was seen |
| SiblingValues.TraceClosed | lib/CodeGen/InlineSpiller.cpp:324-373 | The visited set holds the queried value and is closed under the worklist steps: the live-out inputs of split PHI-defs and the sources of sibling copies |
| SiblingValues.TraceLeast | lib/CodeGen/InlineSpiller.cpp:324-373 | The visited set is the least such set: every set that holds the queried value and is closed under the worklist steps contains it |
| SiblingValues.TraceLoopFinishes | lib/CodeGen/InlineSpiller.cpp:324-341 | Once the queried value has been visited, the trace cannot stop early at a non-sibling def |
| SiblingValues.TraceSiblingValueSpec | lib/CodeGen/InlineSpiller.cpp:285-392 | A value that is a real def is returned at once with nothing recorded; otherwise the final info is recorded unless present, and the trace's template is returned |
| SiblingAnalysis.CheckRematerializable | lib/CodeGen/InlineSpiller.cpp:424-427 | The remattable set is marked scanned and gains exactly the value, when its template is trivially rematerializable |
| SiblingAnalysis.TraceOrigDef | lib/CodeGen/InlineSpiller.cpp:415-420 | A value is traced only if it is a PHI-def or a copy, and only from an original def different from its own |
| SiblingAnalysis.AnalyzeValueSpec | lib/CodeGen/InlineSpiller.cpp:411-427 | One step of the loop adds the value to SibValues iff it is traced, with its trace's info, and to the remattable set iff its template is rematerializable |
| SiblingAnalysis.AnalyzeValuesSib | lib/CodeGen/InlineSpiller.cpp:403-427 | Over a register's values, the new SibValues keys are exactly the traced values, each mapped to its trace's info; old entries are kept |
| SiblingAnalysis.AnalyzeValuesRemat | lib/CodeGen/InlineSpiller.cpp:403-427 | Over a register's values, the remattable set gains exactly the values with a rematerializable template, and is marked scanned iff some value has a template |
| SiblingAnalysis.AnalyzeSiblingValuesSpec | lib/CodeGen/InlineSpiller.cpp:398-429 | SibValues is cleared and then holds exactly the traced values of the registers to spill (none for an original register), with their recorded infos; the remattable set gains exactly their rematerializable values |
| Hoisting.ScanRedundantCode | lib/CodeGen/InlineSpiller.cpp:509-533 | Exactly the stores of the value to the stack slot (from the scan position on) become KILLs; every other instruction is unchanged |
| Hoisting.ScanRedundantDead | lib/CodeGen/InlineSpiller.cpp:526-533 | The dead defs are extended, and the new entries are exactly the ids of the killed stores |
| Hoisting.ScanRedundantCopies | lib/CodeGen/InlineSpiller.cpp:509-524 | The worklist is extended, and the new entries are exactly the sibling values that full copies of the value define |
| Hoisting.EliminateLoopDone | lib/CodeGen/InlineSpiller.cpp:491-536 | Every value the worklist loop processes is valid, outside the registers to spill, and has no store to the stack slot left in the final code |
| Hoisting.EliminateLoopClosed | lib/CodeGen/InlineSpiller.cpp:515-522 | Every sibling value that a full copy of a processed value defines is processed too |
| Hoisting.EliminateRedundantSpillsSpec | lib/CodeGen/InlineSpiller.cpp:485-537 | The value (if outside the registers to spill) and, transitively, every sibling value a full copy of a processed value defines are processed; afterwards none of them has a store to the slot left; an instruction changes only if it was a store of a processed value to the slot, and it becomes a KILL queued as a dead def; the slot interval only grows |
| Hoisting.EliminatedLeast | lib/CodeGen/InlineSpiller.cpp:491-524 | The processed values are the least such set: every set that holds the value (when valid and outside the registers to spill) and is closed under full copies into sibling values outside the registers to spill contains them |
| Hoisting.HoistPoint | lib/CodeGen/InlineSpiller.cpp:464-471 | The hoisted store goes right after the first instruction at the candidate's def, or after the PHIs and labels at the top of the block for a PHI-def |
| Hoisting.HoistSpill | lib/CodeGen/InlineSpiller.cpp:433-481 | The spill is declined iff the copy defines no value, the value was not traced, or it is not all reloads and is its own best candidate; a decline changes nothing; otherwise it only grows the slot interval, or it eliminates the candidate's redundant spills and stores the candidate after its def (or at its block's start for a PHI-def) |
| Hoisting.MergeOrigValue | lib/CodeGen/InlineSpiller.cpp:446-454 | Merging the original value into the slot's interval changes nothing but the stack intervals |
| Remat.MarkValueUsedSpec | lib/CodeGen/InlineSpiller.cpp:546-575 | The used set grows to hold the value, and every newly used value has its PHI inputs and snippet copy sources used too |
| Remat.MarkValueUsedLeast | lib/CodeGen/InlineSpiller.cpp:546-575 | The result is the least such set: any superset of the old used set that holds the value and is closed under those sources contains it |
| Remat.RenameUsesClears | lib/CodeGen/InlineSpiller.cpp:642-649 | After renaming, the instruction reads the old register nowhere, and it reads the new one whenever it read the old one |
| Remat.RematerializeAt | lib/CodeGen/InlineSpiller.cpp:633-655 | A fresh unspillable register split from the original is defined by a clone of the origin right before the use, which now reads it; its only value lives from the clone's def to the use; nothing else but the counters changes |
| Remat.ReMaterializeFor | lib/CodeGen/InlineSpiller.cpp:578-656 | Success iff there is no value at the use (reads become undef) or it is not a snippet copy, is rematerializable there and is not blocked by a tied operand; a failure changes only the used values (marking the value, unless a snippet copy); a success folds the origin or rematerializes |
| Remat.ReMaterializeForFrame | lib/CodeGen/InlineSpiller.cpp:578-656 | Rematerializing a use keeps the spill's identity and only adds to the used, rematted and new-register sets |
| Remat.AnyRematerializable | lib/CodeGen/InlineSpiller.cpp:662-663 | The register's values are scanned once, and the answer is true iff some value is remattable |
| Remat.MarkDead | lib/CodeGen/InlineSpiller.cpp:690 | Marking a register dead sets the dead flag of its first def operand and changes no other operand |
| Remat.DeadRegsSpec | lib/CodeGen/InlineSpiller.cpp:681-696 | Only def flags change, and only the first def of v's register in v's defining instruction, for a value v of the registers that is used, not a PHI-def and not marked used by a failed remat; that def ends up dead; an instruction is queued as a dead def only if it defines such a value and all its defs are dead, and each one that does and ends with all defs dead is queued |
| Remat.KeptRegs | lib/CodeGen/InlineSpiller.cpp:706-717 | The kept registers are exactly the registers to spill whose interval exists and is not empty |
| Remat.PruneRegs | lib/CodeGen/InlineSpiller.cpp:706-717 | Walking the list backwards and erasing in place keeps what a forward filter keeps, in the same order |
| Remat.PruneIntervals | lib/CodeGen/InlineSpiller.cpp:706-717 | The backward walk erases exactly the empty intervals among the registers to spill |
| Remat.ReMaterializeAllSpec | lib/CodeGen/InlineSpiller.cpp:660-719 | Remat keeps the spill's identity and marks the remattable values scanned; with nothing remattable the code is unchanged; the registers to spill are pruned iff some value is remattable, some use was rematerialized and some dead def was queued, and then become exactly those whose interval is still there and not empty, the others losing their interval and the dead defs being consumed; otherwise the list and the dead defs are unchanged |
| StackAccess.ReadsWritesMeaning | lib/CodeGen/InlineSpiller.cpp:849-851 | The instruction reads reg iff a use of it is not undef, or it partially redefines reg without fully defining it; it writes reg iff it has a def of it; the operand list is exactly the operands naming reg |
| StackAccess.CoalesceStackAccess | lib/CodeGen/InlineSpiller.cpp:727-742 | A load or store of reg from or to the slot is erased, and only such an instruction is |
| StackAccess.FoldOps | lib/CodeGen/InlineSpiller.cpp:754-769 | Folding is refused iff some operand blocks it; otherwise the operands passed are exactly the explicit, untied ones |
| StackAccess.FoldMemoryOperand | lib/CodeGen/InlineSpiller.cpp:749-782 | Success iff the operands can be folded and the target folds them; a success replaces the instruction in place with a fresh id and records a slot use when the slot itself was folded; a failure changes nothing |
| StackAccess.AddValueLookup | lib/CodeGen/InlineSpiller.cpp:794-797 | Adding a value to a well-numbered interval keeps it well-numbered; the new value covers the new range exactly where nothing was live before |
| StackAccess.InsertReloadSpec | lib/CodeGen/InlineSpiller.cpp:785-798 | A load of the new register from the slot, with a fresh id, is inserted right before the use and recorded as a slot use; the new register gains a value from the load to the use where it held nothing; other intervals are unchanged |
| StackAccess.InsertSpillSpec | lib/CodeGen/InlineSpiller.cpp:801-812 | A killing store of the new register to the slot, with a fresh id, is inserted right after the def and recorded as a slot use; the new register gains a value from the def to the store where it held nothing; other intervals are unchanged |
| SpillCode.RewriteOpsMeaning | lib/CodeGen/InlineSpiller.cpp:892-902 | After the rewrite the instruction names the new register exactly where it named reg, reads it iff it read reg, and names reg nowhere |
| SpillCode.RewriteUseFrame | lib/CodeGen/InlineSpiller.cpp:885-908 | Rewriting a use adds one new register split from reg's original, and records the reload and spill slot uses in order; only the code, intervals and counters change |
| SpillCode.NewIntervalLive | lib/CodeGen/InlineSpiller.cpp:885-908 | The new register is unspillable and live exactly from the reload to the use (when it reads) and from the def to the spill (when it has a live def) |
| SpillCode.SpillUseRewrites | lib/CodeGen/InlineSpiller.cpp:815-912 | A use that is not a debug value, a snippet copy, a coalesced access, a sibling copy or folded is rewritten in place around a fresh register: a reload before it iff it reads reg, a spill after it iff it has a live def of reg |
| SpillCode.SpillAroundUsesFrame | lib/CodeGen/InlineSpiller.cpp:815-912 | Spilling around all uses of a register keeps the spill's frame: identity, slot, and only growing new-register and slot-use records |
| SpillCode.SpillRegsFrame | lib/CodeGen/InlineSpiller.cpp:934-935 | The same holds over all registers to spill that share one original |
| SpillCode.SpillAroundUsesStack | lib/CodeGen/InlineSpiller.cpp:815-912 | Spilling around uses leaves the register-to-slot map alone and only grows the slot's interval |
| SpillCode.MergeSpilledSlot | lib/CodeGen/InlineSpiller.cpp:928-930 | The slot's interval becomes its old segments followed by the segments of every register to spill, in order |
| SpillCode.MergeSpilledOthers | lib/CodeGen/InlineSpiller.cpp:928-930 | The merge adds no slot and changes no other slot's interval |
| SpillCode.SpillAllMerged | lib/CodeGen/InlineSpiller.cpp:917-930 | After the slot is assigned and the ranges merged, the slot holds its old segments followed by those of the registers to spill, and every other slot is unchanged |
| SpillCode.MergeSpilledSpec | lib/CodeGen/InlineSpiller.cpp:928-930 | Merging appends the live segments of every register to spill to the slot's interval and leaves the other slots alone |
| SpillCode.Unreferencing | lib/CodeGen/InlineSpiller.cpp:944-951 | The remaining code is exactly the instructions that do not reference the register |
| SpillCode.DropSlotUses | lib/CodeGen/InlineSpiller.cpp:948 | The remaining slot uses are exactly those of instructions that were not erased |
| SpillCode.EraseSpilledSpec | lib/CodeGen/InlineSpiller.cpp:944-955 | Afterwards no instruction references reg, every instruction not referencing it is kept with its slot uses, and the spilled registers have no interval; nothing else changes |
| SpillCode.AssignStackSlotSpec | lib/CodeGen/InlineSpiller.cpp:917-925 | A new slot is assigned to the original when it has none, the register is mapped to the slot when it is not the original, the other mappings are unchanged, and the slot has an interval |
| SpillCode.SpillAllSpec | lib/CodeGen/InlineSpiller.cpp:915-956 | After spillAll no instruction references the register, no register to spill has an interval, the slot assignment holds, and the slot's interval starts with the old one followed by the merged segments |
| SpillCode.SpillPrepared | lib/CodeGen/InlineSpiller.cpp:958-979 | Before remat the spiller holds the collected registers, starting with the register, and no dead defs |
| SpillCode.SpillSpec | lib/CodeGen/InlineSpiller.cpp:958-984 | After spill every register left to spill has no interval; if remat handled everything, no collected register has one and the stack is untouched; otherwise nothing references the register, and it shares a slot with its original: the original's own slot, or a new slot assigned to it |
| SpillCode.SpillRematted | lib/CodeGen/InlineSpiller.cpp:975-980 | When remat leaves nothing to spill, no collected register has an interval, and the stack slots and their intervals are untouched |
| SpillCode.SpillSpilled | lib/CodeGen/InlineSpiller.cpp:975-981 | When registers are left to spill, spillAll keeps them, removes their intervals and every reference to the register, and puts the register in its original's slot |
| DwarfValues.SignedRoundTrip | lib/CodeGen/AsmPrinter/DwarfCompileUnit.cpp:60-65 | A signed 64-bit integer stored as its two's complement bits reads back as itself |
| DwarfValues.BestForm | lib/CodeGen/AsmPrinter/DwarfCompileUnit.cpp:50-56 | The chosen form is a constant data form that holds the value, and no smaller one does |
| DwarfValues.AddUInt | lib/CodeGen/AsmPrinter/DwarfCompileUnit.cpp:50-56 | One attribute is appended, holding the integer with the given form or the best one; the shared value one is used iff the integer is 1 |
| DwarfValues.AddSInt | lib/CodeGen/AsmPrinter/DwarfCompileUnit.cpp:60-65 | One attribute is appended whose bits read back as the signed integer, with the given form or the best signed one |
| DwarfValues.AddSourceLine | lib/CodeGen/AsmPrinter/DwarfCompileUnit.cpp:110-193 | An unverified descriptor or line 0 adds nothing; otherwise decl_file and decl_line are appended with the file id and the line |
| DwarfValues.SourceLineNeverZero | lib/CodeGen/AsmPrinter/DwarfCompileUnit.cpp:110-193 | No attribute added by addSourceLine holds the value 0 |
| DwarfLocations.RegisterOpLocates | lib/CodeGen/AsmPrinter/DwarfCompileUnit.cpp:208-217 | The block built by addRegisterOp locates the value in that register, for small and large register numbers alike |
| DwarfLocations.RegisterOffsetLocates | lib/CodeGen/AsmPrinter/DwarfCompileUnit.cpp:220-235 | The block built by addRegisterOffset locates the value at register (or frame base) plus the offset |
| DwarfLocations.AddressLocates | lib/CodeGen/AsmPrinter/DwarfCompileUnit.cpp:239-250 | The address block names the register for a register location, and register (or frame base) plus offset otherwise |
| DwarfLocations.ComplexAddressMeaning | lib/CodeGen/AsmPrinter/DwarfCompileUnit.cpp:257-287 | The complex address exists iff the element list applies to the base address, and it then locates the value at the result; a leading plus on a register location becomes the base offset |
| DwarfLocations.LastNamedMeaning | lib/CodeGen/AsmPrinter/DwarfCompileUnit.cpp:373-381 | The field found has the name and no later field has it, or no field has the name |
| DwarfLocations.ParseEncodeNav | lib/CodeGen/AsmPrinter/DwarfCompileUnit.cpp:413-436 | The entries of a run of address-moving operations decode back to those operations |
| DwarfLocations.ByrefNavigates | lib/CodeGen/AsmPrinter/DwarfCompileUnit.cpp:349-440 | For a variable in memory, the byref block follows the struct (or the pointer to it), adds the forwarding offset, loads __forwarding and adds the variable's offset |
| DwarfTypes.SubrangeRoundTrip | lib/CodeGen/AsmPrinter/DwarfCompileUnit.cpp:852-872 | With default lower bound 0 the subrange reads back as its bounds, and as no bounds when L > H |
| DwarfTypes.SubrangeFinds | lib/CodeGen/AsmPrinter/DwarfCompileUnit.cpp:864-871 | For L <= H the subrange holds the upper bound, and it holds the lower bound whenever L is non-zero |
| DwarfTypes.SubrangeLosesZeroLowerBound | lib/CodeGen/AsmPrinter/DwarfCompileUnit.cpp:868-869 | With default lower bound 1, a zero-based array 0..9 reads back as 1..9 |
| DwarfTypes.SubrangeForLanguageRoundTrip | lib/CodeGen/AsmPrinter/DwarfCompileUnit.cpp:852-872 | The corrected subrange reads back as its bounds whatever the language's default lower bound |
| DwarfTypes.ConstantValueRoundTrip | lib/CodeGen/AsmPrinter/DwarfCompileUnit.cpp:478-509 | A constant at most 64 bits wide, or a whole number of bytes wide, reads back as itself |
| DwarfTypes.WideConstantTruncated | lib/CodeGen/AsmPrinter/DwarfCompileUnit.cpp:496 | The 65-bit constant 2^64 is emitted as eight zero bytes and reads back as 0 |
| DwarfTypes.AddConstantValueWhole | lib/CodeGen/AsmPrinter/DwarfCompileUnit.cpp:478-509 | The corrected emitter appends one const_value attribute, and a constant wider than 64 bits gets a block of width rounded up to whole bytes |
| DwarfTypes.SExtValue | lib/CodeGen/AsmPrinter/DwarfCompileUnit.cpp:484-486 | The sign-extended value lies in the signed range of the constant's width and agrees with its bits modulo 2^width |
| DwarfTypes.ConstantValueWholeRoundTrip | lib/CodeGen/AsmPrinter/DwarfCompileUnit.cpp:478-509 | With the byte count rounded up, every valid constant reads back as itself |
| DwarfTypes.ConstantFPRoundTrip | lib/CodeGen/AsmPrinter/DwarfCompileUnit.cpp:453-475 | The raw bits of a floating-point constant read back from its block in the target's byte order |
| DwarfTypes.AddConstantImm | lib/CodeGen/AsmPrinter/DwarfCompileUnit.cpp:443-450 | One const_value block is appended, holding a single udata entry equal to the immediate modulo 2^32 |
| DwarfTypes.ConstantImmExact | lib/CodeGen/AsmPrinter/DwarfCompileUnit.cpp:443-450 | An immediate is stored exactly iff it is a 32-bit unsigned number |
| DwarfTypes.CreateMemberLayout | lib/CodeGen/AsmPrinter/DwarfCompileUnit.cpp:926-954 | A bitfield gets byte_size, bit_size and bit_offset, and a plain member gets none; the location block is one plus_uconst of the member's byte offset |
| DwarfTypes.MemberLocationMeaning | lib/CodeGen/AsmPrinter/DwarfCompileUnit.cpp:926-954 | The location block takes the structure's address to the member's byte, or to its storage unit's byte for a bitfield |
| DwarfTypes.ContainerOffsetAligned | lib/CodeGen/AsmPrinter/DwarfCompileUnit.cpp:937-940 | With a power-of-two alignment the storage unit ends at offset plus unit size rounded down to the alignment |
| DwarfTypes.BitOffsetsOpposite | lib/CodeGen/AsmPrinter/DwarfCompileUnit.cpp:937-946 | The big- and little-endian bit offsets count from opposite ends: together with the field size they make up the unit, modulo 2^64 |
| DwarfTypes.NaturalBitfield | lib/CodeGen/AsmPrinter/DwarfCompileUnit.cpp:937-946 | For a field inside one aligned unit, the unit is the aligned one holding it and the bit offsets are the field's distances from the unit's two ends |

## Left out

- The analyses the spiller only queries are oracles in `Env`: the CFG, dominance, loop depth, `SlotIndexes` numbering of new instructions, the target's `foldMemoryOperand` and `emitFrameIndexDebugValue`, and `LiveRangeEdit`'s `canRematerializeAt`, `rematerializeAt`, `checkRematerializable` test and `eliminateDeadDefs`. Their implementations are not part of this model.
- Live intervals are lists of segments with value numbers. There is no join or coalescing of segments, so `MergeValueInAsValue` and `LiveInterval::MergeRangesInAsValue` become appends. The model states where values are live, not the canonical shape of the list.
- `calculateRegClassAndHint`, register classes and `MRI.setRegClass` are not modelled. They only affect allocation hints and class constraints.
- The `DEBUG(...)` output is left out.
- Where the source asserts a fact about its inputs, the model takes a defined fallback instead of a precondition. Examples are a missing value at a copy (hoistSpill declines) and a stack interval with more than one value. The contracts cover both paths.
- `eliminateRedundantSpills` has no visited set in the source. The model adds one so that the worklist terminates. It only stops a value from being processed twice, which in the source's dominator-shaped copy graphs does not happen.
- `LiveRangeEdit::eraseVirtReg` and `LiveIntervals::removeInterval` are modelled as removing the register's interval.
- `readsWritesVirtualRegister` (MachineInstr.cpp), `DIEInteger::BestForm` and `TargetRegisterInfo::isVirtualRegister` are not part of this model's source files. They are modelled from their LLVM definitions.
- `MachineInstr::addRegisterDead` and `MachineInstr::allDefsAreDead` (MachineInstr.cpp) are not part of this model's source files either. They are modelled from their LLVM definitions of the same era: `addRegisterDead`, called without adding a missing operand, marks the first def operand of the register dead and leaves the rest alone (`Remat.MarkDead`).
- The uses and defs of a register are visited in program order (`RegInstrs`, `UseInstrsNoDbg`, `Remat.RematUses`). LLVM walks the register's use-def list, whose order is not program order. The order decides the numbering of new registers and instruction ids and the order of the slot-use records.
- SpillCode.SpillUseRewrites: it needs instruction ids below the next fresh id (`FreshIds`) and the use present in the code. The source gets both for free from pointer identity.
- SpillCode.SpillSpec: it says nothing about the live intervals after the `eliminateDeadDefs` oracle, beyond the registers to spill having none.
- SpillCode.SpillAllSpec: it states that the slot's interval begins with the merged segments, not its full final contents. Hoisting may append more.
- SpillCode.SpillUseFrame: the debug-value, snippet-copy, coalesce, sibling-copy and fold paths of spillAroundUses are stated only as frame properties. SpillCode.SpillUseRewrites covers the rewrite path in full.
- Hoisting.MergeOrigValue: its contract is a frame only. The merged contents follow the append model of intervals.
- DwarfLocations.ByrefNavigates: only the in-memory case is given a meaning. A register location followed by memory navigation has no meaning in DWARF.
- The DIE tree itself is not modelled: children, `addType`, names, accessibility and the virtual-base expression of `createMemberDIE`. So are the other `constructTypeDIE` variants and the string, label and delta attributes. A DIE is a flat list of attribute values.
- The byte image of a wide `APInt` (`getRawData`) is read as on a little-endian host.
- Floating-point constants are modelled by their raw bit pattern. No floating-point arithmetic is involved.

## Findings

| source | as written | input that shows it | evidently intended | confidence | as-written member | corrected member |
|---|---|---|---|---|---|---|
| lib/CodeGen/AsmPrinter/DwarfCompileUnit.cpp:496 | `NumBytes = BitWidth / 8` rounds down, so the top bits of a constant whose width is above 64 and not a multiple of 8 are dropped | an `i65` constant with value 2^64 is emitted as eight zero bytes | round the byte count up: `(BitWidth + 7) / 8` | not executed; high (`APInt` stores whole 64-bit words, so the bytes exist) | DwarfTypes.WideConstantTruncated | DwarfTypes.AddConstantValueWhole, proved by DwarfTypes.ConstantValueWholeRoundTrip |
| lib/CodeGen/AsmPrinter/DwarfCompileUnit.cpp:868-869 | the lower bound is emitted only when L is non-zero, whatever the unit's language | a zero-based array `0..9` in a unit whose default lower bound is 1 (Fortran, among others, in the language table of DWARF version 3) reads back as `1..9` | omit the lower bound only when it equals the language's default | not executed; medium (the comment scopes the shortcut to C/C++) | DwarfTypes.SubrangeLosesZeroLowerBound | DwarfTypes.ConstructSubrangeDIEForLanguage, proved by DwarfTypes.SubrangeForLanguageRoundTrip |
