/*
 * Location expressions built by CompileUnit: addRegisterOp, addRegisterOffset,
 * addComplexAddress and addBlockByrefAddress.
 *
 * The encoders append (form, value) entries to a DIEBlock. To say what an
 * encoding means, the module also decodes a block back into DWARF operations
 * and evaluates them the way a consumer does: register locations (section 2.6
 * of the DWARF Version 3 standard) and address computations that start from a
 * register-based address (section 2.5.1.2) followed by DW_OP_plus_uconst and
 * DW_OP_deref (sections 2.5.1.4 and 2.5.1.3).
 */
module DwarfLocations {
  import opened Optional
  import opened DwarfValues

  // Location operations (DWARF Version 3, section 7.7.1).
  const DW_OP_deref: nat := 0x06
  const DW_OP_plus_uconst: nat := 0x23
  const DW_OP_reg0: nat := 0x50
  const DW_OP_breg0: nat := 0x70
  const DW_OP_regx: nat := 0x90
  const DW_OP_fbreg: nat := 0x91
  const DW_OP_bregx: nat := 0x92

  const DW_TAG_pointer_type: nat := 0x0f

  /** The complex-address element codes of DIBuilder. */
  const OpPlus: u64 := 1
  const OpDeref: u64 := 2

  /** A MachineLocation: a register, or a register plus a byte offset. */
  datatype MachineLocation = MachineLocation(isReg: bool, reg: nat, offset: i32)

  // ---------------------------------------------------------------------------
  // Decoding and evaluating a location block
  // ---------------------------------------------------------------------------

  datatype Op =
    | OpReg(n: nat)
    | OpBreg(n: nat, offset: int)
    | OpFbreg(offset: int)
    | OpPlusUconst(k: nat)
    | OpDerefTop

  predicate IsOperand(e: Attr, form: nat) {
    e.form == form && IsInteger(e.value)
  }

  /** Reads the operation at the head of a block and how many entries it
      takes; None when the head is not one of the operations above. */
  function ParseOne(b: Die): (r: Option<(Op, nat)>)
    requires |b| > 0
    ensures r.Some? ==> 1 <= r.value.1 <= |b|
  {
    if b[0].form != DW_FORM_data1 || !IsInteger(b[0].value) then None
    else
      var c := Bits(b[0].value);
      if DW_OP_reg0 <= c < DW_OP_reg0 + 32 then Some((OpReg(c - DW_OP_reg0), 1))
      else if c == DW_OP_deref then Some((OpDerefTop, 1))
      else if |b| < 2 || !IsInteger(b[1].value) then None
      else
        var x := Bits(b[1].value);
        if DW_OP_breg0 <= c < DW_OP_breg0 + 32 && b[1].form == DW_FORM_sdata then
          Some((OpBreg(c - DW_OP_breg0, ToS64(x)), 2))
        else if c == DW_OP_regx && b[1].form == DW_FORM_udata then Some((OpReg(x), 2))
        else if c == DW_OP_fbreg && b[1].form == DW_FORM_sdata then Some((OpFbreg(ToS64(x)), 2))
        else if c == DW_OP_plus_uconst && b[1].form == DW_FORM_udata then Some((OpPlusUconst(x), 2))
        else if c == DW_OP_bregx && b[1].form == DW_FORM_udata && |b| >= 3 && IsOperand(b[2], DW_FORM_sdata) then
          Some((OpBreg(x, ToS64(Bits(b[2].value))), 3))
        else None
  }

  /** Reads a whole block back as DWARF operations. */
  function ParseOps(b: Die): Option<seq<Op>>
    decreases |b|, 1
  {
    if |b| == 0 then Some([]) else ParseNonEmpty(b)
  }

  /** The head operation, then the rest of the block. */
  function ParseNonEmpty(b: Die): Option<seq<Op>>
    requires |b| > 0
    decreases |b|, 0
  {
    match ParseOne(b)
    case None => None
    case Some((op, k)) => Prepend(op, ParseOps(b[k..]))
  }

  function Prepend(op: Op, rest: Option<seq<Op>>): Option<seq<Op>> {
    match rest
    case None => None
    case Some(ops) => Some([op] + ops)
  }

  /** The head operation does not look past its own entries. */
  lemma ParseOneExtends(a: Die, b: Die)
    requires |a| > 0 && ParseOne(a).Some?
    ensures ParseOne(a + b) == ParseOne(a)
  {
    assert (a + b)[0] == a[0];
    if |a| >= 2 {
      assert (a + b)[1] == a[1];
    }
    if |a| >= 3 {
      assert (a + b)[2] == a[2];
    }
  }

  /** A block that is exactly one operation decodes to that operation. */
  lemma ParseSingle(a: Die)
    requires |a| > 0 && ParseOne(a).Some? && ParseOne(a).value.1 == |a|
    ensures ParseOps(a).Some? && ParseOps(a).value == [ParseOne(a).value.0]
  {
    ParseStep(a);
    assert ParseOps(a[ParseOne(a).value.1..]) == Some([]);
  }

  /** One step of decoding: the head operation, then the rest. */
  lemma ParseStep(x: Die)
    requires |x| > 0 && ParseOne(x).Some?
    ensures ParseOps(x) == Prepend(ParseOne(x).value.0, ParseOps(x[ParseOne(x).value.1..]))
  {
    assert ParseOps(x) == ParseNonEmpty(x);
  }

  /** Decoding a concatenation whose first part is non-empty starts with the
      first part's head operation. */
  lemma ParseConcatStep(a: Die, b: Die) returns (op: Op, rest: Die)
    requires |a| > 0 && ParseOne(a).Some?
    ensures |rest| < |a|
    ensures ParseOps(a) == Prepend(op, ParseOps(rest))
    ensures ParseOps(a + b) == Prepend(op, ParseOps(rest + b))
  {
    op := ParseOne(a).value.0;
    var k := ParseOne(a).value.1;
    rest := a[k..];
    ParseStep(a);
    ParseOneExtends(a, b);
    ParseStep(a + b);
    assert (a + b)[k..] == rest + b;
  }

  /** Decoding a concatenation decodes each part. */
  lemma {:induction false} ParseAppend(a: Die, b: Die)
    requires ParseOps(a).Some? && ParseOps(b).Some?
    ensures ParseOps(a + b) == Some(ParseOps(a).value + ParseOps(b).value)
    decreases |a|
  {
    if |a| == 0 {
      assert a + b == b;
      assert ParseOps(a).value == [];
      assert [] + ParseOps(b).value == ParseOps(b).value;
    } else {
      var op, rest := ParseConcatStep(a, b);
      ParseAppend(rest, b);
      var pa := ParseOps(rest).value;
      var pb := ParseOps(b).value;
      assert [op] + (pa + pb) == ([op] + pa) + pb;
    }
  }

  /** What the consumer has at hand: register contents, the frame base and memory. */
  datatype Context = Context(regs: nat -> u64, frameBase: u64, mem: u64 -> u64)

  datatype Location = InRegister(reg: nat) | AtAddress(addr: u64)

  /** Applies DW_OP_plus_uconst (modulo the 64-bit address size) and
      DW_OP_deref to an address. */
  function Navigate(ops: seq<Op>, a: u64, ctx: Context): Option<u64>
    decreases |ops|
  {
    if |ops| == 0 then Some(a)
    else match ops[0]
      case OpPlusUconst(k) => Navigate(ops[1..], ToU64(a + k), ctx)
      case OpDerefTop => Navigate(ops[1..], ctx.mem(a), ctx)
      case _ => None
  }

  /** Navigating a concatenation navigates the first part, then the second. */
  lemma {:induction false} NavigateAppend(a: seq<Op>, b: seq<Op>, x: u64, ctx: Context)
    requires Navigate(a, x, ctx).Some?
    ensures Navigate(a + b, x, ctx) == Navigate(b, Navigate(a, x, ctx).value, ctx)
    decreases |a|
  {
    if |a| == 0 {
      assert a + b == b;
    } else {
      assert (a + b)[1..] == a[1..] + b;
      match a[0]
      case OpPlusUconst(k) => NavigateAppend(a[1..], b, ToU64(x + k), ctx);
      case OpDerefTop => NavigateAppend(a[1..], b, ctx.mem(x), ctx);
    }
  }

  /** A lone register operation names a register; a register-based address
      operation starts an address computation. */
  function Evaluate(ops: seq<Op>, ctx: Context): Option<Location> {
    if |ops| == 0 then None
    else match ops[0]
      case OpReg(n) => if |ops| == 1 then Some(InRegister(n)) else None
      case OpBreg(n, off) =>
        (match Navigate(ops[1..], ToU64(ctx.regs(n) + off), ctx)
         case None => None
         case Some(a) => Some(AtAddress(a)))
      case OpFbreg(off) =>
        (match Navigate(ops[1..], ToU64(ctx.frameBase + off), ctx)
         case None => None
         case Some(a) => Some(AtAddress(a)))
      case _ => None
  }

  function Locate(b: Die, ctx: Context): Option<Location> {
    match ParseOps(b)
    case None => None
    case Some(ops) => Evaluate(ops, ctx)
  }

  // ---------------------------------------------------------------------------
  // The encoders
  // ---------------------------------------------------------------------------

  /** addRegisterOp: DW_OP_reg0 + n for DWARF register numbers below 32, else
      DW_OP_regx n. The number is the target's getDwarfRegNum answer, read as
      unsigned. */
  function AddRegisterOp(block: Die, dwarfRegNum: i32): (r: Die)
    ensures ToU32(dwarfRegNum) < 32 ==>
      r == block + [Attr(0, DW_FORM_data1, Integer(DW_OP_reg0 + ToU32(dwarfRegNum)))]
    ensures ToU32(dwarfRegNum) >= 32 ==>
      r == block + [Attr(0, DW_FORM_data1, Integer(DW_OP_regx)),
                    Attr(0, DW_FORM_udata, Integer(ToU32(dwarfRegNum)))]
  {
    var n := ToU32(dwarfRegNum);
    if n < 32 then AddUInt(block, 0, DW_FORM_data1, DW_OP_reg0 + n)
    else AddUInt(AddUInt(block, 0, DW_FORM_data1, DW_OP_regx), 0, DW_FORM_udata, n)
  }

  /** The register operation names the register it was built for. */
  lemma RegisterOpLocates(dwarfRegNum: i32, ctx: Context)
    ensures Locate(AddRegisterOp([], dwarfRegNum), ctx) == Some(InRegister(ToU32(dwarfRegNum)))
  {
    ParseSingle(AddRegisterOp([], dwarfRegNum));
  }

  /** The operation(s) naming the base register of a register-based address,
      without the offset. */
  function BaseRegOp(block: Die, isFrameReg: bool, n: u32): (r: Die) {
    if isFrameReg then AddUInt(block, 0, DW_FORM_data1, DW_OP_fbreg)
    else if n < 32 then AddUInt(block, 0, DW_FORM_data1, DW_OP_breg0 + n)
    else AddUInt(AddUInt(block, 0, DW_FORM_data1, DW_OP_bregx), 0, DW_FORM_udata, n)
  }

  /** addRegisterOffset: DW_OP_fbreg for the frame register, else DW_OP_breg0 + n
      below 32, else DW_OP_bregx n; the offset always follows as sdata. */
  function AddRegisterOffset(block: Die, dwarfRegNum: i32, isFrameReg: bool, offset: i64): (r: Die)
    ensures |r| > |block| && r[..|block|] == block
    ensures r[|r| - 1].form == DW_FORM_sdata && ToS64(Bits(r[|r| - 1].value)) == offset
    ensures Bits(r[|block|].value) ==
      if isFrameReg then DW_OP_fbreg
      else if ToU32(dwarfRegNum) < 32 then DW_OP_breg0 + ToU32(dwarfRegNum)
      else DW_OP_bregx
    ensures |r| == |block| + (if !isFrameReg && ToU32(dwarfRegNum) >= 32 then 3 else 2)
  {
    AddSInt(BaseRegOp(block, isFrameReg, ToU32(dwarfRegNum)), 0, DW_FORM_sdata, offset)
  }

  function BaseAddress(ctx: Context, dwarfRegNum: i32, isFrameReg: bool, offset: int): u64 {
    if isFrameReg then ToU64(ctx.frameBase + offset)
    else ToU64(ctx.regs(ToU32(dwarfRegNum)) + offset)
  }

  /** The register-offset operation addresses register (or frame base) plus offset. */
  lemma RegisterOffsetParses(dwarfRegNum: i32, isFrameReg: bool, offset: i64)
    ensures ParseOps(AddRegisterOffset([], dwarfRegNum, isFrameReg, offset)) ==
      Some([if isFrameReg then OpFbreg(offset) else OpBreg(ToU32(dwarfRegNum), offset)])
  {
    ParseSingle(AddRegisterOffset([], dwarfRegNum, isFrameReg, offset));
  }

  lemma RegisterOffsetLocates(dwarfRegNum: i32, isFrameReg: bool, offset: i64, ctx: Context)
    ensures Locate(AddRegisterOffset([], dwarfRegNum, isFrameReg, offset), ctx) ==
      Some(AtAddress(BaseAddress(ctx, dwarfRegNum, isFrameReg, offset)))
  {
    RegisterOffsetParses(dwarfRegNum, isFrameReg, offset);
    var ops := ParseOps(AddRegisterOffset([], dwarfRegNum, isFrameReg, offset)).value;
    assert ops[1..] == [];
  }

  /** addAddress: the location block of a plain variable, a register operation
      for a register location and a register-offset operation otherwise. */
  function AddAddress(loc: MachineLocation, dwarfRegNum: i32, isFrameReg: bool): (r: Die) {
    if loc.isReg then AddRegisterOp([], dwarfRegNum)
    else AddRegisterOffset([], dwarfRegNum, isFrameReg, loc.offset)
  }

  /** The address block names the register, or addresses register (or frame
      base) plus the location's offset. */
  lemma AddressLocates(loc: MachineLocation, dwarfRegNum: i32, isFrameReg: bool, ctx: Context)
    ensures Locate(AddAddress(loc, dwarfRegNum, isFrameReg), ctx) ==
      if loc.isReg then Some(InRegister(ToU32(dwarfRegNum)))
      else Some(AtAddress(BaseAddress(ctx, dwarfRegNum, isFrameReg, loc.offset as int)))
  {
    if loc.isReg {
      RegisterOpLocates(dwarfRegNum, ctx);
    } else {
      RegisterOffsetLocates(dwarfRegNum, isFrameReg, loc.offset, ctx);
    }
  }

  /** getAddrElement: an index past the end of the element list reads as 0. */
  function Element(elems: seq<u64>, i: nat): u64 {
    if i < |elems| then elems[i] else 0
  }

  /** The loop of addComplexAddress from element i on: OpPlus takes the next
      element as a DW_OP_plus_uconst operand, OpDeref is DW_OP_deref, and any
      other element is unreachable in the source (None here). */
  function ComplexTail(elems: seq<u64>, i: nat): Option<Die>
    decreases if i <= |elems| then |elems| - i else 0
  {
    if i >= |elems| then Some([])
    else if elems[i] == OpPlus then
      match ComplexTail(elems, i + 2)
      case None => None
      case Some(rest) => Some(NavEntries(OpPlusUconst(Element(elems, i + 1))) + rest)
    else if elems[i] == OpDeref then
      match ComplexTail(elems, i + 1)
      case None => None
      case Some(rest) => Some(NavEntries(OpDerefTop) + rest)
    else None
  }

  /** What the element list means: from an address, add or dereference. */
  function ApplyElements(elems: seq<u64>, i: nat, a: u64, mem: u64 -> u64): Option<u64>
    decreases if i <= |elems| then |elems| - i else 0
  {
    if i >= |elems| then Some(a)
    else if elems[i] == OpPlus then ApplyElements(elems, i + 2, ToU64(a + Element(elems, i + 1)), mem)
    else if elems[i] == OpDeref then ApplyElements(elems, i + 1, mem(a), mem)
    else None
  }

  /** The emitted tail computes exactly what the element list describes. */
  lemma {:induction false} ComplexTailMeaning(elems: seq<u64>, i: nat, a: u64, ctx: Context)
    ensures ComplexTail(elems, i).Some? <==> ApplyElements(elems, i, a, ctx.mem).Some?
    ensures ComplexTail(elems, i).Some? ==>
      && ParseOps(ComplexTail(elems, i).value).Some?
      && Navigate(ParseOps(ComplexTail(elems, i).value).value, a, ctx) == ApplyElements(elems, i, a, ctx.mem)
    decreases if i <= |elems| then |elems| - i else 0
  {
    if i >= |elems| {
    } else if elems[i] == OpPlus {
      var k := Element(elems, i + 1);
      ComplexTailMeaning(elems, i + 2, ToU64(a + k), ctx);
      if ComplexTail(elems, i + 2).Some? {
        var rest := ComplexTail(elems, i + 2).value;
        NavCons(OpPlusUconst(k), rest);
        NavigateCons(OpPlusUconst(k), ParseOps(rest).value, a, ctx);
      }
    } else if elems[i] == OpDeref {
      ComplexTailMeaning(elems, i + 1, ctx.mem(a), ctx);
      if ComplexTail(elems, i + 1).Some? {
        var rest := ComplexTail(elems, i + 1).value;
        NavCons(OpDerefTop, rest);
        NavigateCons(OpDerefTop, ParseOps(rest).value, a, ctx);
      }
    }
  }

  /** Whether addComplexAddress starts from a base address built from the first
      two elements (a register location whose list starts with OpPlus). */
  predicate FoldsLeadingPlus(loc: MachineLocation, elems: seq<u64>) {
    loc.isReg && |elems| >= 2 && elems[0] == OpPlus
  }

  /** addComplexAddress: the base location followed by the element operations;
      None where the source reaches llvm_unreachable. */
  function AddComplexAddress(loc: MachineLocation, dwarfRegNum: i32, isFrameReg: bool,
                             elems: seq<u64>): (r: Option<Die>)
    ensures r.Some? <==> ComplexTail(elems, if FoldsLeadingPlus(loc, elems) then 2 else 0).Some?
    ensures r.Some? && FoldsLeadingPlus(loc, elems) ==>
      r.value == AddRegisterOffset([], dwarfRegNum, isFrameReg, ToS64(elems[1])) + ComplexTail(elems, 2).value
    ensures r.Some? && loc.isReg && !FoldsLeadingPlus(loc, elems) ==>
      r.value == AddRegisterOp([], dwarfRegNum) + ComplexTail(elems, 0).value
    ensures r.Some? && !loc.isReg ==>
      r.value == AddRegisterOffset([], dwarfRegNum, isFrameReg, loc.offset) + ComplexTail(elems, 0).value
  {
    var start := if FoldsLeadingPlus(loc, elems) then 2 else 0;
    var base :=
      if loc.isReg then
        if FoldsLeadingPlus(loc, elems) then AddRegisterOffset([], dwarfRegNum, isFrameReg, ToS64(elems[1]))
        else AddRegisterOp([], dwarfRegNum)
      else AddRegisterOffset([], dwarfRegNum, isFrameReg, loc.offset);
    match ComplexTail(elems, start)
    case None => None
    case Some(tail) => Some(base + tail)
  }

  /** For an address-based location, the emitted expression computes the
      element list applied to the base address; a register location with a
      leading OpPlus becomes register plus the first operand. */
  lemma ComplexAddressMeaning(loc: MachineLocation, dwarfRegNum: i32, isFrameReg: bool,
                              elems: seq<u64>, ctx: Context)
    requires !loc.isReg || FoldsLeadingPlus(loc, elems)
    ensures var start := if FoldsLeadingPlus(loc, elems) then 2 else 0;
      var off := if FoldsLeadingPlus(loc, elems) then ToS64(elems[1]) else loc.offset as int;
      var base := BaseAddress(ctx, dwarfRegNum, isFrameReg, off);
      && (AddComplexAddress(loc, dwarfRegNum, isFrameReg, elems).Some? <==>
          ApplyElements(elems, start, base, ctx.mem).Some?)
      && (AddComplexAddress(loc, dwarfRegNum, isFrameReg, elems).Some? ==>
          Locate(AddComplexAddress(loc, dwarfRegNum, isFrameReg, elems).value, ctx) ==
          Some(AtAddress(ApplyElements(elems, start, base, ctx.mem).value)))
  {
    var start := if FoldsLeadingPlus(loc, elems) then 2 else 0;
    var off: i64 := if FoldsLeadingPlus(loc, elems) then ToS64(elems[1]) else loc.offset as int;
    var base := BaseAddress(ctx, dwarfRegNum, isFrameReg, off);
    ComplexTailMeaning(elems, start, base, ctx);
    if ComplexTail(elems, start).Some? {
      OffsetThenTail(dwarfRegNum, isFrameReg, off, ComplexTail(elems, start).value, ctx);
    }
  }

  /** A register-offset operation followed by a navigation-only tail. */
  lemma OffsetThenTail(dwarfRegNum: i32, isFrameReg: bool, off: i64, tail: Die, ctx: Context)
    requires ParseOps(tail).Some?
    requires Navigate(ParseOps(tail).value, BaseAddress(ctx, dwarfRegNum, isFrameReg, off), ctx).Some?
    ensures Locate(AddRegisterOffset([], dwarfRegNum, isFrameReg, off) + tail, ctx) ==
      Some(AtAddress(Navigate(ParseOps(tail).value, BaseAddress(ctx, dwarfRegNum, isFrameReg, off), ctx).value))
  {
    var op := OffsetThenTailParses(dwarfRegNum, isFrameReg, off, tail);
    assert StartAddress(op, ctx) == BaseAddress(ctx, dwarfRegNum, isFrameReg, off);
    LocateFrom(AddRegisterOffset([], dwarfRegNum, isFrameReg, off) + tail, op, ParseOps(tail).value, ctx);
  }

  lemma OffsetThenTailParses(dwarfRegNum: i32, isFrameReg: bool, off: i64, tail: Die) returns (op: Op)
    requires ParseOps(tail).Some?
    ensures op == if isFrameReg then OpFbreg(off) else OpBreg(ToU32(dwarfRegNum), off)
    ensures ParseOps(AddRegisterOffset([], dwarfRegNum, isFrameReg, off) + tail) == Some([op] + ParseOps(tail).value)
  {
    var head := AddRegisterOffset([], dwarfRegNum, isFrameReg, off);
    op := if isFrameReg then OpFbreg(off) else OpBreg(ToU32(dwarfRegNum), off);
    RegisterOffsetParses(dwarfRegNum, isFrameReg, off);
    ParseAppend(head, tail);
  }

  /** The address a register-based operation starts from. */
  function StartAddress(op: Op, ctx: Context): u64
    requires op.OpBreg? || op.OpFbreg?
  {
    if op.OpBreg? then ToU64(ctx.regs(op.n) + op.offset) else ToU64(ctx.frameBase + op.offset)
  }

  /** A register-based address followed by navigation locates the navigated address. */
  lemma LocateFrom(b: Die, op: Op, nav: seq<Op>, ctx: Context)
    requires op.OpBreg? || op.OpFbreg?
    requires ParseOps(b) == Some([op] + nav)
    requires Navigate(nav, StartAddress(op, ctx), ctx).Some?
    ensures Locate(b, ctx) == Some(AtAddress(Navigate(nav, StartAddress(op, ctx), ctx).value))
  {
    assert ([op] + nav)[1..] == nav;
  }

  // ---------------------------------------------------------------------------
  // Block byref variables
  // ---------------------------------------------------------------------------

  /** A member of the __Block_byref_x_VarName struct. */
  datatype Field = Field(name: string, offsetInBits: u64)

  const ForwardingName: string := "__forwarding"

  /** The index of the last field with the given name. */
  function LastNamed(fields: seq<Field>, name: string): (r: Option<nat>)
    ensures r.Some? ==> r.value < |fields|
    decreases |fields|
  {
    if |fields| == 0 then None
    else if fields[|fields| - 1].name == name then Some(|fields| - 1)
    else LastNamed(fields[..|fields| - 1], name)
  }

  /** LastNamed finds a field of that name with none after it, or reports
      that there is none. */
  lemma {:induction false} LastNamedMeaning(fields: seq<Field>, name: string)
    ensures LastNamed(fields, name).Some? ==>
      && fields[LastNamed(fields, name).value].name == name
      && forall j :: LastNamed(fields, name).value < j < |fields| ==> fields[j].name != name
    ensures LastNamed(fields, name).None? ==> forall j :: 0 <= j < |fields| ==> fields[j].name != name
    decreases |fields|
  {
    if |fields| > 0 && fields[|fields| - 1].name != name {
      var prefix := fields[..|fields| - 1];
      LastNamedMeaning(prefix, name);
      assert forall j :: 0 <= j < |prefix| ==> prefix[j] == fields[j];
    }
  }

  function FieldAt(fields: seq<Field>, k: Option<nat>): Option<Field>
    requires k.Some? ==> k.value < |fields|
  {
    match k
    case None => None
    case Some(i) => Some(fields[i])
  }

  /** The field loop of addBlockByrefAddress, one pass with a later field
      overriding an earlier one: it finds the last field named __forwarding,
      and the last field named like the variable unless that name is
      __forwarding itself. */
  function ByrefFields(fields: seq<Field>, varName: string): (r: (Option<Field>, Option<Field>))
    ensures r.0 == FieldAt(fields, LastNamed(fields, ForwardingName))
    ensures r.1 == if varName == ForwardingName then None else FieldAt(fields, LastNamed(fields, varName))
    decreases |fields|
  {
    if |fields| == 0 then (None, None)
    else
      var prefix := fields[..|fields| - 1];
      var last := fields[|fields| - 1];
      var r := ByrefFields(prefix, varName);
      if last.name == ForwardingName then (Some(last), r.1)
      else if last.name == varName then (r.0, Some(last))
      else r
  }

  /** getOffsetInBits() >> 3 kept in an unsigned; a missing field reads as 0. */
  function FieldByteOffset(f: Option<Field>): u32 {
    match f
    case None => 0
    case Some(x) => (x.offsetInBits / 8) % TWO_32
  }

  /** The operations of a byref location, as addBlockByrefAddress emits them
      after the base: an optional dereference of the struct pointer, the
      forwarding offset when non-zero, the dereference of __forwarding and the
      variable offset when non-zero. */
  function ByrefNavigationOps(isPointer: bool, forwardingOffset: nat, varOffset: nat): seq<Op> {
    DerefOps(isPointer) + PlusOps(forwardingOffset) + [OpDerefTop] + PlusOps(varOffset)
  }

  function DerefOps(c: bool): seq<Op> {
    if c then [OpDerefTop] else []
  }

  function PlusOps(k: nat): seq<Op> {
    if k > 0 then [OpPlusUconst(k)] else []
  }

  /** The base of a byref location: the register as in addRegisterOp, or
      breg/bregx with the offset appended through addUInt in sdata form (the
      frame register gets no fbreg here). */
  function ByrefBase(loc: MachineLocation, n: u32): (r: Die)
    ensures ParseOps(r) == Some(if loc.isReg then [OpReg(n)] else [OpBreg(n, loc.offset as int)])
  {
    if loc.isReg then
      var b := if n < 32 then AddUInt([], 0, DW_FORM_data1, DW_OP_reg0 + n)
               else AddUInt(AddUInt([], 0, DW_FORM_data1, DW_OP_regx), 0, DW_FORM_udata, n);
      ParseSingle(b);
      b
    else
      var b0 := if n < 32 then AddUInt([], 0, DW_FORM_data1, DW_OP_breg0 + n)
                else AddUInt(AddUInt([], 0, DW_FORM_data1, DW_OP_bregx), 0, DW_FORM_udata, n);
      var b := AddUInt(b0, 0, DW_FORM_sdata, ToU64(loc.offset as int));
      ParseSingle(b);
      b
  }

  /** An operation that only moves an address: DW_OP_deref, or
      DW_OP_plus_uconst with a 64-bit operand. */
  predicate IsNavOp(op: Op) {
    op.OpDerefTop? || (op.OpPlusUconst? && op.k < TWO_64)
  }

  /** The entries addUInt appends for one address-moving operation. */
  function NavEntries(op: Op): Die
    requires IsNavOp(op)
  {
    if op.OpDerefTop? then AddUInt([], 0, DW_FORM_data1, DW_OP_deref)
    else AddUInt(AddUInt([], 0, DW_FORM_data1, DW_OP_plus_uconst), 0, DW_FORM_udata, op.k)
  }

  /** The entries for a run of address-moving operations, one after the other. */
  function EncodeNav(ops: seq<Op>): Die
    requires forall i :: 0 <= i < |ops| ==> IsNavOp(ops[i])
    decreases |ops|
  {
    if |ops| == 0 then [] else NavEntries(ops[0]) + EncodeNav(ops[1..])
  }

  /** An address-moving operation in front of a decodable block decodes in front of it. */
  lemma NavCons(op: Op, rest: Die)
    requires IsNavOp(op) && ParseOps(rest).Some?
    ensures ParseOps(NavEntries(op) + rest) == Some([op] + ParseOps(rest).value)
  {
    ParseSingle(NavEntries(op));
    ParseAppend(NavEntries(op), rest);
  }

  /** One step of navigation. */
  lemma NavigateCons(op: Op, nav: seq<Op>, a: u64, ctx: Context)
    ensures Navigate([op] + nav, a, ctx) ==
      match op
      case OpPlusUconst(k) => Navigate(nav, ToU64(a + k), ctx)
      case OpDerefTop => Navigate(nav, ctx.mem(a), ctx)
      case _ => None
  {
    assert ([op] + nav)[1..] == nav;
  }

  /** The entries of a run of address-moving operations decode back to it. */
  lemma {:induction false} ParseEncodeNav(ops: seq<Op>)
    requires forall i :: 0 <= i < |ops| ==> IsNavOp(ops[i])
    ensures ParseOps(EncodeNav(ops)) == Some(ops)
    decreases |ops|
  {
    if |ops| > 0 {
      ParseEncodeNav(ops[1..]);
      NavCons(ops[0], EncodeNav(ops[1..]));
      assert [ops[0]] + ops[1..] == ops;
    }
  }

  /** The operations after the base, as addBlockByrefAddress emits them. */
  function ByrefNavigation(isPointer: bool, fwd: u32, vo: u32): (r: Die)
    ensures ParseOps(r) == Some(ByrefNavigationOps(isPointer, fwd, vo))
  {
    ParseEncodeNav(ByrefNavigationOps(isPointer, fwd, vo));
    EncodeNav(ByrefNavigationOps(isPointer, fwd, vo))
  }

  /** addBlockByrefAddress. `fields` are the members of the byref struct (the
      pointee's when the variable's type tag is DW_TAG_pointer_type). */
  function AddBlockByrefAddress(loc: MachineLocation, dwarfRegNum: i32, typeTag: nat,
                                fields: seq<Field>, varName: string): (r: Die)
    ensures ParseOps(r) == Some(
      (if loc.isReg then [OpReg(ToU32(dwarfRegNum))] else [OpBreg(ToU32(dwarfRegNum), loc.offset as int)])
      + ByrefNavigationOps(typeTag == DW_TAG_pointer_type,
          FieldByteOffset(ByrefFields(fields, varName).0), FieldByteOffset(ByrefFields(fields, varName).1)))
  {
    var fs := ByrefFields(fields, varName);
    var b0 := ByrefBase(loc, ToU32(dwarfRegNum));
    var nav := ByrefNavigation(typeTag == DW_TAG_pointer_type, FieldByteOffset(fs.0), FieldByteOffset(fs.1));
    ParseAppend(b0, nav);
    b0 + nav
  }

  /** Following the byref navigation from an address. */
  /** Where a byref variable lives, given the address of its struct (or of
      the pointer to it): the __forwarding pointer at the forwarding offset,
      plus the variable's offset. */
  function ByrefAddress(isPointer: bool, fwd: nat, vo: nat, a: u64, mem: u64 -> u64): u64 {
    var s := if isPointer then mem(a) else a;
    ToU64(mem(ToU64(s + fwd)) + vo)
  }

  lemma NavigateByref(isPointer: bool, fwd: u32, vo: u32, a: u64, ctx: Context)
    ensures Navigate(ByrefNavigationOps(isPointer, fwd, vo), a, ctx) ==
      Some(ByrefAddress(isPointer, fwd, vo, a, ctx.mem))
  {
    var s := if isPointer then ctx.mem(a) else a;
    var m := ctx.mem(ToU64(s + fwd));
    NavigateDeref(isPointer, a, ctx);
    NavigatePlus(fwd, s, ctx);
    NavigateDeref(true, ToU64(s + fwd), ctx);
    NavigatePlus(vo, m, ctx);
    NavigateAppend(DerefOps(isPointer), PlusOps(fwd), a, ctx);
    NavigateAppend(DerefOps(isPointer) + PlusOps(fwd), [OpDerefTop], a, ctx);
    NavigateAppend(DerefOps(isPointer) + PlusOps(fwd) + [OpDerefTop], PlusOps(vo), a, ctx);
  }

  lemma NavigateDeref(c: bool, a: u64, ctx: Context)
    ensures Navigate(DerefOps(c), a, ctx) == Some(if c then ctx.mem(a) else a)
  {
    if c {
      assert DerefOps(c)[1..] == [];
    }
  }

  lemma NavigatePlus(k: nat, a: u64, ctx: Context)
    ensures Navigate(PlusOps(k), a, ctx) == Some(ToU64(a + k))
  {
    if k > 0 {
      assert PlusOps(k)[1..] == [];
    }
  }

  /** For a variable in memory, a block that decodes as addBlockByrefAddress's
      does (see its postcondition) follows the struct (or the pointer to it),
      adds the forwarding offset, loads __forwarding and adds the variable's
      offset. */
  lemma ByrefLocates(b: Die, n: nat, off: int, isPointer: bool, fwd: u32, vo: u32, ctx: Context)
    requires ParseOps(b) == Some([OpBreg(n, off)] + ByrefNavigationOps(isPointer, fwd, vo))
    ensures Locate(b, ctx) == Some(AtAddress(ByrefAddress(isPointer, fwd, vo, ToU64(ctx.regs(n) + off), ctx.mem)))
  {
    var start := ToU64(ctx.regs(n) + off);
    assert StartAddress(OpBreg(n, off), ctx) == start;
    NavigateByref(isPointer, fwd, vo, start, ctx);
    LocateFrom(b, OpBreg(n, off), ByrefNavigationOps(isPointer, fwd, vo), ctx);
  }

  /** A byref block with a register-relative base locates the byref address. */
  lemma ByrefBlockLocates(b: Die, loc: MachineLocation, dwarfRegNum: i32, isPointer: bool, fwd: u32, vo: u32, ctx: Context)
    requires ParseOps(b) == Some(
      (if loc.isReg then [OpReg(ToU32(dwarfRegNum))] else [OpBreg(ToU32(dwarfRegNum), loc.offset as int)])
      + ByrefNavigationOps(isPointer, fwd, vo))
    ensures !loc.isReg ==>
              Locate(b, ctx) ==
              Some(AtAddress(ByrefAddress(isPointer, fwd, vo, ToU64(ctx.regs(ToU32(dwarfRegNum)) + loc.offset as int), ctx.mem)))
  {
    if !loc.isReg {
      ByrefLocates(b, ToU32(dwarfRegNum), loc.offset as int, isPointer, fwd, vo, ctx);
    }
  }

  /** For a variable in memory, the byref expression follows the struct (or
      the pointer to it), adds the forwarding offset, loads __forwarding and
      adds the variable's offset. */
  lemma ByrefNavigates(loc: MachineLocation, dwarfRegNum: i32, typeTag: nat,
                       fields: seq<Field>, varName: string, ctx: Context)
    requires !loc.isReg
    ensures Locate(AddBlockByrefAddress(loc, dwarfRegNum, typeTag, fields, varName), ctx) ==
      Some(AtAddress(ByrefAddress(typeTag == DW_TAG_pointer_type,
        FieldByteOffset(ByrefFields(fields, varName).0), FieldByteOffset(ByrefFields(fields, varName).1),
        ToU64(ctx.regs(ToU32(dwarfRegNum)) + loc.offset as int), ctx.mem)))
  {
    ByrefBlockLocates(AddBlockByrefAddress(loc, dwarfRegNum, typeTag, fields, varName), loc, dwarfRegNum,
      typeTag == DW_TAG_pointer_type,
      FieldByteOffset(ByrefFields(fields, varName).0), FieldByteOffset(ByrefFields(fields, varName).1), ctx);
  }
}
