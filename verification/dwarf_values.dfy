/*
 * Attribute values of a DWARF debugging information entry (DIE) and the
 * CompileUnit helpers that append them: addUInt, addSInt and addSourceLine.
 *
 * A DIE, and equally a DIEBlock holding a location expression, is modelled as
 * the sequence of (attribute, form, value) entries added to it, in order.
 * Entries of a block carry attribute 0, as in the source.
 */
module DwarfValues {

  const TWO_32: int := 0x1_0000_0000
  const TWO_63: int := 0x8000_0000_0000_0000
  const TWO_64: int := 0x1_0000_0000_0000_0000

  /** uint64_t, unsigned (32 bit), int64_t and int (32 bit) of the host compiler. */
  type u64 = x: int | 0 <= x < 0x1_0000_0000_0000_0000
  type u32 = x: int | 0 <= x < 0x1_0000_0000
  type i64 = x: int | -0x8000_0000_0000_0000 <= x < 0x8000_0000_0000_0000
  type i32 = x: int | -0x8000_0000 <= x < 0x8000_0000

  // Attribute forms (DWARF Version 3, section 7.5.4).
  const DW_FORM_data2: nat := 0x05
  const DW_FORM_data4: nat := 0x06
  const DW_FORM_data8: nat := 0x07
  const DW_FORM_data1: nat := 0x0b
  const DW_FORM_sdata: nat := 0x0d
  const DW_FORM_udata: nat := 0x0f
  const DW_FORM_ref4: nat := 0x13

  // Attribute names (DWARF Version 3, section 7.5.4).
  const DW_AT_byte_size: nat := 0x0b
  const DW_AT_bit_offset: nat := 0x0c
  const DW_AT_bit_size: nat := 0x0d
  const DW_AT_const_value: nat := 0x1c
  const DW_AT_lower_bound: nat := 0x22
  const DW_AT_upper_bound: nat := 0x2f
  const DW_AT_decl_file: nat := 0x3a
  const DW_AT_decl_line: nat := 0x3b
  const DW_AT_type: nat := 0x49

  /** Two's-complement conversions between the signed and unsigned 64-bit views. */
  function ToU64(x: int): (r: u64)
    ensures 0 <= x < TWO_64 ==> r == x
  {
    x % TWO_64
  }

  function ToS64(u: u64): (r: i64)
    ensures ToU64(r) == u
  {
    if u < TWO_63 then u else u - TWO_64
  }

  /** The unsigned conversion of a 32-bit signed value (int to unsigned). */
  function ToU32(x: i32): (r: u32)
    ensures 0 <= x ==> r == x
    ensures x < 0 ==> r == x + TWO_32
  {
    x % TWO_32
  }

  lemma SignedRoundTrip(x: i64)
    ensures ToS64(ToU64(x)) == x
  {
  }

  /** The value of a DIE entry: a DIEInteger, the unit's shared DIEInteger of
      value 1 (DIEIntegerOne), a DIEEntry referring to another DIE, or a
      DIEBlock of entries of its own. */
  datatype DieValue = Integer(bits: u64) | IntegerOne | Entry(die: nat) | Block(entries: seq<Attr>)

  predicate IsInteger(v: DieValue) {
    v.Integer? || v.IntegerOne?
  }

  /** The number an integer value stands for; 0 for the other kinds. */
  function Bits(v: DieValue): u64 {
    match v
    case Integer(b) => b
    case IntegerOne => 1
    case _ => 0
  }

  datatype Attr = Attr(attribute: nat, form: nat, value: DieValue)

  type Die = seq<Attr>

  const DataForms: set<nat> := {DW_FORM_data1, DW_FORM_data2, DW_FORM_data4, DW_FORM_data8}

  function FormBytes(form: nat): nat {
    if form == DW_FORM_data1 then 1
    else if form == DW_FORM_data2 then 2
    else if form == DW_FORM_data4 then 4
    else 8
  }

  /** Whether a constant form of the given width holds the value, read as
      unsigned or as signed. */
  predicate FitsForm(isSigned: bool, v: u64, form: nat) {
    var n := FormBytes(form);
    var half := if n == 1 then 0x80 else if n == 2 then 0x8000
                else if n == 4 then 0x8000_0000 else TWO_63;
    if isSigned then -half <= ToS64(v) < half else v < 2 * half
  }

  /** DIEInteger::BestForm: the smallest constant data form that holds the value. */
  function BestForm(isSigned: bool, v: u64): (form: nat)
    ensures form in DataForms
    ensures FitsForm(isSigned, v, form)
    ensures forall f | f in DataForms && FormBytes(f) < FormBytes(form) :: !FitsForm(isSigned, v, f)
  {
    if FitsForm(isSigned, v, DW_FORM_data1) then DW_FORM_data1
    else if FitsForm(isSigned, v, DW_FORM_data2) then DW_FORM_data2
    else if FitsForm(isSigned, v, DW_FORM_data4) then DW_FORM_data4
    else DW_FORM_data8
  }

  /** addUInt: append an unsigned integer; form 0 asks for the best form, and
      the value 1 reuses the unit's shared DIEIntegerOne. */
  function AddUInt(die: Die, attribute: nat, form: nat, integer: u64): (r: Die)
    ensures |r| == |die| + 1 && r[..|die|] == die
    ensures r[|die|].attribute == attribute
    ensures form != 0 ==> r[|die|].form == form
    ensures form == 0 ==> r[|die|].form == BestForm(false, integer)
    ensures Bits(r[|die|].value) == integer
    ensures IsInteger(r[|die|].value)
    ensures r[|die|].value.IntegerOne? <==> integer == 1
  {
    var f := if form == 0 then BestForm(false, integer) else form;
    var value := if integer == 1 then IntegerOne else Integer(integer);
    die + [Attr(attribute, f, value)]
  }

  /** addSInt: append a signed integer, stored as its 64-bit two's complement;
      it never uses the shared value. */
  function AddSInt(die: Die, attribute: nat, form: nat, integer: i64): (r: Die)
    ensures |r| == |die| + 1 && r[..|die|] == die
    ensures r[|die|].attribute == attribute
    ensures form != 0 ==> r[|die|].form == form
    ensures form == 0 ==> r[|die|].form == BestForm(true, ToU64(integer))
    ensures r[|die|].value.Integer?
    ensures ToS64(Bits(r[|die|].value)) == integer
  {
    var f := if form == 0 then BestForm(true, ToU64(integer)) else form;
    SignedRoundTrip(integer);
    die + [Attr(attribute, f, Integer(ToU64(integer)))]
  }

  /** The kinds of descriptor addSourceLine is overloaded for. */
  datatype SourceEntity = Variable | GlobalVariable | Subprogram | TypeEntity | NameSpace

  /** Subprograms and types also give up when their context does not verify. */
  predicate ChecksContext(kind: SourceEntity) {
    kind == Subprogram || kind == TypeEntity
  }

  predicate HasSourceLine(kind: SourceEntity, verified: bool, line: u32, contextVerified: bool) {
    verified && line != 0 && (ChecksContext(kind) ==> contextVerified)
  }

  /** addSourceLine: decl_file and decl_line, or nothing for an unverified
      descriptor or line 0. The file id is what DwarfDebug's
      GetOrCreateSourceID returns for the descriptor's file. */
  function AddSourceLine(die: Die, kind: SourceEntity, verified: bool, line: u32,
                         contextVerified: bool, fileId: u32): (r: Die)
    requires HasSourceLine(kind, verified, line, contextVerified) ==> fileId != 0
    ensures !HasSourceLine(kind, verified, line, contextVerified) ==> r == die
    ensures HasSourceLine(kind, verified, line, contextVerified) ==>
      && |r| == |die| + 2 && r[..|die|] == die
      && r[|die|].attribute == DW_AT_decl_file && Bits(r[|die|].value) == fileId
      && r[|die| + 1].attribute == DW_AT_decl_line && Bits(r[|die| + 1].value) == line
      && r[|die|].form in DataForms && r[|die| + 1].form in DataForms
  {
    if !verified then die
    else if line == 0 then die
    else if ChecksContext(kind) && !contextVerified then die
    else AddUInt(AddUInt(die, DW_AT_decl_file, 0, fileId), DW_AT_decl_line, 0, line)
  }

  /** addSourceLine never adds a line attribute whose value is 0. */
  lemma SourceLineNeverZero(die: Die, kind: SourceEntity, verified: bool, line: u32,
                            contextVerified: bool, fileId: u32)
    requires HasSourceLine(kind, verified, line, contextVerified) ==> fileId != 0
    ensures forall k | |die| <= k < |AddSourceLine(die, kind, verified, line, contextVerified, fileId)| ::
      Bits(AddSourceLine(die, kind, verified, line, contextVerified, fileId)[k].value) != 0
  {
  }
}
