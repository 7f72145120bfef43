/*
 * Entries CompileUnit builds for types and constants: constructSubrangeDIE,
 * the integer case of addConstantValue, and the layout part of
 * createMemberDIE (byte size, bit size, bit offset and the member location).
 */
module DwarfTypes {
  import opened Optional
  import opened DwarfValues
  import opened DwarfLocations

  const DW_TAG_subrange_type: nat := 0x21

  function Pow2(k: nat): (r: nat)
    ensures r >= 1
  {
    if k == 0 then 1 else 2 * Pow2(k - 1)
  }

  lemma {:induction false} Pow2Monotone(a: nat, b: nat)
    requires a <= b
    ensures Pow2(a) <= Pow2(b)
    decreases b
  {
    if a < b {
      Pow2Monotone(a, b - 1);
    }
  }

  lemma {:induction false} Pow2Add(a: nat, b: nat)
    ensures Pow2(a + b) == Pow2(a) * Pow2(b)
    decreases a
  {
    if a > 0 {
      Pow2Add(a - 1, b);
      var p, q := Pow2(a - 1), Pow2(b);
      assert Pow2(a + b) == 2 * (p * q);
      assert 2 * (p * q) == (2 * p) * q;
    }
  }

  lemma Pow2At64()
    ensures Pow2(64) == TWO_64
  {
    assert Pow2(8) == 256;
    Pow2Add(8, 8);
    assert Pow2(16) == 0x1_0000;
    Pow2Add(16, 16);
    assert Pow2(32) == 0x1_0000_0000;
    Pow2Add(32, 32);
  }

  /** Splitting a remainder by a product of divisors. */
  lemma ModSplit(v: nat, d: nat, p: nat)
    requires d > 0 && p > 0
    ensures v % (d * p) == v % d + d * ((v / d) % p)
  {
    var q := v / d;
    var r := v % d;
    var r2 := q % p;
    assert v == (d * p) * (q / p) + (d * r2 + r) by {
      assert q == p * (q / p) + r2;
      assert v == d * q + r;
      assert d * q == d * (p * (q / p)) + d * r2;
      assert d * (p * (q / p)) == (d * p) * (q / p);
    }
    assert 0 <= d * r2 + r < d * p by {
      assert r2 <= p - 1;
      assert d * r2 <= d * (p - 1);
    }
    ModUnique(v, d * p, q / p, d * r2 + r);
  }

  lemma ModUnique(v: int, d: int, q: int, r: int)
    requires d > 0 && v == d * q + r && 0 <= r < d
    ensures v % d == r && v / d == q
  {
    var k := q - v / d;
    assert d * k == v % d - r;
  }

  // ---------------------------------------------------------------------------
  // Looking attributes up
  // ---------------------------------------------------------------------------

  /** The value a DIE holds for an attribute: the earliest entry naming it. */
  function Find(die: Die, attribute: nat): Option<DieValue>
    decreases |die|
  {
    if |die| == 0 then None
    else match Find(die[..|die| - 1], attribute)
      case Some(v) => Some(v)
      case None =>
        if die[|die| - 1].attribute == attribute then Some(die[|die| - 1].value) else None
  }

  /** An attribute that is absent reads as missing; one added after it is found. */
  lemma FindAppend(die: Die, e: Attr, attribute: nat)
    ensures Find(die + [e], attribute) ==
      if Find(die, attribute).Some? then Find(die, attribute)
      else if e.attribute == attribute then Some(e.value)
      else None
  {
    assert (die + [e])[..|die|] == die;
  }

  // ---------------------------------------------------------------------------
  // Subranges
  // ---------------------------------------------------------------------------

  /** constructSubrangeDIE: the attributes of the DW_TAG_subrange_type child.
      It refers to the index type, and carries the bounds unless L > H; the
      lower bound is left out when it is 0. */
  function ConstructSubrangeDIE(lo: i64, hi: i64, indexTy: nat): (r: Die)
    ensures |r| >= 1 && r[0] == Attr(DW_AT_type, DW_FORM_ref4, Entry(indexTy))
    ensures Find(r, DW_AT_lower_bound).Some? <==> lo <= hi && lo != 0
    ensures Find(r, DW_AT_upper_bound).Some? <==> lo <= hi
    ensures |r| == 1 + (if lo <= hi then 1 else 0) + (if lo <= hi && lo != 0 then 1 else 0)
    ensures forall k | 1 <= k < |r| :: r[k].form == BestForm(true, Bits(r[k].value))
  {
    var die := [Attr(DW_AT_type, DW_FORM_ref4, Entry(indexTy))];
    if lo > hi then die
    else
      var withLower := if lo != 0 then AddSInt(die, DW_AT_lower_bound, 0, lo) else die;
      FindAppend(die, Attr(DW_AT_lower_bound, BestForm(true, ToU64(lo)), Integer(ToU64(lo))), DW_AT_lower_bound);
      FindAppend(die, Attr(DW_AT_lower_bound, BestForm(true, ToU64(lo)), Integer(ToU64(lo))), DW_AT_upper_bound);
      var r := AddSInt(withLower, DW_AT_upper_bound, 0, hi);
      FindAppend(withLower, r[|withLower|], DW_AT_lower_bound);
      FindAppend(withLower, r[|withLower|], DW_AT_upper_bound);
      r
  }

  /** How a consumer reads the bounds of a subrange: without an upper bound
      there are none, and a missing lower bound is the language's default
      (section 5.11 of the DWARF Version 3 standard: 0 for the C family, 1
      for Fortran, Ada and Pascal). */
  function ReadBounds(die: Die, defaultLower: int): Option<(int, int)> {
    match Find(die, DW_AT_upper_bound)
    case None => None
    case Some(u) =>
      var lower := match Find(die, DW_AT_lower_bound)
        case None => defaultLower
        case Some(l) => ToS64(Bits(l)) as int;
      Some((lower, ToS64(Bits(u)) as int))
  }

  lemma SubrangeFinds(lo: i64, hi: i64, indexTy: nat)
    requires lo <= hi
    ensures Find(ConstructSubrangeDIE(lo, hi, indexTy), DW_AT_upper_bound) == Some(Integer(ToU64(hi)))
    ensures lo != 0 ==> Find(ConstructSubrangeDIE(lo, hi, indexTy), DW_AT_lower_bound) == Some(Integer(ToU64(lo)))
  {
    var die := [Attr(DW_AT_type, DW_FORM_ref4, Entry(indexTy))];
    var lower := Attr(DW_AT_lower_bound, BestForm(true, ToU64(lo)), Integer(ToU64(lo)));
    var upper := Attr(DW_AT_upper_bound, BestForm(true, ToU64(hi)), Integer(ToU64(hi)));
    assert Find(die, DW_AT_upper_bound) == None && Find(die, DW_AT_lower_bound) == None by {
      assert die[..0] == [];
    }
    if lo != 0 {
      FindAppend(die, lower, DW_AT_upper_bound);
      FindAppend(die, lower, DW_AT_lower_bound);
      FindAppend(die + [lower], upper, DW_AT_upper_bound);
      FindAppend(die + [lower], upper, DW_AT_lower_bound);
      assert ConstructSubrangeDIE(lo, hi, indexTy) == die + [lower] + [upper];
    } else {
      FindAppend(die, upper, DW_AT_upper_bound);
      assert ConstructSubrangeDIE(lo, hi, indexTy) == die + [upper];
    }
  }

  /** For C-family code (default lower bound 0) the subrange reads back as the
      bounds it was built from, and as no bounds when L > H. */
  lemma SubrangeRoundTrip(lo: i64, hi: i64, indexTy: nat)
    ensures ReadBounds(ConstructSubrangeDIE(lo, hi, indexTy), 0) ==
      if lo > hi then None else Some((lo as int, hi as int))
  {
    if lo <= hi {
      SubrangeFinds(lo, hi, indexTy);
      SignedRoundTrip(lo);
      SignedRoundTrip(hi);
    }
  }

  /** In a unit whose language's default lower bound is 1, a zero-based
      array reads back as starting at 1: the lower bound 0 is dropped. */
  lemma SubrangeLosesZeroLowerBound()
    ensures ReadBounds(ConstructSubrangeDIE(0, 9, 0), 1) == Some((1, 9))
  {
    SubrangeFinds(0, 9, 0);
  }

  /** The subrange with the lower bound left out only when it equals the
      language's default. */
  function ConstructSubrangeDIEForLanguage(lo: i64, hi: i64, indexTy: nat, defaultLower: i64): (r: Die)
    ensures |r| >= 1 && r[0] == Attr(DW_AT_type, DW_FORM_ref4, Entry(indexTy))
    ensures Find(r, DW_AT_lower_bound).Some? <==> lo <= hi && lo != defaultLower
    ensures Find(r, DW_AT_upper_bound).Some? <==> lo <= hi
  {
    var die := [Attr(DW_AT_type, DW_FORM_ref4, Entry(indexTy))];
    assert die[..0] == [];
    if lo > hi then die
    else
      var withLower := if lo != defaultLower then AddSInt(die, DW_AT_lower_bound, 0, lo) else die;
      FindAppend(die, Attr(DW_AT_lower_bound, BestForm(true, ToU64(lo)), Integer(ToU64(lo))), DW_AT_lower_bound);
      FindAppend(die, Attr(DW_AT_lower_bound, BestForm(true, ToU64(lo)), Integer(ToU64(lo))), DW_AT_upper_bound);
      var r := AddSInt(withLower, DW_AT_upper_bound, 0, hi);
      FindAppend(withLower, r[|withLower|], DW_AT_lower_bound);
      FindAppend(withLower, r[|withLower|], DW_AT_upper_bound);
      r
  }

  /** Whatever the language, the corrected subrange reads back as its bounds. */
  lemma SubrangeForLanguageRoundTrip(lo: i64, hi: i64, indexTy: nat, defaultLower: i64)
    ensures ReadBounds(ConstructSubrangeDIEForLanguage(lo, hi, indexTy, defaultLower), defaultLower) ==
      if lo > hi then None else Some((lo as int, hi as int))
  {
    if lo <= hi {
      var die := [Attr(DW_AT_type, DW_FORM_ref4, Entry(indexTy))];
      var lower := Attr(DW_AT_lower_bound, BestForm(true, ToU64(lo)), Integer(ToU64(lo)));
      var upper := Attr(DW_AT_upper_bound, BestForm(true, ToU64(hi)), Integer(ToU64(hi)));
      assert Find(die, DW_AT_upper_bound) == None && Find(die, DW_AT_lower_bound) == None by {
        assert die[..0] == [];
      }
      SignedRoundTrip(lo);
      SignedRoundTrip(hi);
      if lo != defaultLower {
        FindAppend(die, lower, DW_AT_upper_bound);
        FindAppend(die, lower, DW_AT_lower_bound);
        FindAppend(die + [lower], upper, DW_AT_upper_bound);
        FindAppend(die + [lower], upper, DW_AT_lower_bound);
        assert ConstructSubrangeDIEForLanguage(lo, hi, indexTy, defaultLower) == die + [lower] + [upper];
      } else {
        FindAppend(die, upper, DW_AT_upper_bound);
        FindAppend(die, upper, DW_AT_lower_bound);
        assert ConstructSubrangeDIEForLanguage(lo, hi, indexTy, defaultLower) == die + [upper];
      }
    }
  }

  // ---------------------------------------------------------------------------
  // Constant values
  // ---------------------------------------------------------------------------

  const DW_FORM_block1: nat := 0x0a

  function Pow256(n: nat): (r: nat)
    ensures r >= 1
  {
    if n == 0 then 1 else 256 * Pow256(n - 1)
  }

  lemma {:induction false} Pow256IsPow2(n: nat)
    ensures Pow256(n) == Pow2(8 * n)
  {
    if n > 0 {
      Pow256IsPow2(n - 1);
      Pow2Add(8, 8 * (n - 1));
      assert Pow2(8) == 256;
    }
  }

  /** The first n bytes of a number's memory image on a little-endian host
      (least significant first): what getRawData's bytes are read as. */
  function LEBytes(v: nat, n: nat): (r: seq<nat>)
    ensures |r| == n
    ensures forall i :: 0 <= i < n ==> r[i] < 256
  {
    if n == 0 then [] else [v % 256] + LEBytes(v / 256, n - 1)
  }

  /** The number a sequence of bytes stands for, least significant first. */
  function DecodeLE(bytes: seq<nat>): nat {
    if |bytes| == 0 then 0 else bytes[0] + 256 * DecodeLE(bytes[1..])
  }

  function Reverse(s: seq<nat>): (r: seq<nat>)
    ensures |r| == |s|
  {
    seq(|s|, i requires 0 <= i < |s| => s[|s| - 1 - i])
  }

  /** Reading back n bytes keeps the number modulo 256^n. */
  lemma {:induction false} DecodeLEBytes(v: nat, n: nat)
    ensures DecodeLE(LEBytes(v, n)) == v % Pow256(n)
  {
    if n > 0 {
      var bytes := LEBytes(v, n);
      assert bytes[1..] == LEBytes(v / 256, n - 1);
      DecodeLEBytes(v / 256, n - 1);
      ModSplit(v, 256, Pow256(n - 1));
    }
  }

  /** The byte loop of addConstantValue and addConstantFPValue: addUInt of
      Ptr[Start] in data1 form, for Start stepping by Incr (1 or -1) until it
      reaches Stop. */
  function ByteLoop(block: Die, ptr: seq<nat>, start: int, stop: int, incr: int): (r: Die)
    requires incr == 1 || incr == -1
    requires forall i :: 0 <= i < |ptr| ==> ptr[i] < 256
    requires incr == 1 ==> 0 <= start <= stop <= |ptr|
    requires incr == -1 ==> -1 <= stop <= start < |ptr|
    ensures |r| == |block| + (if incr == 1 then stop - start else start - stop)
    ensures r[..|block|] == block
    ensures forall k | |block| <= k < |r| ::
      && r[k].attribute == 0 && r[k].form == DW_FORM_data1 && IsInteger(r[k].value)
      && Bits(r[k].value) == ptr[if incr == 1 then start + (k - |block|) else start - (k - |block|)]
    decreases if incr == 1 then stop - start else start - stop
  {
    if start == stop then block
    else
      var next := AddUInt(block, 0, DW_FORM_data1, ptr[start]);
      var r := ByteLoop(next, ptr, start + incr, stop, incr);
      assert r[..|block|] == next[..|block|];
      r
  }

  /** The numbers a block of integer entries holds, in order. */
  function BlockBytes(block: Die): (r: seq<nat>)
    ensures |r| == |block|
  {
    seq(|block|, k requires 0 <= k < |block| => Bits(block[k].value) as nat)
  }

  /** How a consumer reads a constant block: in the target's byte order. */
  function ReadConstantBlock(block: Die, littleEndian: bool): nat {
    var bytes := BlockBytes(block);
    DecodeLE(if littleEndian then bytes else Reverse(bytes))
  }

  /** The block of numBytes bytes the loop emits for a number, least
      significant byte first on a little-endian target and last otherwise. */
  function ConstantBytes(raw: nat, numBytes: nat, littleEndian: bool): (r: Die)
    ensures |r| == numBytes
  {
    var ptr := LEBytes(raw, numBytes);
    if littleEndian then ByteLoop([], ptr, 0, numBytes, 1)
    else ByteLoop([], ptr, numBytes - 1, -1, -1)
  }

  /** The block reads back, in the target's byte order, as the number modulo
      256^numBytes. */
  lemma ConstantBytesRead(raw: nat, numBytes: nat, littleEndian: bool)
    ensures ReadConstantBlock(ConstantBytes(raw, numBytes, littleEndian), littleEndian) == raw % Pow256(numBytes)
  {
    var block := ConstantBytes(raw, numBytes, littleEndian);
    var bytes := BlockBytes(block);
    var ordered := if littleEndian then bytes else Reverse(bytes);
    assert ordered == LEBytes(raw, numBytes) by {
      forall i | 0 <= i < numBytes
        ensures ordered[i] == LEBytes(raw, numBytes)[i]
      {
        if !littleEndian {
          assert ordered[i] == bytes[numBytes - 1 - i];
        }
      }
    }
    DecodeLEBytes(raw, numBytes);
  }

  /** An IR integer constant: its bit width (at least 1) and its bits, as an
      unsigned number below 2^width. */
  datatype ConstantInt = ConstantInt(width: nat, bits: nat)

  predicate ValidConstant(c: ConstantInt) {
    c.width >= 1 && c.bits < Pow2(c.width)
  }

  lemma NarrowBounds(w: nat)
    requires 1 <= w <= 64
    ensures Pow2(w) <= TWO_64 && 2 * Pow2(w - 1) == Pow2(w) && Pow2(w - 1) <= TWO_63
  {
    Pow2At64();
    Pow2Monotone(w, 64);
    Pow2Monotone(w - 1, 63);
  }

  /** getZExtValue of a constant at most 64 bits wide. */
  function ZExtValue(c: ConstantInt): (r: u64)
    requires ValidConstant(c) && c.width <= 64
    ensures r == c.bits
  {
    NarrowBounds(c.width);
    c.bits
  }

  /** getSExtValue: the bits read as a two's-complement number of the
      constant's width. */
  function SExtValue(c: ConstantInt): (r: i64)
    requires ValidConstant(c) && c.width <= 64
    ensures -(Pow2(c.width - 1) as int) <= r < Pow2(c.width - 1)
    ensures r % Pow2(c.width) == c.bits
  {
    NarrowBounds(c.width);
    var full := Pow2(c.width);
    var half := Pow2(c.width - 1);
    if c.bits >= half then
      ModUnique(c.bits - full, full, -1, c.bits);
      c.bits - full
    else
      ModUnique(c.bits, full, 0, c.bits);
      c.bits
  }

  /** addConstantValue(ConstantInt): up to 64 bits the constant is one udata
      or sdata attribute; a wider one is a block of BitWidth/8 bytes in the
      target's byte order. */
  function AddConstantValue(die: Die, c: ConstantInt, isUnsigned: bool, littleEndian: bool): (r: Die)
    requires ValidConstant(c)
    ensures |r| == |die| + 1 && r[..|die|] == die
    ensures r[|die|].attribute == DW_AT_const_value
    ensures c.width <= 64 && isUnsigned ==>
      r[|die|].form == DW_FORM_udata && Bits(r[|die|].value) == c.bits
    ensures c.width <= 64 && !isUnsigned ==>
      r[|die|].form == DW_FORM_sdata && r[|die|].value.Integer? && ToS64(Bits(r[|die|].value)) == SExtValue(c)
    ensures c.width > 64 ==> r[|die|].value.Block? && |r[|die|].value.entries| == c.width / 8
  {
    if c.width <= 64 then
      if isUnsigned then AddUInt(die, DW_AT_const_value, DW_FORM_udata, ZExtValue(c))
      else AddSInt(die, DW_AT_const_value, DW_FORM_sdata, SExtValue(c))
    else
      var numBytes := c.width / 8;
      die + [Attr(DW_AT_const_value, 0, Block(ConstantBytes(c.bits, numBytes, littleEndian)))]
  }

  /** How a consumer reads a constant attribute back, cut to the constant's
      width: an sdata value sign-extended, a block in the target's byte order,
      any other integer as it stands. */
  function ReadConstantValue(a: Attr, width: nat, littleEndian: bool): nat {
    match a.value
    case Block(entries) => ReadConstantBlock(entries, littleEndian) % Pow2(width)
    case _ =>
      if a.form == DW_FORM_sdata then ToS64(Bits(a.value)) as int % Pow2(width)
      else Bits(a.value) as int % Pow2(width)
  }

  /** A constant at most 64 bits wide, or one whose width is a whole number of
      bytes, reads back as itself. */
  lemma ConstantValueRoundTrip(die: Die, c: ConstantInt, isUnsigned: bool, littleEndian: bool)
    requires ValidConstant(c) && (c.width <= 64 || c.width % 8 == 0)
    ensures ReadConstantValue(AddConstantValue(die, c, isUnsigned, littleEndian)[|die|], c.width, littleEndian) == c.bits
  {
    var a := AddConstantValue(die, c, isUnsigned, littleEndian)[|die|];
    if c.width <= 64 {
      ModUnique(c.bits, Pow2(c.width), 0, c.bits);
    } else {
      var numBytes := c.width / 8;
      ConstantBytesRead(c.bits, numBytes, littleEndian);
      Pow256IsPow2(numBytes);
      assert 8 * numBytes == c.width;
      ModUnique(c.bits, Pow256(numBytes), 0, c.bits);
    }
  }

  /** A 65-bit constant 2^64 is emitted as 8 zero bytes: its top bit is lost. */
  lemma WideConstantTruncated(die: Die)
    ensures ValidConstant(ConstantInt(65, TWO_64))
    ensures ReadConstantValue(AddConstantValue(die, ConstantInt(65, TWO_64), true, true)[|die|], 65, true) == 0
  {
    Pow2At64();
    assert Pow2(65) == 2 * Pow2(64);
    var c := ConstantInt(65, TWO_64);
    assert c.width / 8 == 8;
    ConstantBytesRead(c.bits, 8, true);
    Pow256IsPow2(8);
    ModUnique(c.bits, Pow256(8), 1, 0);
  }

  /** addConstantValue with the byte count rounded up, (BitWidth + 7) / 8, so
      that no bit of a wide constant is dropped. */
  function AddConstantValueWhole(die: Die, c: ConstantInt, isUnsigned: bool, littleEndian: bool): (r: Die)
    requires ValidConstant(c)
    ensures |r| == |die| + 1 && r[..|die|] == die
    ensures r[|die|].attribute == DW_AT_const_value
    ensures c.width > 64 ==> r[|die|].value.Block? && |r[|die|].value.entries| == (c.width + 7) / 8
  {
    if c.width <= 64 then AddConstantValue(die, c, isUnsigned, littleEndian)
    else
      var numBytes := (c.width + 7) / 8;
      die + [Attr(DW_AT_const_value, 0, Block(ConstantBytes(c.bits, numBytes, littleEndian)))]
  }

  /** With the rounded-up byte count every valid constant reads back as itself. */
  lemma ConstantValueWholeRoundTrip(die: Die, c: ConstantInt, isUnsigned: bool, littleEndian: bool)
    requires ValidConstant(c)
    ensures ReadConstantValue(AddConstantValueWhole(die, c, isUnsigned, littleEndian)[|die|], c.width, littleEndian) == c.bits
  {
    if c.width <= 64 {
      ConstantValueRoundTrip(die, c, isUnsigned, littleEndian);
    } else {
      var numBytes := (c.width + 7) / 8;
      var block := ConstantBytes(c.bits, numBytes, littleEndian);
      assert AddConstantValueWhole(die, c, isUnsigned, littleEndian)[|die|].value == Block(block);
      ConstantBytesRead(c.bits, numBytes, littleEndian);
      Pow256IsPow2(numBytes);
      assert c.width <= 8 * numBytes;
      Pow2Monotone(c.width, 8 * numBytes);
      ModUnique(c.bits, Pow256(numBytes), 0, c.bits);
      ModUnique(c.bits, Pow2(c.width), 0, c.bits);
    }
  }

  /** addConstantFPValue: the raw bits of a floating-point immediate of the
      given width as a block of width/8 bytes in the target's byte order. */
  function AddConstantFPValue(die: Die, width: nat, raw: nat, littleEndian: bool): (r: Die)
    ensures |r| == |die| + 1 && r[..|die|] == die
    ensures r[|die|].attribute == DW_AT_const_value
    ensures r[|die|].value.Block? && |r[|die|].value.entries| == width / 8
  {
    die + [Attr(DW_AT_const_value, 0, Block(ConstantBytes(raw, width / 8, littleEndian)))]
  }

  /** Floating-point formats are whole bytes wide, so the raw bits read back. */
  lemma ConstantFPRoundTrip(die: Die, width: nat, raw: nat, littleEndian: bool)
    requires raw < Pow2(width) && width % 8 == 0
    ensures ReadConstantBlock(AddConstantFPValue(die, width, raw, littleEndian)[|die|].value.entries, littleEndian) == raw
  {
    var numBytes := width / 8;
    assert 8 * numBytes == width;
    ConstantBytesRead(raw, numBytes, littleEndian);
    Pow256IsPow2(numBytes);
    ModUnique(raw, Pow256(numBytes), 0, raw);
  }

  /** addConstantValue(MachineOperand): the immediate, converted to a 32-bit
      unsigned, as the one udata entry of a block. */
  function AddConstantImm(die: Die, imm: i64): (r: Die)
    ensures |r| == |die| + 1 && r[..|die|] == die
    ensures r[|die|].attribute == DW_AT_const_value && r[|die|].value.Block?
    ensures |r[|die|].value.entries| == 1 && r[|die|].value.entries[0].form == DW_FORM_udata
    ensures Bits(r[|die|].value.entries[0].value) == imm % TWO_32
  {
    var imm32: u64 := imm % TWO_32;
    die + [Attr(DW_AT_const_value, 0, Block(AddUInt([], 0, DW_FORM_udata, imm32)))]
  }

  /** The immediate survives exactly when it is a 32-bit unsigned number. */
  lemma ConstantImmExact(die: Die, imm: i64)
    ensures Bits(AddConstantImm(die, imm)[|die|].value.entries[0].value) == imm <==> 0 <= imm < TWO_32
  {
  }

  // ---------------------------------------------------------------------------
  // Member layout
  // ---------------------------------------------------------------------------

  /** Bitwise and of two naturals. */
  function And(a: nat, b: nat): (r: nat)
    ensures r <= a && r <= b
    decreases a
  {
    if a == 0 || b == 0 then 0
    else 2 * And(a / 2, b / 2) + (if a % 2 == 1 && b % 2 == 1 then 1 else 0)
  }

  /** Masking with all ones keeps a number. */
  lemma {:induction false} AndOnes(x: nat, n: nat)
    requires x < Pow2(n)
    ensures And(x, Pow2(n) - 1) == x
  {
    if n > 0 && x > 0 {
      AndOnes(x / 2, n - 1);
      assert (Pow2(n) - 1) / 2 == Pow2(n - 1) - 1;
    }
  }

  /** The number whose bits k..n-1 are set and all others clear. */
  function HighMask(n: nat, k: nat): nat
    requires k <= n
  {
    Pow2Monotone(k, n);
    Pow2(n) - Pow2(k)
  }

  /** The mask of bits k..n-1 is even, and halving it gives the mask of bits
      k-1..n-2. */
  lemma MaskHalves(n: nat, k: nat)
    requires 0 < k < n
    ensures HighMask(n, k) > 0
    ensures HighMask(n, k) % 2 == 0
    ensures HighMask(n, k) / 2 == HighMask(n - 1, k - 1)
  {
    Pow2Monotone(k, n - 1);
    ModUnique(HighMask(n, k), 2, HighMask(n - 1, k - 1), 0);
  }

  /** Masking with an even mask drops the lowest bit and shifts. */
  lemma AndEvenMask(x: nat, mask: nat)
    requires x > 0 && mask > 0 && mask % 2 == 0
    ensures And(x, mask) == 2 * And(x / 2, mask / 2)
  {
  }

  /** Rounding down to a multiple of 2p is rounding half the number down to
      a multiple of p, doubled. */
  lemma RoundDownHalf(x: nat, p: nat, twoP: nat, doubled: nat, halfRounded: nat)
    requires p > 0 && twoP == 2 * p
    requires doubled == 2 * halfRounded && halfRounded == x / 2 - (x / 2) % p
    ensures doubled == x - x % twoP
  {
    ModSplit(x, 2, p);
  }

  /** Masking off the low k bits of an n-bit number rounds it down to a
      multiple of 2^k. */
  lemma {:induction false} AndHighBits(x: nat, n: nat, k: nat)
    requires k <= n && x < Pow2(n)
    ensures And(x, HighMask(n, k)) == x - x % Pow2(k)
    decreases k, 1
  {
    if k == 0 {
      AndOnes(x, n);
    } else if k == n {
      ModUnique(x, Pow2(n), 0, x);
    } else if x == 0 {
      ModUnique(0, Pow2(k), 0, 0);
    } else {
      AndHighBitsStep(x, n, k);
    }
  }

  /** One bit of AndHighBits: the claim for x follows from the claim for x / 2. */
  lemma {:induction false} AndHighBitsStep(x: nat, n: nat, k: nat)
    requires 0 < k < n && 0 < x < Pow2(n)
    ensures And(x, HighMask(n, k)) == x - x % Pow2(k)
    decreases k, 0
  {
    var half := x / 2;
    AndHighBits(half, n - 1, k - 1);
    MaskHalves(n, k);
    AndEvenMask(x, HighMask(n, k));
    RoundDownHalf(x, Pow2(k - 1), Pow2(k), And(x, HighMask(n, k)), And(half, HighMask(n - 1, k - 1)));
  }

  /** Wrapping uint64_t arithmetic and complement. */
  function Add64(a: u64, b: u64): u64 { ToU64(a + b) }
  function Sub64(a: u64, b: u64): u64 { ToU64(a - b) }
  function Not64(x: u64): u64 { TWO_64 - 1 - x }

  /** The layout a DIDerivedType member descriptor gives createMemberDIE. */
  datatype Member = Member(sizeInBits: u64, originalTypeSize: u64, offsetInBits: u64, alignInBits: u64)

  predicate IsBitfield(m: Member) {
    m.sizeInBits != m.originalTypeSize
  }

  /** FieldOffset: the bit offset of the storage unit holding a bitfield, the
      FieldSize-wide unit ending at the last alignment boundary at or below
      Offset + FieldSize. */
  function ContainerOffset(m: Member): u64 {
    var alignMask := Not64(Sub64(m.alignInBits, 1));
    var hiMark := And(Add64(m.offsetInBits, m.originalTypeSize), alignMask);
    Sub64(hiMark, m.originalTypeSize)
  }

  /** DW_AT_bit_offset: the bits in front of the field inside its unit,
      counted from the most significant end, which on a little-endian target
      is the far end. */
  function BitOffset(m: Member, littleEndian: bool): u64 {
    var fromStart := Sub64(m.offsetInBits, ContainerOffset(m));
    if littleEndian then Sub64(m.originalTypeSize, Add64(fromStart, m.sizeInBits)) else fromStart
  }

  /** The layout attributes of a member entry and its data_member_location block. */
  datatype MemberLayout = MemberLayout(attributes: Die, location: Die)

  /** The byte offset the location block adds to the structure's address. */
  function MemberByteOffset(m: Member): u64 {
    if IsBitfield(m) then ContainerOffset(m) / 8 else m.offsetInBits / 8
  }

  /** createMemberDIE, layout part: a bitfield gets byte_size, bit_size and
      bit_offset and is located at its storage unit; any other member gets no
      layout attributes and is located at its own byte offset. */
  function CreateMemberLayout(m: Member, littleEndian: bool): (r: MemberLayout)
    ensures !IsBitfield(m) ==> r.attributes == []
    ensures IsBitfield(m) ==>
      && |r.attributes| == 3
      && r.attributes[0].attribute == DW_AT_byte_size && Bits(r.attributes[0].value) == m.originalTypeSize / 8
      && r.attributes[1].attribute == DW_AT_bit_size && Bits(r.attributes[1].value) == m.sizeInBits
      && r.attributes[2].attribute == DW_AT_bit_offset && Bits(r.attributes[2].value) == BitOffset(m, littleEndian)
    ensures ParseOps(r.location).Some? && ParseOps(r.location).value == [OpPlusUconst(MemberByteOffset(m))]
  {
    var location := NavEntries(OpPlusUconst(MemberByteOffset(m)));
    ParseSingle(location);
    if IsBitfield(m) then
      var withSize := AddUInt([], DW_AT_byte_size, 0, m.originalTypeSize / 8);
      var withBits := AddUInt(withSize, DW_AT_bit_size, 0, m.sizeInBits);
      MemberLayout(AddUInt(withBits, DW_AT_bit_offset, 0, BitOffset(m, littleEndian)), location)
    else MemberLayout([], location)
  }

  /** The location block takes the structure's address to the member's byte
      (for a bitfield, its storage unit's byte). */
  lemma MemberLocationMeaning(m: Member, littleEndian: bool, structAddress: u64, ctx: Context)
    ensures Navigate(ParseOps(CreateMemberLayout(m, littleEndian).location).value, structAddress, ctx)
      == Some(ToU64(structAddress + MemberByteOffset(m)))
  {
    NavigateCons(OpPlusUconst(MemberByteOffset(m)), [], structAddress, ctx);
  }

  /** With a power-of-two alignment 2^k the mask rounds down: the unit ends
      at Offset + FieldSize rounded down to a multiple of the alignment. */
  lemma ContainerOffsetAligned(m: Member, k: nat)
    requires k < 64 && m.alignInBits == Pow2(k)
    requires m.offsetInBits + m.originalTypeSize < TWO_64
    requires m.originalTypeSize <= (m.offsetInBits + m.originalTypeSize) - (m.offsetInBits + m.originalTypeSize) % m.alignInBits
    ensures ContainerOffset(m) + m.originalTypeSize
      == (m.offsetInBits + m.originalTypeSize) - (m.offsetInBits + m.originalTypeSize) % m.alignInBits
  {
    var end := m.offsetInBits + m.originalTypeSize;
    Pow2At64();
    Pow2Monotone(k, 64);
    assert Add64(m.offsetInBits, m.originalTypeSize) == end;
    assert Not64(Sub64(m.alignInBits, 1)) == HighMask(64, k);
    AndHighBits(end, 64, k);
    var hiMark := And(end, HighMask(64, k));
    assert ContainerOffset(m) == Sub64(hiMark, m.originalTypeSize);
  }

  /** The two endiannesses count the bits in front of a field from opposite
      ends of its unit: the two offsets and the field's size make up the unit
      (modulo 2^64, as the source computes in uint64_t). */
  lemma BitOffsetsOpposite(m: Member)
    ensures ToU64(BitOffset(m, true) + m.sizeInBits + BitOffset(m, false)) == m.originalTypeSize
  {
    WrapCancel(m.originalTypeSize, Sub64(m.offsetInBits, ContainerOffset(m)), m.sizeInBits);
  }

  /** Subtracting b + s from f and adding both back gives f, modulo 2^64. */
  lemma WrapCancel(f: u64, b: u64, s: u64)
    ensures ToU64(Sub64(f, Add64(b, s)) + s + b) == f
  {
    var t := Add64(b, s);
    var carry := if b + s >= TWO_64 then 1 else 0;
    ModUnique(b + s, TWO_64, carry, b + s - TWO_64 * carry);
    var borrow := if f >= t then 0 else -1;
    ModUnique(f - t, TWO_64, borrow, f - t - TWO_64 * borrow);
    var back := Sub64(f, t) + s + b;
    assert back == f + TWO_64 * (carry - borrow);
    ModUnique(back, TWO_64, carry - borrow, f);
  }

  /** The usual bitfield: a unit as wide as its alignment, and a field that
      does not cross an alignment boundary. The unit is the aligned one
      holding the field, and the bit offsets are the field's distance from
      the unit's two ends. */
  lemma NaturalBitfield(m: Member, k: nat)
    requires k < 64 && m.alignInBits == Pow2(k) && m.originalTypeSize == m.alignInBits
    requires m.offsetInBits + m.originalTypeSize < TWO_64
    requires m.offsetInBits % m.alignInBits + m.sizeInBits <= m.alignInBits
    ensures ContainerOffset(m) == m.offsetInBits - m.offsetInBits % m.alignInBits
    ensures BitOffset(m, false) == m.offsetInBits % m.alignInBits
    ensures BitOffset(m, true) == m.alignInBits - m.offsetInBits % m.alignInBits - m.sizeInBits
  {
    NaturalContainer(m, k);
    var rem := m.offsetInBits % m.alignInBits;
    assert Sub64(m.offsetInBits, ContainerOffset(m)) == rem;
    assert Add64(rem, m.sizeInBits) == rem + m.sizeInBits;
  }

  lemma NaturalContainer(m: Member, k: nat)
    requires k < 64 && m.alignInBits == Pow2(k) && m.originalTypeSize == m.alignInBits
    requires m.offsetInBits + m.originalTypeSize < TWO_64
    ensures ContainerOffset(m) == m.offsetInBits - m.offsetInBits % m.alignInBits
  {
    var a := m.alignInBits;
    var low := m.offsetInBits - m.offsetInBits % a;
    var down := (m.offsetInBits + a) - (m.offsetInBits + a) % a;
    AlignedUnitEnd(m.offsetInBits, a);
    assert down == low + a;
    ContainerOffsetAligned(m, k);
    assert ContainerOffset(m) + a == down;
  }

  /** The aligned unit after the one holding off ends one unit past it. */
  lemma AlignedUnitEnd(off: nat, a: nat)
    requires a > 0
    ensures (off + a) - (off + a) % a == off - off % a + a
    ensures off % a <= off
  {
    var rem := off % a;
    var q := off / a;
    assert q >= 0 && a * q >= 0;
    assert off + a == a * (q + 1) + rem;
    ModUnique(off + a, a, q + 1, rem);
  }
}
